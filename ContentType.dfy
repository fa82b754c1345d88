/** Choosing the MIME type of the response from the request target: an
    ordered chain of substring tests, with `text/html` as the default. */
module ContentType {
  import opened Text

  /** The extensions tested, in the order they are tested. */
  const Extensions: seq<string> := [".png", ".jpg", ".jpeg", ".gif"]

  /** The type chosen for each extension of `Extensions`, at the same index:
      `.jpg` is served as `image/png`. */
  const ImageTypes: seq<string> := ["image/png", "image/png", "image/jpeg", "image/gif"]

  const Html := "text/html"

  /** The content type `run` chooses for `address`. */
  function ContentTypeOf(address: string): (ct: string)
    ensures ct == Html || ct in ImageTypes
  {
    if Contains(address, ".png") then "image/png"
    else if Contains(address, ".jpg") then "image/png"
    else if Contains(address, ".jpeg") then "image/jpeg"
    else if Contains(address, ".gif") then "image/gif"
    else Html
  }

  /** The first extension of the table that `address` contains decides its
      type, whatever later extensions it also contains. */
  lemma FirstMatchingExtensionDecides(address: string, k: nat)
    requires k < |Extensions| && Contains(address, Extensions[k])
    requires forall j :: 0 <= j < k ==> !Contains(address, Extensions[j])
    ensures ContentTypeOf(address) == ImageTypes[k]
  {
    if k > 0 { assert !Contains(address, Extensions[0]); }
    if k > 1 { assert !Contains(address, Extensions[1]); }
    if k > 2 { assert !Contains(address, Extensions[2]); }
  }

  /** The type is `text/html` exactly when `address` contains none of the extensions. */
  lemma HtmlExactlyWithoutExtension(address: string)
    ensures ContentTypeOf(address) == Html <==>
              forall j :: 0 <= j < |Extensions| ==> !Contains(address, Extensions[j])
  {
    assert "image/png"[0] != Html[0];
    assert "image/jpeg"[0] != Html[0];
    assert "image/gif"[0] != Html[0];
    var none := !Contains(address, ".png") && !Contains(address, ".jpg")
             && !Contains(address, ".jpeg") && !Contains(address, ".gif");
    if forall j :: 0 <= j < |Extensions| ==> !Contains(address, Extensions[j]) {
      assert !Contains(address, Extensions[0]) && !Contains(address, Extensions[1]);
      assert !Contains(address, Extensions[2]) && !Contains(address, Extensions[3]);
    }
    assert none ==> forall j :: 0 <= j < |Extensions| ==> !Contains(address, Extensions[j]);
  }

  /** An address without the letters `p`, `j` and `g` contains none of the
      extensions, so it is served as `text/html`. */
  lemma HtmlWithoutExtensionLetters(address: string)
    requires 'p' !in address && 'j' !in address && 'g' !in address
    ensures ContentTypeOf(address) == Html
  {
    MissingCharNotContained(address, ".png", 1);
    MissingCharNotContained(address, ".jpg", 1);
    MissingCharNotContained(address, ".jpeg", 1);
    MissingCharNotContained(address, ".gif", 1);
  }

  /** An address with `.jpg`, `.png` or both is served as `image/png`, and no
      other address is. */
  lemma PngForPngAndJpg(address: string)
    ensures ContentTypeOf(address) == "image/png" <==>
              Contains(address, ".png") || Contains(address, ".jpg")
  {
    assert "image/jpeg"[6] != "image/png"[6];
    assert "image/gif"[6] != "image/png"[6];
    assert Html[0] != "image/png"[0];
  }

  /** Every type `ContentTypeOf` returns selects exactly one of the two
      content branches of `writeContent`: the `text/html` check succeeds for
      `text/html` alone, the `image` check for every other choice. */
  lemma ChosenTypeSelectsOneBranch(address: string)
    ensures var ct := ContentTypeOf(address);
              (Contains(ct, Html) <==> ct == Html) && (Contains(ct, "image") <==> ct != Html)
  {
    var ct := ContentTypeOf(address);
    if ct == Html {
      assert StartsWith(ct, Html);
      MissingCharNotContained(ct, "image", 0);
    } else {
      assert ct[..5] == "image";
      assert StartsWith(ct, "image");
      assert 't' !in ct;
      MissingCharNotContained(ct, Html, 0);
    }
  }
}
