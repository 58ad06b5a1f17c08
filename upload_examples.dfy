/** Concrete uploads run through the rules, and what a caller reads back. */
module UploadExamples {
  import opened Php
  import opened PhpStrings
  import opened UploadMessages
  import opened UploadValidation

  /** "photo.JPG" has the extension "JPG", which "jpg" allows; a directory
      part in front of the name changes nothing. */
  lemma PhotoJpg()
    ensures PathExtension("photo.JPG") == "JPG"
    ensures PathExtension("uploads/photo.JPG") == "JPG"
    ensures ExtensionAccepted("photo.JPG", Single("jpg"))
  {
    assert "photo.JPG" == "photo" + "." + "JPG";
    PathExtensionOfName("photo", "JPG");
    assert "uploads/photo.JPG" == "uploads/photo" + "." + "JPG";
    PathExtensionOfName("uploads/photo", "JPG");
    var lower := Lower("JPG");
    assert lower[0] == 'j' && lower[1] == 'p' && lower[2] == 'g';
    var same := Lower("jpg");
    assert same[0] == 'j' && same[1] == 'p' && same[2] == 'g';
    assert SameUpToCase("jpg", "JPG");
    ExtensionListShapes("photo.JPG", "jpg");
  }

  // The MIME rule.

  /** The MIME rule compares exactly: a type differing only in letter case is
      refused, where the extension rule would have let it through. */
  lemma MimeIsCaseSensitive()
    ensures !MimeAccepted("image/JPEG", Single("image/jpeg"))
    ensures MimeAccepted("image/jpeg", Many(["image/png", "image/jpeg"]))
    ensures !MimeAccepted("image/jpeg", Many([]))
  {
    assert "image/JPEG"[6] != "image/jpeg"[6];
  }

  /** A file named like an image whose contents sniff as something else passes
      the extension rule and fails the MIME rule. */
  lemma SpoofedExtensionIsCaught(sniffed: string)
    requires sniffed != "image/jpeg"
    ensures ExtensionAccepted("photo.JPG", Single("jpg"))
    ensures !MimeAccepted(sniffed, Single("image/jpeg"))
  {
    PhotoJpg();
  }

  // Client scenarios: what a caller reads back through the getters.

  /** Validating "photo.JPG" against "jpg" passes and records "JPG" as
      extracted; a size equal to the limit is not too big, and is recorded. */
  method PhotoScenario() returns (accepted: bool, recorded: string, tooBig: bool, size: int)
    ensures accepted && recorded == "JPG"
    ensures !tooBig && size == 2048
  {
    var validator := new UploadValidator();
    var upload := UploadDescriptor("photo.JPG", "/tmp/phpA1b2C3", 2048, Some(UPLOAD_ERR_OK));
    PhotoJpg();
    accepted := validator.Extension(upload, Single("jpg"));
    recorded := validator.GetExtension();
    tooBig := validator.Filesize(upload, 2048);
    size := validator.GetFilesize();
  }

  /** `UPLOAD_ERR_OK` passes without clearing the message an earlier failure left. */
  method StaleMessageScenario() returns (first: bool, second: bool, message: UploadMessage)
    ensures !first && second
    ensures message == PartiallyUploaded
  {
    var validator := new UploadValidator();
    first := validator.Upload(UploadDescriptor("a.txt", "/tmp/phpX", 10, Some(UPLOAD_ERR_PARTIAL)), NonArrayOptions);
    second := validator.Upload(UploadDescriptor("a.txt", "/tmp/phpX", 10, Some(UPLOAD_ERR_OK)), NonArrayOptions);
    message := validator.GetUploadError();
  }

  /** A descriptor with only some of the keys passes `isUploadArray` (as null),
      one extra key fails it even next to all the expected ones, and so does
      an integer key or a value that is not an array. */
  method UploadArrayScenario() returns (partial: Ret, extra: Ret, numeric: Ret, scalar: Ret)
    ensures partial == RetNull && !partial.Truthy()
    ensures extra == RetFalse && numeric == RetFalse && scalar == RetFalse
  {
    var validator := new UploadValidator();
    partial := validator.IsUploadArray(AnArray([StrKey("name"), StrKey("tmp_name")]));
    assert "name" in UPLOAD_KEYS && "tmp_name" in UPLOAD_KEYS;
    var all := [StrKey("name"), StrKey("tmp_name"), StrKey("size"), StrKey("error")];
    extra := validator.IsUploadArray(AnArray(all + [StrKey("type")]));
    assert "type" !in UPLOAD_KEYS;
    assert StrKey("type") in all + [StrKey("type")] && !IsUploadKey(StrKey("type"));
    numeric := validator.IsUploadArray(AnArray([IntKey(0)]));
    assert IntKey(0) in [IntKey(0)] && !IsUploadKey(IntKey(0));
    scalar := validator.IsUploadArray(NotAnArray);
  }
}
