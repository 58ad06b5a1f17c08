/** The validation rules for one PHP file upload and the diagnostic state
    that the rules leave behind for the caller to read. */
module UploadValidation {
  import opened Php
  import opened PhpStrings
  import opened UploadMessages

  /** The upload array PHP builds for one file input: `name`, `tmp_name`,
      `size` and `error`. An `error` entry that is missing or null is `None`. */
  datatype UploadDescriptor = UploadDescriptor(name: string, tmpName: string, size: int, error: Option<int>)

  /** The value handed to `isUploadArray`: anything that is not a PHP array, or
      an array, of which the rule only looks at the keys, in order. */
  datatype Mixed = NotAnArray | AnArray(keys: seq<Key>)

  /** The allow-list argument of `extension` and `mimeType`: one string or an array of strings. */
  datatype AllowList = Single(item: string) | Many(items: seq<string>)

  /** The `$options` argument of `upload`. When it is an array, the value it
      holds under `allowNoFileError`, if any. */
  datatype Options = NonArrayOptions | OptionsArray(allowNoFileError: Option<Scalar>)

  /** The decision of the `upload` rule: pass or fail, and whether the error
      message is left alone or overwritten. */
  datatype MessageUpdate = Keep | SetTo(message: UploadMessage)
  datatype UploadOutcome = UploadOutcome(pass: bool, update: MessageUpdate)

  /** The keys `isUploadArray` tolerates. */
  const UPLOAD_KEYS: seq<string> := ["filesize", "name", "tmp_name", "size", "error"]

  predicate IsUploadKey(k: Key) {
    k.StrKey? && k.s in UPLOAD_KEYS
  }

  /** A string allow-list is treated as a list of one. */
  function Items(allowed: AllowList): seq<string> {
    match allowed
    case Single(s) => [s]
    case Many(xs) => xs
  }

  /** The extension rule's verdict: some allowed entry equals the name's
      extension up to letter case. */
  predicate ExtensionAccepted(name: string, allowed: AllowList) {
    exists i :: 0 <= i < |Items(allowed)| && SameUpToCase(Items(allowed)[i], PathExtension(name))
  }

  /** The MIME rule's verdict: the sniffed type is literally in the allow-list. */
  predicate MimeAccepted(sniffed: string, allowed: AllowList) {
    sniffed in Items(allowed)
  }

  /** The `allowNoFileError` option after `array_merge` with the default `true`. */
  function AllowNoFileError(options: Options): (v: Scalar)
    ensures options.NonArrayOptions? ==> v == Bool(true)
    ensures options.OptionsArray? && options.allowNoFileError.None? ==> v == Bool(true)
    ensures options.OptionsArray? && options.allowNoFileError.Some? ==> v == options.allowNoFileError.value
  {
    match options
    case NonArrayOptions => Bool(true)
    case OptionsArray(None) => Bool(true)
    case OptionsArray(Some(v)) => v
  }

  /** A missing file fails the rule only when the option is identical (`===`) to `false`. */
  predicate NoFileIsError(options: Options) {
    AllowNoFileError(options) == Bool(false)
  }

  /** The message kind each failing transport code selects. */
  function FailureMessage(code: int): (m: UploadMessage)
    ensures m != NoMessage
    ensures CodeOf(m).Some? ==> CodeOf(m) == Some(code)
    ensures m == UnknownError <==>
              code !in {UPLOAD_ERR_INI_SIZE, UPLOAD_ERR_FORM_SIZE, UPLOAD_ERR_PARTIAL, UPLOAD_ERR_NO_FILE,
                        UPLOAD_ERR_NO_TMP_DIR, UPLOAD_ERR_CANT_WRITE, UPLOAD_ERR_EXTENSION}
  {
    if code == UPLOAD_ERR_INI_SIZE then ExceedsIniSize
    else if code == UPLOAD_ERR_FORM_SIZE then ExceedsFormSize
    else if code == UPLOAD_ERR_PARTIAL then PartiallyUploaded
    else if code == UPLOAD_ERR_NO_FILE then NoFileUploaded
    else if code == UPLOAD_ERR_NO_TMP_DIR then NoTmpDir
    else if code == UPLOAD_ERR_CANT_WRITE then CantWrite
    else if code == UPLOAD_ERR_EXTENSION then StoppedByExtension
    else UnknownError
  }

  /** The transport code a message kind stands for; `None` for the empty
      message and for the catch-all. */
  function CodeOf(m: UploadMessage): Option<int> {
    match m
    case ExceedsIniSize => Some(UPLOAD_ERR_INI_SIZE)
    case ExceedsFormSize => Some(UPLOAD_ERR_FORM_SIZE)
    case PartiallyUploaded => Some(UPLOAD_ERR_PARTIAL)
    case NoFileUploaded => Some(UPLOAD_ERR_NO_FILE)
    case NoTmpDir => Some(UPLOAD_ERR_NO_TMP_DIR)
    case CantWrite => Some(UPLOAD_ERR_CANT_WRITE)
    case StoppedByExtension => Some(UPLOAD_ERR_EXTENSION)
    case NoMessage => None
    case UnknownError => None
  }

  /** The decision table of the `upload` rule. */
  function Decide(error: Option<int>, options: Options): (o: UploadOutcome)
    ensures o.pass <==> (error.None? || error == Some(UPLOAD_ERR_OK)
                         || (error == Some(UPLOAD_ERR_NO_FILE) && !NoFileIsError(options)))
    ensures error.None? ==> o.update == SetTo(NoMessage)
    ensures error.Some? ==> (o.update == Keep <==> o.pass)
    ensures !o.pass ==> o.update.SetTo? && o.update.message != NoMessage
    ensures !o.pass ==> error.Some? && o.update == SetTo(FailureMessage(error.value))
  {
    match error
    case None => UploadOutcome(true, SetTo(NoMessage))
    case Some(code) =>
      if code == UPLOAD_ERR_OK then UploadOutcome(true, Keep)
      else if code == UPLOAD_ERR_NO_FILE && !NoFileIsError(options) then UploadOutcome(true, Keep)
      else UploadOutcome(false, SetTo(FailureMessage(code)))
  }

  /** The message `_uploadError` holds after an outcome has been applied. */
  function Applied(current: UploadMessage, update: MessageUpdate): UploadMessage {
    match update
    case Keep => current
    case SetTo(m) => m
  }

  /** The validator: one method per rule, and the diagnostic fields the
      `filesize`, `extension`, `mimeType` and `upload` rules overwrite. */
  class UploadValidator {
    var uploadError: UploadMessage
    var mimeType: string
    var extension: string
    var filesize: int

    /** Before any rule has run, the getters give 0, "", "" and "". */
    constructor ()
      ensures uploadError == NoMessage && mimeType == "" && extension == "" && filesize == 0
    {
      uploadError := NoMessage;
      mimeType := "";
      extension := "";
      filesize := 0;
    }

    /** `isUploadArray`: false for a non-array or for an array with a key
        outside the five tolerated ones; otherwise a bare `return;`, which is
        null. It never returns true, and it does not ask for any key. */
    method IsUploadArray(value: Mixed) returns (r: Ret)
      ensures r != RetTrue && !r.Truthy()
      ensures r == RetFalse <==>
                value.NotAnArray? || exists k :: k in value.keys && !IsUploadKey(k)
      ensures r == RetNull <==>
                value.AnArray? && forall k :: k in value.keys ==> IsUploadKey(k)
    {
      if value.NotAnArray? {
        return RetFalse;
      }
      var keys := value.keys;
      var i := 0;
      while i < |keys|
        invariant 0 <= i <= |keys|
        invariant forall j :: 0 <= j < i ==> IsUploadKey(keys[j])
      {
        if !IsUploadKey(keys[i]) {
          return RetFalse;
        }
        i := i + 1;
      }
      return RetNull;
    }

    /** `filesize`: records the reported size and answers "too big". */
    method Filesize(value: UploadDescriptor, maxSize: int) returns (tooBig: bool)
      modifies this
      ensures tooBig <==> value.size > maxSize
      ensures filesize == value.size
      ensures uploadError == old(uploadError) && mimeType == old(mimeType) && extension == old(extension)
    {
      filesize := value.size;
      tooBig := value.size > maxSize;
    }

    /** `extension`: records the extension as extracted from the name, then
        looks its lower-cased form up in the lower-cased allow-list. */
    method Extension(value: UploadDescriptor, extensions: AllowList) returns (ok: bool)
      modifies this
      ensures ok <==> ExtensionAccepted(value.name, extensions)
      ensures extension == PathExtension(value.name)
      ensures uploadError == old(uploadError) && mimeType == old(mimeType) && filesize == old(filesize)
    {
      var items := Items(extensions);
      var lowered := LowerAll(items);
      extension := PathExtension(value.name);
      var wanted := Lower(extension);
      ok := wanted in lowered;
      if ok {
        var i :| 0 <= i < |lowered| && lowered[i] == wanted;
        assert SameUpToCase(items[i], extension);
      } else {
        forall i | 0 <= i < |items| ensures !SameUpToCase(items[i], extension) {
          assert lowered[i] == Lower(items[i]);
        }
      }
    }

    /** `mimeType`: records the type sniffed from the file's contents and looks
        it up, exactly as written, in the allow-list. */
    method MimeType(value: UploadDescriptor, mimeTypes: AllowList, sniffed: string) returns (ok: bool)
      modifies this
      ensures ok <==> MimeAccepted(sniffed, mimeTypes)
      ensures mimeType == sniffed
      ensures uploadError == old(uploadError) && extension == old(extension) && filesize == old(filesize)
    {
      mimeType := sniffed;
      ok := mimeType in Items(mimeTypes);
    }

    /** `upload`: the transport error code decides pass or fail and which
        message, if any, is recorded. */
    method Upload(value: UploadDescriptor, options: Options) returns (ok: bool)
      modifies this
      ensures ok == Decide(value.error, options).pass
      ensures uploadError == Applied(old(uploadError), Decide(value.error, options).update)
      ensures mimeType == old(mimeType) && extension == old(extension) && filesize == old(filesize)
    {
      var allowNoFileError := AllowNoFileError(options);
      if value.error.Some? {
        var code := value.error.value;
        if code == UPLOAD_ERR_OK {
          return true;
        } else if code == UPLOAD_ERR_INI_SIZE {
          uploadError := ExceedsIniSize;
        } else if code == UPLOAD_ERR_FORM_SIZE {
          uploadError := ExceedsFormSize;
        } else if code == UPLOAD_ERR_PARTIAL {
          uploadError := PartiallyUploaded;
        } else if code == UPLOAD_ERR_NO_FILE {
          if allowNoFileError == Bool(false) {
            uploadError := NoFileUploaded;
            return false;
          }
          return true;
        } else if code == UPLOAD_ERR_NO_TMP_DIR {
          uploadError := NoTmpDir;
        } else if code == UPLOAD_ERR_CANT_WRITE {
          uploadError := CantWrite;
        } else if code == UPLOAD_ERR_EXTENSION {
          uploadError := StoppedByExtension;
        } else {
          uploadError := UnknownError;
        }
        return false;
      }
      uploadError := NoMessage;
      return true;
    }

    method GetFilesize() returns (r: int)
      ensures r == filesize
    {
      return filesize;
    }

    method GetExtension() returns (r: string)
      ensures r == extension
    {
      return extension;
    }

    method GetMimeType() returns (r: string)
      ensures r == mimeType
    {
      return mimeType;
    }

    method GetUploadError() returns (r: UploadMessage)
      ensures r == uploadError
    {
      return uploadError;
    }
  }

  /** The by-reference loop of `extension` that lower-cases every allowed
      entry, on a copy of the caller's list. */
  method LowerAll(list: seq<string>) returns (r: seq<string>)
    ensures |r| == |list|
    ensures forall i :: 0 <= i < |list| ==> r[i] == Lower(list[i])
  {
    r := list;
    var i := 0;
    while i < |r|
      invariant |r| == |list|
      invariant 0 <= i <= |r|
      invariant forall j :: 0 <= j < i ==> r[j] == Lower(list[j])
      invariant forall j :: i <= j < |r| ==> r[j] == list[j]
    {
      r := r[i := Lower(r[i])];
      i := i + 1;
    }
  }

  // Properties of the extension rule.

  /** Letter case never matters, neither in the name nor in the allow-list. */
  lemma ExtensionIgnoresCase(name1: string, name2: string, allowed1: AllowList, allowed2: AllowList)
    requires SameUpToCase(name1, name2)
    requires |Items(allowed1)| == |Items(allowed2)|
    requires forall i :: 0 <= i < |Items(allowed1)| ==> SameUpToCase(Items(allowed1)[i], Items(allowed2)[i])
    ensures ExtensionAccepted(name1, allowed1) <==> ExtensionAccepted(name2, allowed2)
  {
    PathExtensionIgnoresCase(name1, name2);
    var e1, e2 := PathExtension(name1), PathExtension(name2);
    var xs1, xs2 := Items(allowed1), Items(allowed2);
    assert Lower(e1) == Lower(e2);
    if ExtensionAccepted(name1, allowed1) {
      var i :| 0 <= i < |xs1| && SameUpToCase(xs1[i], e1);
      assert SameUpToCase(xs2[i], e2);
    }
    if ExtensionAccepted(name2, allowed2) {
      var i :| 0 <= i < |xs2| && SameUpToCase(xs2[i], e2);
      assert SameUpToCase(xs1[i], e1);
    }
  }

  /** A single string is a list of one; an empty list rejects every name. */
  lemma ExtensionListShapes(name: string, single: string)
    ensures ExtensionAccepted(name, Single(single)) <==> SameUpToCase(single, PathExtension(name))
    ensures !ExtensionAccepted(name, Many([]))
  {
    assert Items(Single(single))[0] == single;
  }

  /** A name whose basename has no '.' has the extension "", which only an
      empty allowed entry matches. */
  lemma ExtensionWithoutDot(name: string, allowed: AllowList)
    requires '.' !in Basename(name)
    ensures ExtensionAccepted(name, allowed) <==> "" in Items(allowed)
  {
    assert PathExtension(name) == "";
    if ExtensionAccepted(name, allowed) {
      var i :| 0 <= i < |Items(allowed)| && SameUpToCase(Items(allowed)[i], "");
      assert |Lower(Items(allowed)[i])| == 0;
    }
    if "" in Items(allowed) {
      assert SameUpToCase("", PathExtension(name));
    }
  }

  // Properties of the upload rule.

  /** No `error` entry: pass, and the message is cleared. `UPLOAD_ERR_OK`:
      pass, and the message is left as it was. */
  lemma UploadPassesWithoutMessage(options: Options, current: UploadMessage)
    ensures Decide(None, options).pass && Applied(current, Decide(None, options).update) == NoMessage
    ensures Decide(Some(UPLOAD_ERR_OK), options).pass
    ensures Applied(current, Decide(Some(UPLOAD_ERR_OK), options).update) == current
  {
  }

  /** A missing file fails only when `allowNoFileError` is exactly `false`; a
      non-array `$options`, an absent option, or a falsy non-boolean such as 0
      or null lets it pass. */
  lemma NoFilePolicy(options: Options, current: UploadMessage)
    ensures Decide(Some(UPLOAD_ERR_NO_FILE), options).pass <==> !NoFileIsError(options)
    ensures NoFileIsError(options) <==> options == OptionsArray(Some(Bool(false)))
    ensures Applied(current, Decide(Some(UPLOAD_ERR_NO_FILE), options).update)
              == if NoFileIsError(options) then NoFileUploaded else current
  {
  }

  /** Every failing outcome records a message whose text is not empty. */
  lemma FailureHasText(error: Option<int>, options: Options)
    requires !Decide(error, options).pass
    ensures Text(Decide(error, options).update.message) != ""
  {
    TextEmptyOnlyForNoMessage(Decide(error, options).update.message);
  }

  /** The known failing codes and their message kinds are in one-to-one
      correspondence; every other code, 5 included, selects the catch-all. */
  lemma FailureMessageRoundTrip(code: int, m: UploadMessage)
    ensures CodeOf(m) == Some(code) ==> FailureMessage(code) == m
    ensures CodeOf(FailureMessage(code)).Some? ==> CodeOf(FailureMessage(code)) == Some(code)
    ensures CodeOf(FailureMessage(code)).None? <==> FailureMessage(code) == UnknownError
    ensures FailureMessage(code) == UnknownError <==>
              code !in {UPLOAD_ERR_INI_SIZE, UPLOAD_ERR_FORM_SIZE, UPLOAD_ERR_PARTIAL, UPLOAD_ERR_NO_FILE,
                        UPLOAD_ERR_NO_TMP_DIR, UPLOAD_ERR_CANT_WRITE, UPLOAD_ERR_EXTENSION}
  {
  }

  /** Two different known failing codes never select the same message. */
  lemma FailureMessagesDistinct(code1: int, code2: int)
    requires FailureMessage(code1) != UnknownError && FailureMessage(code2) != UnknownError
    requires code1 != code2
    ensures FailureMessage(code1) != FailureMessage(code2)
  {
    FailureMessageRoundTrip(code1, FailureMessage(code1));
    FailureMessageRoundTrip(code2, FailureMessage(code2));
  }

  // The INI_SIZE branch as written: the unqualified `CakeNumber` resolves in
  // the file's own namespace, where no such class exists, so the branch throws
  // before any message is recorded.

  /** The decision table as written; `None` stands for the thrown error. */
  function DecideAsWritten(error: Option<int>, options: Options): (r: Option<UploadOutcome>)
    ensures r.None? <==> error == Some(UPLOAD_ERR_INI_SIZE)
  {
    match error
    case None => Some(UploadOutcome(true, SetTo(NoMessage)))
    case Some(code) =>
      if code == UPLOAD_ERR_OK then Some(UploadOutcome(true, Keep))
      else if code == UPLOAD_ERR_INI_SIZE then None
      else if code == UPLOAD_ERR_NO_FILE && !NoFileIsError(options) then Some(UploadOutcome(true, Keep))
      else Some(UploadOutcome(false, SetTo(FailureMessage(code))))
  }

  /** As written, `UPLOAD_ERR_INI_SIZE` throws; the intended rule fails with
      the size-limit message. Every other input is decided identically. */
  lemma IniSizeThrowsAsWritten(error: Option<int>, options: Options)
    ensures DecideAsWritten(Some(UPLOAD_ERR_INI_SIZE), options).None?
    ensures Decide(Some(UPLOAD_ERR_INI_SIZE), options) == UploadOutcome(false, SetTo(ExceedsIniSize))
    ensures error != Some(UPLOAD_ERR_INI_SIZE) ==> DecideAsWritten(error, options) == Some(Decide(error, options))
  {
  }
}
