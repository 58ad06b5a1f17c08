# UploadValidator in Dafny

A model of `UploadValidator`, the validation rule set that the file-storage plugin applies to a PHP
upload array (`name`, `tmp_name`, `size`, `error`) before a file is stored. The model covers:

- the five rules `isUploadArray`, `filesize`, `extension`, `mimeType` and `upload`;
- the four diagnostic fields `_uploadError`, `_mimeType`, `_extension` and `_filesize`, which
  the rules overwrite;
- the four getters that read those fields back.

The class is `UploadValidation.UploadValidator`. It has one field per diagnostic and one method
per rule. Each rule method's contract says three things:

- what the rule returns;
- what it writes into its own field;
- that the other three fields keep their values.

Pure functions state what the rules decide. `ExtensionAccepted`, `MimeAccepted` and `Decide` do
this for the rules. `Lower`, `Basename` and `PathExtension` model PHP's `strtolower`, `basename`
and `pathinfo(..., PATHINFO_EXTENSION)`. Lemmas prove the properties the rules promise.

Files:

- `php.dfy` (module `Php`): the PHP values the rules see or return. This covers `Option`, the
  true/false/null return value `Ret`, array keys, scalars and the `UPLOAD_ERR_*` constants.
- `php_strings.dfy` (module `PhpStrings`): `strtolower`, `basename` and the `pathinfo`
  extension, with their lemmas.
- `upload_messages.dfy` (module `UploadMessages`): the message kinds `_uploadError` can hold,
  and their untranslated text.
- `upload_validator.dfy` (module `UploadValidation`): the descriptor, the allow-lists, the
  options, the decision functions, the class and the lemmas about the rules.
- `upload_examples.dfy` (module `UploadExamples`): concrete uploads run through the class.

Four behaviours of the code are easy to misread from its names and doc comments (`@return boolean`
at line 66, `$requiredKeys` at line 72); the model follows the code:

- `isUploadArray` does not demand the exact key set. It rejects only keys outside
  `filesize`, `name`, `tmp_name`, `size`, `error`, so `filesize` is accepted and no key is
  required.
- On success `isUploadArray` does not return true. Its bare `return;` gives null, which is
  falsy, so the rule never returns true.
- `UPLOAD_ERR_OK` does not clear `_uploadError`. The rule returns true and keeps the old message.
  Only a missing or null `error` entry clears it.
- `_extension` stores the extension as extracted from the name, not lower-cased.

## Model

| member | source | states |
|---|---|---|
| `UploadValidation.UploadValidator.constructor` | src/Validation/UploadValidator.php:14-44 | before any rule runs, the four diagnostics are "", "", "" and 0 |
| `UploadValidation.UploadValidator.IsUploadArray` | src/Validation/UploadValidator.php:68-80 | false exactly when the value is not an array or has a key outside the five tolerated ones; otherwise null; never true |
| `UploadValidation.UploadValidator.Filesize` | src/Validation/UploadValidator.php:89-92 | records the reported size; returns true exactly when size > maxSize (equal is false); other fields unchanged |
| `UploadValidation.UploadValidator.Extension` | src/Validation/UploadValidator.php:101-113 | records the extension as extracted; returns true exactly when some allowed entry equals it up to letter case; other fields unchanged |
| `UploadValidation.LowerAll` | src/Validation/UploadValidator.php:105-107 | the by-reference loop lower-cases every allowed entry and keeps their number and order |
| `UploadValidation.UploadValidator.MimeType` | src/Validation/UploadValidator.php:122-134 | records the sniffed type; returns true exactly when it is literally in the allow-list (a single string is a list of one); other fields unchanged |
| `UploadValidation.UploadValidator.Upload` | src/Validation/UploadValidator.php:143-190 | result and new `_uploadError` follow the decision table `Decide`; other fields unchanged |
| `UploadValidation.UploadValidator.GetFilesize` | src/Validation/UploadValidator.php:192-194 | returns the size the last `filesize` call recorded |
| `UploadValidation.UploadValidator.GetExtension` | src/Validation/UploadValidator.php:196-198 | returns the extension the last `extension` call recorded |
| `UploadValidation.UploadValidator.GetMimeType` | src/Validation/UploadValidator.php:200-202 | returns the type the last `mimeType` call recorded |
| `UploadValidation.UploadValidator.GetUploadError` | src/Validation/UploadValidator.php:204-206 | returns the message `upload` last left |
| `UploadValidation.AllowNoFileError` | src/Validation/UploadValidator.php:144-151 | a non-array `$options` or an absent key gives the default true; a present key overrides it |
| `UploadValidation.Decide` | src/Validation/UploadValidator.php:152-189 | pass exactly for no error entry, `UPLOAD_ERR_OK`, or `UPLOAD_ERR_NO_FILE` unless the option is `=== false`; no error entry clears the message; a pass with a code keeps it; every failure has a code and sets exactly the message `FailureMessage` gives for that code, never the empty one |
| `UploadValidation.UploadPassesWithoutMessage` | src/Validation/UploadValidator.php:152-189 | missing `error` passes and clears the message; `UPLOAD_ERR_OK` passes and keeps whatever message was there |
| `UploadValidation.NoFilePolicy` | src/Validation/UploadValidator.php:144-171 | `UPLOAD_ERR_NO_FILE` fails, with the "no file" message, exactly when `allowNoFileError` is the boolean false; otherwise it passes and keeps the message |
| `UploadValidation.FailureMessage` | src/Validation/UploadValidator.php:157-184 | the message each failing `switch` case sets: never the empty message; a known kind names back exactly the code that chose it; only the `default` case gives "unknown" |
| `UploadValidation.FailureHasText` | src/Validation/UploadValidator.php:157-186 | every failing outcome records a message whose text is not empty |
| `UploadValidation.FailureMessageRoundTrip` | src/Validation/UploadValidator.php:157-184 | each known failing code selects its own message kind and the kind maps back to that code; every other code, 5 included, selects "unknown" |
| `UploadValidation.FailureMessagesDistinct` | src/Validation/UploadValidator.php:157-184 | two different known failing codes never share a message |
| `UploadMessages.TextEmptyOnlyForNoMessage` | src/Validation/UploadValidator.php:158-183 | only the "no message" kind has empty text |
| `UploadValidation.ExtensionIgnoresCase` | src/Validation/UploadValidator.php:105-109 | changing letter case in the name or in any allowed entry never changes the verdict of the extension rule |
| `UploadValidation.ExtensionListShapes` | src/Validation/UploadValidator.php:102-104 | a single string acts as a list of one; an empty list rejects every name |
| `UploadValidation.ExtensionWithoutDot` | src/Validation/UploadValidator.php:108-109 | a name whose basename has no '.' has extension "", accepted only if "" is allowed |
| `UploadValidation.DecideAsWritten` | src/Validation/UploadValidator.php:157-159 | as written, the decision table throws exactly on `UPLOAD_ERR_INI_SIZE` |
| `UploadValidation.IniSizeThrowsAsWritten` | src/Validation/UploadValidator.php:157-159 | the as-written table throws on `UPLOAD_ERR_INI_SIZE`, where the intended one fails with the size-limit message; on every other input the two agree |
| `PhpStrings.Lower` | src/Validation/UploadValidator.php:106 | `strtolower` keeps the length and lower-cases each character on its own |
| `PhpStrings.TrimTrailing` | src/Validation/UploadValidator.php:108 | the trailing-separator trim inside `basename` returns a prefix; `TrimTrailingShape`: it removes exactly the run of separators at the end |
| `PhpStrings.AfterLast` | src/Validation/UploadValidator.php:108 | the text after the last separator is never longer than the input; `AfterLastShape`, `AfterLastSplit` and `AfterLastAppend` pin it down |
| `PhpStrings.Basename` | src/Validation/UploadValidator.php:108 | the `basename` step of `pathinfo`: never longer than the path; the last '/'-free component of the path once trailing '/' are stripped (`BasenameShape`, `TrimTrailingShape`); commutes with `Lower` (`LowerBasename`) |
| `PhpStrings.PathExtension` | src/Validation/UploadValidator.php:108 | `pathinfo($name, PATHINFO_EXTENSION)`: never longer than the name; has no '.' or '/'; "" when the basename has no '.'; otherwise the text after the basename's last '.' (`PathExtensionShape`, `PathExtensionOfName`); commutes with `Lower` (`LowerPathExtension`) |
| `PhpStrings.AfterLastShape` | src/Validation/UploadValidator.php:108 | the cut-off part is a suffix without the separator: either the whole string (no separator) or what follows the last separator |
| `PhpStrings.TrimTrailingShape` | src/Validation/UploadValidator.php:108 | after trimming, the path does not end in the separator, and every character cut off was the separator |
| `PhpStrings.BasenameShape` | src/Validation/UploadValidator.php:108 | the basename is the last component once trailing '/' are stripped: a '/'-free suffix of the trimmed path that is either all of it or follows a '/' |
| `PhpStrings.PathExtensionShape` | src/Validation/UploadValidator.php:108 | the extension has no '.' or '/'; it is "" without a '.' in the basename, otherwise exactly what follows the basename's last '.' |
| `PhpStrings.DotSuffixShape` | src/Validation/UploadValidator.php:108 | in a '/'-free name holding a '.', what follows the last '.' is a proper suffix right after a '.', with no '.' or '/' |
| `PhpStrings.AfterLastAppend` | src/Validation/UploadValidator.php:108 | text without the separator appended to a path is kept whole after the last separator |
| `PhpStrings.PathExtensionOfName` | src/Validation/UploadValidator.php:108 | for a name built as stem + "." + ext, where the stem may hold a directory part and ext has no '.' or '/', the extracted extension is ext |
| `PhpStrings.LowerPathExtension` | src/Validation/UploadValidator.php:108-109 | extracting the extension commutes with lower-casing |
| `PhpStrings.PathExtensionIgnoresCase` | src/Validation/UploadValidator.php:108-109 | names equal up to case have extensions equal up to case |
| `UploadExamples.PhotoJpg` | src/Validation/UploadValidator.php:108-109 | "photo.JPG" and "uploads/photo.JPG" have extension "JPG", which the allow-list "jpg" accepts |
| `UploadExamples.MimeIsCaseSensitive` | src/Validation/UploadValidator.php:130 | "image/JPEG" is refused by "image/jpeg"; an empty list refuses everything |
| `UploadExamples.SpoofedExtensionIsCaught` | src/Validation/UploadValidator.php:101-134 | a ".JPG" name passes the extension rule while contents that sniff as another type fail the MIME rule |
| `UploadExamples.PhotoScenario` | src/Validation/UploadValidator.php:89-113 | after the rules run, the getters return "JPG" (not lower-cased) and the size; a size equal to the limit is not too big |
| `UploadExamples.StaleMessageScenario` | src/Validation/UploadValidator.php:152-164 | a partial upload followed by `UPLOAD_ERR_OK`: the second call passes and the "partial" message stays |
| `UploadExamples.UploadArrayScenario` | src/Validation/UploadValidator.php:68-80 | a partial key set gives null; one extra key, an integer key or a non-array gives false |

## Left out

- `isUploadedFile` (lines 58-60) only forwards to PHP's `is_uploaded_file`, which asks the
  web server's upload bookkeeping. That is outside the model.
- MIME sniffing (`new File(...)->mime()`, lines 127-128) reads the file. `MimeType` takes the
  sniffed type as a parameter `sniffed` instead. The model assumes the sniffer always gives a
  string. If the file cannot be read, `mime()` can give `false`, and that case is not modelled.
- Message text: `_uploadError` holds a message kind (`UploadMessage`), where `NoMessage` stands
  for "". `Text` gives each kind's untranslated text. Translation through `__d` and the size
  inserted into the `UPLOAD_ERR_INI_SIZE` text are not modelled.
- The constructor's `provider(...)` registration and the base class `Validator` belong to the
  framework and are not modelled.
- PHP loose comparison is not modelled; string comparison is exact. This affects:
  - `in_array` on numeric-looking strings (lines 75, 109, 130). For example, `"1e1"` loosely
    equals `"10"`.
  - an integer key `0` against string keys (line 75). It is rejected here, as under PHP 8.
  - `switch` on an `error` value that is not an integer (line 153). The `error` entry is
    modelled as an optional integer.
  - `$value['size'] > $maxSize` (line 91) when either side is a string such as `"1MB"`; under
    PHP 8 a non-numeric string makes it a string comparison. Size and limit are modelled as
    integers.
- `Lower` covers ASCII letters only. That is `strtolower` from PHP 8.2 on, or under the C locale.
- `Basename` treats only '/' as a separator, as on Unix. The Windows backslash and multibyte
  locale handling inside PHP's `basename` are not modelled.
- UploadValidation.UploadValidator.Extension and UploadValidation.UploadValidator.MimeType
  take an allow-list that is a string or an array of strings. Any other argument (null, an
  integer) makes PHP warn or throw, and that case is not modelled.
- UploadValidation.UploadValidator.Filesize and UploadValidation.UploadValidator.Extension
  take a descriptor that always holds `size` and `name`. A missing entry reads as null in PHP
  with a notice, and that case is not modelled.
- Sharing one validator between concurrent requests is not modelled. The code has no
  concurrency.

## Findings

| source | as written | input that shows it | evidently intended | confidence | as-written member | corrected member |
|---|---|---|---|---|---|---|
| src/Validation/UploadValidator.php:157-159 | `CakeNumber::toReadableSize(...)` is called, but the file imports only `File` and `Validator` (lines 4-5). In the file's namespace the unqualified class name resolves to `Burzum\FileStorage\Validation\CakeNumber`, which does not exist, so the call throws before any message is recorded | an upload array whose `error` is `UPLOAD_ERR_INI_SIZE` (1) | record the "exceeds limit" message and return false, like the other failing codes | medium, not executed | `UploadValidation.DecideAsWritten` (exhibited by `UploadValidation.IniSizeThrowsAsWritten`) | `UploadValidation.Decide` (used by `UploadValidation.UploadValidator.Upload`) |
