/** The few PHP values the upload validator inspects or returns. */
module Php {

  datatype Option<+T> = None | Some(value: T)

  /** What a PHP function hands back when it may `return true`, `return false`
      or a bare `return;` (which yields null). */
  datatype Ret = RetTrue | RetFalse | RetNull {
    /** PHP's conversion to boolean: only `true` is truthy here. */
    predicate Truthy() {
      RetTrue?
    }
  }

  /** A PHP array key: an integer or a string. */
  datatype Key = IntKey(n: int) | StrKey(s: string)

  /** A PHP scalar, as far as `===` needs to tell them apart. */
  datatype Scalar = Null | Bool(b: bool) | Int(i: int) | Str(s: string)

  /** PHP's `UPLOAD_ERR_*` constants. The value 5 is not used by PHP. */
  const UPLOAD_ERR_OK: int := 0
  const UPLOAD_ERR_INI_SIZE: int := 1
  const UPLOAD_ERR_FORM_SIZE: int := 2
  const UPLOAD_ERR_PARTIAL: int := 3
  const UPLOAD_ERR_NO_FILE: int := 4
  const UPLOAD_ERR_NO_TMP_DIR: int := 6
  const UPLOAD_ERR_CANT_WRITE: int := 7
  const UPLOAD_ERR_EXTENSION: int := 8
}
