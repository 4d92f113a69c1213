/**
 * The service's own exception classes. `FileValidationError` and `StorageError`
 * both derive from `TranslationError`, so an `except TranslationError` clause also
 * catches them; only the order of the handlers keeps validation failures terminal.
 */
module Exceptions {

  datatype Error =
    | TranslationError(message: string)
    | FileValidationError(message: string)
    | StorageError(message: string)

  datatype ErrorClass = TranslationErrorClass | FileValidationErrorClass | StorageErrorClass

  function ClassOf(e: Error): ErrorClass {
    match e
    case TranslationError(_) => TranslationErrorClass
    case FileValidationError(_) => FileValidationErrorClass
    case StorageError(_) => StorageErrorClass
  }

  /** Whether `sub` is `sup` or derives from it. */
  predicate IsSubclass(sub: ErrorClass, sup: ErrorClass) {
    sub == sup || sup == TranslationErrorClass
  }

  /** Python's `isinstance(e, c)` over this hierarchy. */
  predicate IsInstance(e: Error, c: ErrorClass) {
    IsSubclass(ClassOf(e), c)
  }

  /** `str(e)`. */
  function Message(e: Error): string {
    e.message
  }
}
