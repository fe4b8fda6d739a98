/**
 * The older failure-message formatter of src/util.ts: the description replaces the error's
 * own message instead of preceding it, only a `RestError` adds a status suffix, and there
 * is no fallback text, so the result may be empty.
 */
module UtilErrors {
  import opened Wrappers
  import opened Strings
  import opened Errors

  /** `description || error.message`. */
  function Lead(error: Error, description: Option<string>): string
  {
    if NonEmpty(description) then description.value else error.message
  }

  /** `getErrorMessage(error, description)` of src/util.ts. */
  function GetErrorMessage(phrases: PhraseTable, error: Error, description: Option<string>): (r: string)
    // the description when given, else the error's own message, comes first
    ensures NonEmpty(description) ==> StartsWith(r, description.value)
    ensures !NonEmpty(description) ==> StartsWith(r, error.message)
    // only a RestError with a truthy status gets a suffix
    ensures Silent(error) ==> r == Lead(error, description)
    ensures SelectStatus(error).Some? ==>
      var text := StatusText(SelectStatus(error).value);
      r == SpaceJoin(Lead(error, description), SpaceJoin(StatusLabel + text, TextOr(Lookup(phrases, text))))
    // no fallback: empty exactly when there is nothing to say
    ensures r == "" <==> Lead(error, description) == "" && SelectStatus(error).None?
  {
    var parts := [Some(Lead(error, description))] + (if error.RestError? then StatusParts(phrases, error) else []);
    StatusPartsJoin(phrases, Some(Lead(error, description)), error);
    assert SelectStatus(error).Some? ==> error.RestError?;
    Join(Compact(parts), " ")
  }

  /**
   * The two formatters agree on a plain `Error` or `RestError` that comes with a
   * description; without one, src/errors.ts falls back to a fixed text where src/util.ts
   * reports the error's own message.
   */
  lemma FormattersCompared(phrases: PhraseTable, error: Error, description: Option<string>)
    requires error.PlainError? || error.RestError?
    ensures NonEmpty(description) ==>
      GetErrorMessage(phrases, error, description) == Errors.GetErrorMessage(phrases, error, description)
    ensures !NonEmpty(description) && Silent(error) ==>
      Errors.GetErrorMessage(phrases, error, description) == UnknownErrorMessage
      && GetErrorMessage(phrases, error, description) == error.message
  {
  }
}
