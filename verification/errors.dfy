/**
 * The errors the sync action reports and the failure-message formatter of src/errors.ts:
 * the optional description first, then what the error itself contributes, with empty
 * parts dropped, joined by single spaces, and a fixed text when nothing is left.
 */
module Errors {
  import opened Wrappers
  import opened Strings

  /** A thrown error: a plain `Error`, one of the two custom subclasses, or a `RestError`. */
  datatype Error =
    | PlainError(message: string)
    | ArgumentError(message: string)
    | ParseError(message: string)
    | RestError(message: string, code: Option<string>, statusCode: Option<int>)

  /** Reason phrases, looked up by the status as text (a property lookup stringifies it). */
  type PhraseTable = map<string, string>

  const UnknownErrorMessage := "An unknown error occurred."
  const StatusLabel := "Status code: "

  /** The status a `RestError` reports: its numeric `statusCode`, else its textual `code`. */
  datatype Status = Numeric(n: int) | Textual(s: string)

  /** `error.statusCode || error.code`, when that is truthy. */
  function SelectStatus(error: Error): Option<Status>
  {
    if !error.RestError? then None
    else if error.statusCode.Some? && error.statusCode.value != 0 then Some(Numeric(error.statusCode.value))
    else if NonEmpty(error.code) then Some(Textual(error.code.value))
    else None
  }

  /** The status as the template literal `${statusCode}` renders it. */
  function StatusText(status: Status): (r: string)
  {
    match status
    case Numeric(n) => IntToString(n)
    case Textual(s) => s
  }

  function Lookup(phrases: PhraseTable, key: string): Option<string>
  {
    if key in phrases then Some(phrases[key]) else None
  }

  /** `Status code: <c>` followed by the reason phrase, both as optional parts. */
  function StatusParts(phrases: PhraseTable, error: Error): seq<Option<string>>
  {
    match SelectStatus(error)
    case None => []
    case Some(status) => [Some(StatusLabel + StatusText(status)), Lookup(phrases, StatusText(status))]
  }

  /** The status suffix as text: "" without a status, else the label and the known phrase. */
  function StatusSuffix(phrases: PhraseTable, error: Error): string
  {
    match SelectStatus(error)
    case None => ""
    case Some(status) => SpaceJoin(StatusLabel + StatusText(status), TextOr(Lookup(phrases, StatusText(status))))
  }

  /** Filtering and joining the status parts gives the status suffix. */
  lemma StatusPartsJoin(phrases: PhraseTable, description: Option<string>, error: Error)
    ensures Join(Compact([description] + StatusParts(phrases, error)), " ")
         == SpaceJoin(TextOr(description), StatusSuffix(phrases, error))
    ensures Compact([description] + StatusParts(phrases, error)) == []
        <==> SpaceJoin(TextOr(description), StatusSuffix(phrases, error)) == ""
  {
    match SelectStatus(error)
    case None =>
      assert [description] + StatusParts(phrases, error) == [description];
      CompactJoinCons(description, [], " ");
      assert [description] + [] == [description];
    case Some(status) =>
      var head := Some(StatusLabel + StatusText(status));
      var phrase := Lookup(phrases, StatusText(status));
      assert [description] + StatusParts(phrases, error) == [description, head, phrase];
      CompactJoinTriple(description, head, phrase);
  }

  /** What an error adds after the description in src/errors.ts. */
  function Detail(phrases: PhraseTable, error: Error): seq<Option<string>>
  {
    match error
    case ArgumentError(message) => [Some(message)]
    case ParseError(message) => [Some(message)]
    case RestError(_, _, _) => StatusParts(phrases, error)
    case PlainError(_) => []
  }

  /** What an error adds, as text. */
  function DetailText(phrases: PhraseTable, error: Error): string
  {
    match error
    case ArgumentError(message) => message
    case ParseError(message) => message
    case RestError(_, _, _) => StatusSuffix(phrases, error)
    case PlainError(_) => ""
  }

  /** Filtering and joining the description and the detail parts. */
  lemma DetailJoin(phrases: PhraseTable, description: Option<string>, error: Error)
    ensures Join(Compact([description] + Detail(phrases, error)), " ")
         == SpaceJoin(TextOr(description), DetailText(phrases, error))
    ensures Compact([description] + Detail(phrases, error)) == []
        <==> SpaceJoin(TextOr(description), DetailText(phrases, error)) == ""
  {
    match error
    case ArgumentError(message) =>
      assert [description] + Detail(phrases, error) == [description, Some(message)];
      CompactJoinPair(description, Some(message));
    case ParseError(message) =>
      assert [description] + Detail(phrases, error) == [description, Some(message)];
      CompactJoinPair(description, Some(message));
    case RestError(_, _, _) =>
      StatusPartsJoin(phrases, description, error);
    case PlainError(_) =>
      StatusPartsJoin(phrases, description, error);
  }

  /** A plain `Error`, or a `RestError` without a truthy status, adds nothing. */
  predicate Silent(error: Error) {
    error.PlainError? || SelectStatus(error).None?
  }

  /** `getErrorMessage(error, description)` of src/errors.ts. */
  function GetErrorMessage(phrases: PhraseTable, error: Error, description: Option<string>): (r: string)
    ensures r != ""
    // the description, when given, always comes first
    ensures NonEmpty(description) ==> r == description.value || StartsWith(r, description.value + " ")
    // a plain Error and a RestError without status contribute nothing
    ensures !error.ArgumentError? && !error.ParseError? && Silent(error) ==>
      r == (if NonEmpty(description) then description.value else UnknownErrorMessage)
    // the custom errors append their message after one space
    ensures error.ArgumentError? || error.ParseError? ==>
      r == (if SpaceJoin(TextOr(description), error.message) == "" then UnknownErrorMessage
            else SpaceJoin(TextOr(description), error.message))
    // a RestError with a status appends `Status code: <c>` and the phrase when known
    ensures SelectStatus(error).Some? ==>
      var text := StatusText(SelectStatus(error).value);
      r == SpaceJoin(TextOr(description), SpaceJoin(StatusLabel + text, TextOr(Lookup(phrases, text))))
  {
    DetailJoin(phrases, description, error);
    var parts := Compact([description] + Detail(phrases, error));
    if |parts| == 0 then UnknownErrorMessage else Join(parts, " ")
  }

  /** `statusCode` wins over `code`; `code` is used only when `statusCode` is falsy. */
  lemma StatusCodePrecedence(phrases: PhraseTable, message: string, code: Option<string>, n: int, description: Option<string>)
    ensures n != 0 ==>
      GetErrorMessage(phrases, RestError(message, code, Some(n)), description)
      == GetErrorMessage(phrases, RestError(message, None, Some(n)), description)
    ensures GetErrorMessage(phrases, RestError(message, code, Some(0)), description)
         == GetErrorMessage(phrases, RestError(message, code, None), description)
  {
  }

  /** The reason phrases of section 15 of RFC 9110, keyed by the three-digit status. */
  const Rfc9110Phrases: PhraseTable := map[
    "100" := "Continue",
    "101" := "Switching Protocols",
    "200" := "OK",
    "201" := "Created",
    "202" := "Accepted",
    "203" := "Non-Authoritative Information",
    "204" := "No Content",
    "205" := "Reset Content",
    "206" := "Partial Content",
    "300" := "Multiple Choices",
    "301" := "Moved Permanently",
    "302" := "Found",
    "303" := "See Other",
    "304" := "Not Modified",
    "305" := "Use Proxy",
    "307" := "Temporary Redirect",
    "308" := "Permanent Redirect",
    "400" := "Bad Request",
    "401" := "Unauthorized",
    "402" := "Payment Required",
    "403" := "Forbidden",
    "404" := "Not Found",
    "405" := "Method Not Allowed",
    "406" := "Not Acceptable",
    "407" := "Proxy Authentication Required",
    "408" := "Request Timeout",
    "409" := "Conflict",
    "410" := "Gone",
    "411" := "Length Required",
    "412" := "Precondition Failed",
    "413" := "Content Too Large",
    "414" := "URI Too Long",
    "415" := "Unsupported Media Type",
    "416" := "Range Not Satisfiable",
    "417" := "Expectation Failed",
    "421" := "Misdirected Request",
    "422" := "Unprocessable Content",
    "426" := "Upgrade Required",
    "500" := "Internal Server Error",
    "501" := "Not Implemented",
    "502" := "Bad Gateway",
    "503" := "Service Unavailable",
    "504" := "Gateway Timeout",
    "505" := "HTTP Version Not Supported"
  ]
}
