/**
 * The input validators of src/input.ts, as pure checks over the raw text each input
 * arrives as. A validator gives the accepted value or the message of the error it throws.
 */
module Input {
  import opened Wrappers
  import opened Strings
  import opened JsValues
  import Errors

  // ---- format --------------------------------------------------------------------------

  /** The supported configuration file formats. */
  datatype ConfigFormat = Json | Yaml | Properties

  function FormatName(format: ConfigFormat): string
  {
    match format
    case Json => "json"
    case Yaml => "yaml"
    case Properties => "properties"
  }

  /** `getFormat`: one of three names, anything else is an error. */
  function GetFormat(raw: string): (r: Result<ConfigFormat, string>)
    ensures r.Ok? <==> raw == "json" || raw == "yaml" || raw == "properties"
    ensures r.Ok? ==> FormatName(r.value) == raw
    ensures r.Err? ==> r.error == "Format '" + raw + "' is invalid. Allowed values are: json, yaml, properties"
  {
    if raw == "json" then Ok(Json)
    else if raw == "yaml" then Ok(Yaml)
    else if raw == "properties" then Ok(Properties)
    else Err("Format '" + raw + "' is invalid. Allowed values are: json, yaml, properties")
  }

  /** Every format is accepted under its own name. */
  lemma FormatRoundTrip(format: ConfigFormat)
    ensures GetFormat(FormatName(format)) == Ok(format)
  {
  }

  // ---- connection string ---------------------------------------------------------------

  const EndpointKey := "Endpoint="
  const IdKey := "Id="
  const SecretKey := "Secret="
  const InvalidConnectionString := "Connection string is invalid."

  /** The three flags the segment loop sets. */
  datatype SegmentFlags = SegmentFlags(endpoint: bool, id: bool, secret: bool)

  /** The loop over the segments, with its `if` / `else if` chain on the segment's start. */
  function ScanSegments(segments: seq<string>, flags: SegmentFlags): SegmentFlags
    decreases |segments|
  {
    if |segments| == 0 then flags
    else
      var segment := segments[0];
      var next :=
        if StartsWith(segment, EndpointKey) then flags.(endpoint := true)
        else if StartsWith(segment, IdKey) then flags.(id := true)
        else if StartsWith(segment, SecretKey) then flags.(secret := true)
        else flags;
      ScanSegments(segments[1..], next)
  }

  /** Some segment starts with `key`. */
  predicate HasSegment(segments: seq<string>, key: string) {
    exists i :: 0 <= i < |segments| && StartsWith(segments[i], key)
  }

  /** No segment starts with two of the three keys, so the `else if` chain loses nothing. */
  lemma KeysExclusive(segment: string)
    ensures !(StartsWith(segment, EndpointKey) && StartsWith(segment, IdKey))
    ensures !(StartsWith(segment, EndpointKey) && StartsWith(segment, SecretKey))
    ensures !(StartsWith(segment, IdKey) && StartsWith(segment, SecretKey))
  {
    if StartsWith(segment, EndpointKey) { assert segment[0] == 'E'; }
    if StartsWith(segment, IdKey) { assert segment[0] == 'I'; }
  }

  /** The loop sets each flag exactly when some segment starts with its key. */
  lemma {:induction false} ScanFindsSegments(segments: seq<string>, flags: SegmentFlags)
    ensures ScanSegments(segments, flags) == SegmentFlags(
      flags.endpoint || HasSegment(segments, EndpointKey),
      flags.id || HasSegment(segments, IdKey),
      flags.secret || HasSegment(segments, SecretKey))
    decreases |segments|
  {
    if |segments| > 0 {
      var segment := segments[0];
      KeysExclusive(segment);
      var next :=
        if StartsWith(segment, EndpointKey) then flags.(endpoint := true)
        else if StartsWith(segment, IdKey) then flags.(id := true)
        else if StartsWith(segment, SecretKey) then flags.(secret := true)
        else flags;
      ScanFindsSegments(segments[1..], next);
      forall key | key in {EndpointKey, IdKey, SecretKey}
        ensures HasSegment(segments, key) <==> StartsWith(segment, key) || HasSegment(segments[1..], key)
      {
        if HasSegment(segments, key) && !StartsWith(segment, key) {
          var i :| 0 <= i < |segments| && StartsWith(segments[i], key);
          assert segments[1..][i - 1] == segments[i];
        }
        if HasSegment(segments[1..], key) {
          var i :| 0 <= i < |segments[1..]| && StartsWith(segments[1..][i], key);
          assert segments[i + 1] == segments[1..][i];
        }
      }
    }
  }

  /** A connection string the source accepts: three segments holding the three keys. */
  predicate ValidConnectionString(raw: string) {
    var segments := Split(raw, ';');
    && |segments| == 3
    && HasSegment(segments, EndpointKey)
    && HasSegment(segments, IdKey)
    && HasSegment(segments, SecretKey)
  }

  /** `getConnectionString`: the raw text unchanged when valid, an error otherwise. */
  function GetConnectionString(raw: string): (r: Result<string, string>)
    ensures r.Ok? <==> ValidConnectionString(raw)
    ensures r.Ok? ==> r.value == raw
    ensures r.Err? ==> r.error == InvalidConnectionString
  {
    var segments := Split(raw, ';');
    ScanFindsSegments(segments, SegmentFlags(false, false, false));
    var valid :=
      |segments| == 3 &&
      var flags := ScanSegments(segments, SegmentFlags(false, false, false));
      flags.endpoint && flags.id && flags.secret;
    if valid then Ok(raw) else Err(InvalidConnectionString)
  }

  /** In an accepted connection string every segment is one of the three known ones. */
  lemma AcceptedSegmentsAreKnown(raw: string)
    requires GetConnectionString(raw).Ok?
    ensures forall i :: 0 <= i < |Split(raw, ';')| ==>
      var segment := Split(raw, ';')[i];
      StartsWith(segment, EndpointKey) || StartsWith(segment, IdKey) || StartsWith(segment, SecretKey)
  {
    var segments := Split(raw, ';');
    var e :| 0 <= e < 3 && StartsWith(segments[e], EndpointKey);
    var d :| 0 <= d < 3 && StartsWith(segments[d], IdKey);
    var s :| 0 <= s < 3 && StartsWith(segments[s], SecretKey);
    KeysExclusive(segments[e]);
    KeysExclusive(segments[d]);
    KeysExclusive(segments[s]);
    assert e != d && e != s && d != s;
    forall i | 0 <= i < 3
      ensures StartsWith(segments[i], EndpointKey) || StartsWith(segments[i], IdKey) || StartsWith(segments[i], SecretKey)
    {
      assert i == e || i == d || i == s;
    }
  }

  /** The order of the segments does not matter. */
  lemma SegmentOrderIrrelevant(a: string, b: string)
    requires multiset(Split(a, ';')) == multiset(Split(b, ';'))
    ensures GetConnectionString(a).Ok? <==> GetConnectionString(b).Ok?
  {
    var sa, sb := Split(a, ';'), Split(b, ';');
    assert |sa| == |multiset(sa)| == |multiset(sb)| == |sb|;
    forall key | key in {EndpointKey, IdKey, SecretKey}
      ensures HasSegment(sa, key) <==> HasSegment(sb, key)
    {
      if HasSegment(sa, key) {
        var i :| 0 <= i < |sa| && StartsWith(sa[i], key);
        assert sa[i] in multiset(sb);
        var j :| 0 <= j < |sb| && sb[j] == sa[i];
      }
      if HasSegment(sb, key) {
        var j :| 0 <= j < |sb| && StartsWith(sb[j], key);
        assert sb[j] in multiset(sa);
        var i :| 0 <= i < |sa| && sa[i] == sb[j];
      }
    }
  }

  // ---- separator -----------------------------------------------------------------------

  const ValidSeparators: seq<string> := [".", ",", ";", "-", "_", "__", "/", ":"]

  /** The allowed separators, each in single quotes, separated by ", ". */
  function QuotedList(items: seq<string>): string
  {
    Join(seq(|items|, i requires 0 <= i < |items| => "'" + items[i] + "'"), ", ")
  }

  /** `getSeparator`: one of the whitelisted separators, anything else is an error. */
  function GetSeparator(raw: string): (r: Result<string, string>)
    ensures r.Ok? <==> raw in ValidSeparators
    ensures r.Ok? ==> r.value == raw
    ensures r.Err? ==> StartsWith(r.error, "Separator '" + raw + "' is invalid.")
  {
    if raw in ValidSeparators then Ok(raw)
    else
      var head := "Separator '" + raw + "' is invalid.";
      assert StartsWith(head + " Allowed values are: " + QuotedList(ValidSeparators), head);
      Err(head + " Allowed values are: " + QuotedList(ValidSeparators))
  }

  // ---- strict --------------------------------------------------------------------------

  /** `getStrict`: exactly "true" or "false". */
  function GetStrict(raw: string): (r: Result<bool, string>)
    ensures r == Ok(true) <==> raw == "true"
    ensures r == Ok(false) <==> raw == "false"
    ensures r.Err? ==> r.error == "Strict '" + raw + "' is invalid. Allowed values are: true, false"
  {
    if raw == "true" then Ok(true)
    else if raw == "false" then Ok(false)
    else Err("Strict '" + raw + "' is invalid. Allowed values are: true, false")
  }

  /** `getStrict` reads back `String(b)`, and nothing else. */
  lemma StrictRoundTrip(b: bool, raw: string)
    ensures GetStrict(BoolText(b)) == Ok(b)
    ensures GetStrict(raw) == Ok(b) ==> raw == BoolText(b)
  {
  }

  // ---- depth ---------------------------------------------------------------------------

  function DepthError(raw: string): string {
    "Depth '" + raw + "' is invalid. Depth should be a positive number."
  }

  /** `getDepth`: absent or empty gives no depth; otherwise `parseInt` must give at least 1. */
  function GetDepth(raw: Option<string>): (r: Result<Option<int>, string>)
    ensures r == Ok(None) <==> !NonEmpty(raw)
    ensures r.Ok? && r.value.Some? ==> r.value.value >= 1 && ParseInt(raw.value) == r.value
    ensures NonEmpty(raw) ==>
      (r.Ok? <==> ParseInt(raw.value).Some? && ParseInt(raw.value).value >= 1)
    ensures r.Err? ==> r.error == DepthError(raw.value)
  {
    if !NonEmpty(raw) then Ok(None)
    else
      var parsed := ParseInt(raw.value);
      if parsed.None? || parsed.value < 1 then Err(DepthError(raw.value))
      else Ok(parsed)
  }

  /** The text of a number is accepted as that depth exactly when the number is positive. */
  lemma DepthOfNumber(i: int)
    ensures GetDepth(Some(IntToString(i))) == if i >= 1 then Ok(Some(i)) else Err(DepthError(IntToString(i)))
  {
    ParseIntOfIntToString(i);
  }

  /** Text without a single digit is rejected. */
  lemma DepthRejectsNonNumeric(raw: string)
    requires raw != ""
    requires forall i :: 0 <= i < |raw| ==> !IsDigit(raw[i])
    ensures GetDepth(Some(raw)).Err?
  {
    ParseIntNeedsDigit(raw);
  }

  // ---- tags ----------------------------------------------------------------------------

  /** The message of the TypeError `Object.keys` throws for `null`. */
  const NullObjectError := "Cannot convert undefined or null to object"

  /** The opening of the error a tag value that is not a string causes; the raw input follows. */
  const InvalidTagsMessage := "Tags are invalid. Tags should only contain string properties: "

  /** `Object.keys(v)` with the matching values; None where it throws. */
  function OwnEntries(v: Value): Option<seq<(string, Value)>>
  {
    match v
    case Undefined => None
    case Null => None
    case Object(fields) => Some(fields)
    case Array(items) => Some(seq(|items|, i requires 0 <= i < |items| => (NatToString(i), items[i])))
    case Str(s) => Some(seq(|s|, i requires 0 <= i < |s| => (NatToString(i), Str([s[i]]))))
    case Bool(_) => Some([])
    case Number(_) => Some([])
  }

  /** The keys whose value is not a string, in order: each is logged, and any one fails. */
  function NonStringKeys(entries: seq<(string, Value)>): (r: seq<string>)
    ensures r == [] <==> forall i :: 0 <= i < |entries| ==> entries[i].1.Str?
    decreases |entries|
  {
    if |entries| == 0 then []
    else (if entries[0].1.Str? then [] else [entries[0].0]) + NonStringKeys(entries[1..])
  }

  /**
   * `getTags`: absent or empty gives no tags; otherwise the parsed value, unchanged, when
   * every property value is a string. `parse` stands for `JSON.parse`, giving the value or
   * the message of the syntax error.
   */
  function GetTags(raw: Option<string>, parse: string -> Result<Value, string>): (r: Result<Option<Value>, string>)
    ensures !NonEmpty(raw) ==> r == Ok(None)
    ensures NonEmpty(raw) && parse(raw.value).Err? ==> r == Err(parse(raw.value).error)
    ensures r.Ok? && r.value.Some? ==> NonEmpty(raw) && parse(raw.value) == Ok(r.value.value)
    // whatever is accepted from a non-empty input is the parsed value itself, never "no tags"
    ensures NonEmpty(raw) && r.Ok? ==> parse(raw.value).Ok? && r == Ok(Some(parse(raw.value).value))
    ensures NonEmpty(raw) && parse(raw.value).Ok? ==>
      var parsed := parse(raw.value).value;
      // `Object.keys` throws for null
      && (parsed.Null? || parsed.Undefined? ==> r == Err(NullObjectError))
      // an object or array passes exactly when every property value is a string
      && (parsed.Object? ==> (r.Ok? <==> forall i :: 0 <= i < |parsed.fields| ==> parsed.fields[i].1.Str?))
      && (parsed.Array? ==> (r.Ok? <==> forall i :: 0 <= i < |parsed.items| ==> parsed.items[i].Str?))
      // a string's properties are its characters, and a boolean or number has none
      && (parsed.Str? || parsed.Bool? || parsed.Number? ==> r == Ok(Some(parsed)))
      && (r.Err? && !(parsed.Null? || parsed.Undefined?) ==> r.error == InvalidTagsMessage + raw.value)
  {
    if !NonEmpty(raw) then Ok(None)
    else
      match parse(raw.value)
      case Err(syntax) => Err(syntax)
      case Ok(parsed) =>
        match OwnEntries(parsed)
        case None => Err(NullObjectError)
        case Some(entries) =>
          assert parsed.Array? ==> forall i :: 0 <= i < |entries| ==> entries[i].1 == parsed.items[i];
          if NonStringKeys(entries) != [] then
            Err(InvalidTagsMessage + raw.value)
          else Ok(Some(parsed))
  }

  // ---- the error class a failed validation raises ----------------------------------------

  /** As written, every validator throws a plain `Error`. */
  function RaisedAsWritten<T>(r: Result<T, string>): (e: Result<T, Errors.Error>)
    // a validation that does not throw hands its value on unchanged
    ensures e.Ok? <==> r.Ok?
    ensures e.Ok? ==> r == Ok(e.value)
    ensures e.Err? ==> r.Err? && e.error == Errors.PlainError(r.error)
  {
    match r
    case Ok(v) => Ok(v)
    case Err(message) => Err(Errors.PlainError(message))
  }

  /** With the class the action's callers expect, an `ArgumentError`. */
  function Raised<T>(r: Result<T, string>): (e: Result<T, Errors.Error>)
    // a validation that does not throw hands its value on unchanged
    ensures e.Ok? <==> r.Ok?
    ensures e.Ok? ==> r == Ok(e.value)
    ensures r.Err? ==> e.Err? && e.error.ArgumentError?
    ensures r.Err? && r.error != "" ==>
      e.Err? && Errors.GetErrorMessage(Errors.Rfc9110Phrases, e.error, None) == r.error
  {
    match r
    case Ok(v) => Ok(v)
    case Err(message) => Err(Errors.ArgumentError(message))
  }

  /**
   * As written, the top-level report of any failed validation is the fixed unknown-error
   * text: the validator's own message never reaches the log.
   */
  lemma ValidationMessageLostAsWritten<T>(phrases: Errors.PhraseTable, r: Result<T, string>)
    requires r.Err?
    ensures RaisedAsWritten(r).Err?
    ensures Errors.GetErrorMessage(phrases, RaisedAsWritten(r).error, None) == Errors.UnknownErrorMessage
  {
  }

  /** Raised as an `ArgumentError`, the validator's message is what gets reported. */
  lemma ValidationMessageReported<T>(phrases: Errors.PhraseTable, r: Result<T, string>)
    requires r.Err? && r.error != ""
    ensures Raised(r).Err?
    ensures Errors.GetErrorMessage(phrases, Raised(r).error, None) == r.error
  {
  }

  /** A mistyped `strict` input, for one: its message is lost as written, kept when corrected. */
  lemma StrictTypoReport()
    ensures GetStrict("True").Err?
    ensures Errors.GetErrorMessage(Errors.Rfc9110Phrases, RaisedAsWritten(GetStrict("True")).error, None)
         == Errors.UnknownErrorMessage
    ensures Errors.GetErrorMessage(Errors.Rfc9110Phrases, Raised(GetStrict("True")).error, None)
         == GetStrict("True").error
  {
    assert "True" != "true" && "True" != "false";
  }
}
