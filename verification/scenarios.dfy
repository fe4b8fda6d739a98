/**
 * Runs taken from the repository's test suites, stated against the model. Each lemma fixes
 * the status codes and the shape of one test case, keeps its names and texts as parameters,
 * and proves the outcome the test expects.
 */
module Scenarios {
  import opened Wrappers
  import opened Strings
  import opened JsValues
  import opened Errors
  import UtilErrors
  import opened ConfigStore

  // ---- the status table ----------------------------------------------------------------

  /** The table of section 15 of RFC 9110 holds the two phrases the tests use. */
  lemma TablePhrases()
    ensures Lookup(Rfc9110Phrases, "401") == Some("Unauthorized")
    ensures Lookup(Rfc9110Phrases, "409") == Some("Conflict")
  {
  }

  /** A table that knows the phrases the tests use. */
  predicate KnowsTestPhrases(phrases: PhraseTable) {
    Lookup(phrases, "401") == Some("Unauthorized") && Lookup(phrases, "409") == Some("Conflict")
  }

  // The five lemmas below spell out one rendering each; they only shorten the scenarios that use them.

  lemma Render401()
    ensures IntToString(401) == "401"
  {
  }

  lemma Render409()
    ensures IntToString(409) == "409"
  {
  }

  lemma Render12345()
    ensures IntToString(12345) == "12345"
  {
  }

  lemma Text401()
    ensures StatusLabel + "401" + " " + "Unauthorized" == "Status code: 401 Unauthorized"
  {
  }

  lemma Text409()
    ensures StatusLabel + "409" + " " + "Conflict" == "Status code: 409 Conflict"
  {
  }

  /** A numeric status with a known phrase, as the formatter appends it. */
  lemma NumericSuffix(phrases: PhraseTable, message: string, description: Option<string>, n: int, phrase: string)
    requires n != 0 && Lookup(phrases, IntToString(n)) == Some(phrase) && phrase != ""
    ensures Errors.GetErrorMessage(phrases, RestError(message, None, Some(n)), description)
         == SpaceJoin(TextOr(description), StatusLabel + IntToString(n) + " " + phrase)
  {
  }

  /** The status text 401 renders to. */
  lemma Suffix401(phrases: PhraseTable, message: string, description: Option<string>)
    requires KnowsTestPhrases(phrases)
    ensures Errors.GetErrorMessage(phrases, RestError(message, None, Some(401)), description)
         == SpaceJoin(TextOr(description), "Status code: 401 Unauthorized")
  {
    Render401();
    Text401();
    NumericSuffix(phrases, message, description, 401, "Unauthorized");
  }

  /** The status text 409 renders to. */
  lemma Suffix409(phrases: PhraseTable, message: string, description: Option<string>)
    requires KnowsTestPhrases(phrases)
    ensures Errors.GetErrorMessage(phrases, RestError(message, None, Some(409)), description)
         == SpaceJoin(TextOr(description), "Status code: 409 Conflict")
  {
    Render409();
    Text409();
    NumericSuffix(phrases, message, description, 409, "Conflict");
  }

  // ---- failure messages ----------------------------------------------------------------

  /** A numeric status is followed by its reason phrase. */
  lemma NumericStatusWithPhrase(phrases: PhraseTable, message: string)
    requires KnowsTestPhrases(phrases)
    ensures Errors.GetErrorMessage(phrases, RestError(message, None, Some(401)), None)
         == "Status code: 401 Unauthorized"
  {
    Suffix401(phrases, message, None);
  }

  /** The description leads, then the status and its phrase. */
  lemma DescribedNumericStatus(phrases: PhraseTable, message: string, description: string)
    requires KnowsTestPhrases(phrases) && description != ""
    ensures Errors.GetErrorMessage(phrases, RestError(message, None, Some(401)), Some(description))
         == description + " " + "Status code: 401 Unauthorized"
  {
    Suffix401(phrases, message, Some(description));
  }

  /** The message a request rejected with 409 is logged with. */
  lemma ConflictMessage(phrases: PhraseTable, message: string, description: string)
    requires KnowsTestPhrases(phrases) && description != ""
    ensures Errors.GetErrorMessage(phrases, RestError(message, None, Some(409)), Some(description))
         == description + " " + "Status code: 409 Conflict"
  {
    Suffix409(phrases, message, Some(description));
  }

  /** A status the table does not know stands alone. */
  lemma UnknownNumericStatus(phrases: PhraseTable, message: string)
    requires "12345" !in phrases
    ensures Errors.GetErrorMessage(phrases, RestError(message, None, Some(12345)), None) == "Status code: 12345"
  {
    Render12345();
  }

  /** A textual code stands in for a missing numeric status. */
  lemma TextualStatus(phrases: PhraseTable, message: string, code: string)
    requires code != "" && code !in phrases
    ensures Errors.GetErrorMessage(phrases, RestError(message, Some(code), None), None) == StatusLabel + code
  {
  }

  /** Without a description a custom error shows its message, a plain one the fallback text. */
  lemma MessagesWithoutDescription(phrases: PhraseTable, message: string)
    requires message != ""
    ensures Errors.GetErrorMessage(phrases, ArgumentError(message), None) == message
    ensures Errors.GetErrorMessage(phrases, ParseError(""), None) == UnknownErrorMessage
    ensures Errors.GetErrorMessage(phrases, PlainError(message), None) == UnknownErrorMessage
  {
  }

  /** The older formatter returns "" for a plain error with nothing to say. */
  lemma UtilEmptyMessage(phrases: PhraseTable)
    ensures UtilErrors.GetErrorMessage(phrases, PlainError(""), None) == ""
  {
  }

  /** The older formatter leads with the error's own message. */
  lemma UtilNumericStatus(phrases: PhraseTable, message: string)
    requires KnowsTestPhrases(phrases) && message != ""
    ensures UtilErrors.GetErrorMessage(phrases, RestError(message, None, Some(401)), None)
         == message + " " + "Status code: 401 Unauthorized"
  {
    Render401();
    Text401();
    UtilNumericSuffix(phrases, message, 401, "Unauthorized");
  }

  /** In the older formatter, a numeric status with a known phrase follows the error's message. */
  lemma UtilNumericSuffix(phrases: PhraseTable, message: string, n: int, phrase: string)
    requires message != "" && n != 0 && Lookup(phrases, IntToString(n)) == Some(phrase) && phrase != ""
    ensures UtilErrors.GetErrorMessage(phrases, RestError(message, None, Some(n)), None)
         == message + " " + (StatusLabel + IntToString(n) + " " + phrase)
  {
  }

  // ---- runs ----------------------------------------------------------------------------

  /**
   * `syncConfig` with a connection string and neither tags nor content type. The scenarios
   * pass the tests' arguments to the declared parameters by name, not by position; the README
   * notes how the tests' call differs from the declared signature.
   */
  function Args(config: Config, strict: bool, lbl: Option<string>, prefix: Option<string>): SyncArgs
  {
    SyncArgs(config, strict, "", None, Some("connection string"), lbl, prefix, Undefined, None)
  }

  /** A strict run with a prefix lists `prefix*` with no label, deletes the stale key and writes the new one. */
  lemma StrictRunWithPrefix(phrases: PhraseTable, prefix: string, key: string, value: string, stale: RemoteSetting)
    requires prefix != "" && stale.key != prefix + key
    ensures var env := Collaborators(_ => Ok([stale]), _ => None, phrases, _ => "");
      var r := SyncConfig(Args([(key, Str(value))], true, None, Some(prefix)), env);
      && r.Ok?
      && r.value.listing == Some(ListFilter(Some(prefix + "*"), "\0"))
      && r.value.toDelete == [stale]
      && r.value.toAdd == [Setting(prefix + key, value, None, Undefined, None)]
  {
    var env := Collaborators(_ => Ok([stale]), _ => None, phrases, _ => "");
    var args := Args([(key, Str(value))], true, None, Some(prefix));
    var toAdd := DesiredSettings(args, env);
    assert toAdd == [Setting(prefix + key, value, None, Undefined, None)];
    assert stale.key !in DesiredKeys(toAdd);
    assert SettingsToDelete([stale], DesiredKeys(toAdd)) == [stale];
  }

  /** A strict run of one key against a listing of one stale entry: what it deletes, writes and logs. */
  lemma OneKeyStrictRun(phrases: PhraseTable, key: string, value: string, lbl: Option<string>, stale: RemoteSetting, client: Client)
    requires stale.key != key
    ensures var env := Collaborators(_ => Ok([stale]), client, phrases, _ => "");
      var r := SyncConfig(Args([(key, Str(value))], true, lbl, None), env);
      var added := Setting(key, value, Truthful(lbl), Undefined, None);
      && r.Ok?
      && r.value.toDelete == [stale]
      && r.value.toAdd == [added]
      && r.value.failedDeletes == Failures(client, phrases, [Delete(stale)])
      && r.value.failedAdds == Failures(client, phrases, [Set(added)])
      && r.value.outcome == Classify(1, |r.value.failedDeletes|, 1, |r.value.failedAdds|)
  {
    var env := Collaborators(_ => Ok([stale]), client, phrases, _ => "");
    var args := Args([(key, Str(value))], true, lbl, None);
    var toAdd := DesiredSettings(args, env);
    var added := Setting(key, value, Truthful(lbl), Undefined, None);
    assert toAdd == [added];
    assert stale.key !in DesiredKeys(toAdd);
    assert SettingsToDelete([stale], DesiredKeys(toAdd)) == [stale];
    assert DeleteRequests([stale]) == [Delete(stale)];
    assert AddRequests(toAdd) == [Set(added)];
  }

  /** The client of a store that rejects every call with a conflict. */
  function RejectAll(request: Request): Option<Errors.Error>
  {
    Some(RestError("<message>", None, Some(409)))
  }

  /** When every call fails, each failure is logged in order, deletes first, and the run failed. */
  lemma EveryCallFails(phrases: PhraseTable, key: string, value: string, lbl: string, stale: RemoteSetting)
    requires KnowsTestPhrases(phrases) && lbl != "" && stale.key != key && stale.lbl == Some(lbl)
    ensures var env := Collaborators(_ => Ok([stale]), RejectAll, phrases, _ => "");
      var r := SyncConfig(Args([(key, Str(value))], true, Some(lbl), None), env);
      && r.Ok?
      && r.value.ErrorLog() == [
           "Failed to delete key '" + stale.key + "' with label '" + lbl + "'." + " " + "Status code: 409 Conflict",
           "Failed to add key '" + key + "' with label '" + lbl + "'." + " " + "Status code: 409 Conflict"]
      && r.value.outcome == SyncFailed
      && FailureSummary(r.value.outcome) == Some("Configuration sync failed.")
  {
    var added := Setting(key, value, Some(lbl), Undefined, None);
    var deleteMessage := "Failed to delete key '" + stale.key + "' with label '" + lbl + "'." + " " + "Status code: 409 Conflict";
    var addMessage := "Failed to add key '" + key + "' with label '" + lbl + "'." + " " + "Status code: 409 Conflict";
    assert Failures(RejectAll, phrases, [Delete(stale)]) == [deleteMessage] by {
      RejectAllLogs(phrases, Delete(stale));
      ConflictMessage(phrases, "<message>", Describe(Delete(stale)));
    }
    assert Failures(RejectAll, phrases, [Set(added)]) == [addMessage] by {
      RejectAllLogs(phrases, Set(added));
      ConflictMessage(phrases, "<message>", Describe(Set(added)));
    }
    OneKeyStrictRun(phrases, key, value, Some(lbl), stale, RejectAll);
  }

  /** Against a store that rejects every call, each request logs its own message. */
  lemma RejectAllLogs(phrases: PhraseTable, request: Request)
    ensures Failures(RejectAll, phrases, [request]) == [FailureMessage(phrases, RestError("<message>", None, Some(409)), request)]
  {
    var client: Client := RejectAll;
    assert client(request) == Some(RestError("<message>", None, Some(409)));
    FailuresOfOne(client, phrases, request);
  }

  /** The client of a store that accepts deletes and rejects every write with a conflict. */
  function RejectWrites(request: Request): Option<Errors.Error>
  {
    if request.Set? then Some(RestError("<message>", None, Some(409))) else None
  }

  /** When only the writes fail, only they are logged and the run partially succeeded. */
  lemma OnlyWritesFail(phrases: PhraseTable, key: string, value: string, stale: RemoteSetting)
    requires KnowsTestPhrases(phrases) && stale.key != key
    ensures var env := Collaborators(_ => Ok([stale]), RejectWrites, phrases, _ => "");
      var r := SyncConfig(Args([(key, Str(value))], true, None, None), env);
      && r.Ok?
      && r.value.ErrorLog() == ["Failed to add key '" + key + "' with label '" + "" + "'." + " " + "Status code: 409 Conflict"]
      && r.value.outcome == PartiallySynced
      && FailureSummary(r.value.outcome) == Some("Configuration sync partially succeeded.")
  {
    var added := Setting(key, value, None, Undefined, None);
    var message := "Failed to add key '" + key + "' with label '" + "" + "'." + " " + "Status code: 409 Conflict";
    RejectWritesLogs(phrases, stale, added);
    ConflictMessage(phrases, "<message>", Describe(Set(added)));
    assert Failures(RejectWrites, phrases, [Set(added)]) == [message];
    OneKeyStrictRun(phrases, key, value, None, stale, RejectWrites);
  }

  /** Against a store that rejects only writes, a delete logs nothing and a write logs its conflict. */
  lemma RejectWritesLogs(phrases: PhraseTable, stale: RemoteSetting, added: Setting)
    ensures Failures(RejectWrites, phrases, [Delete(stale)]) == []
    ensures Failures(RejectWrites, phrases, [Set(added)])
         == [FailureMessage(phrases, RestError("<message>", None, Some(409)), Set(added))]
  {
    var client: Client := RejectWrites;
    assert client(Delete(stale)) == None;
    assert client(Set(added)) == Some(RestError("<message>", None, Some(409)));
    FailuresOfOne(client, phrases, Delete(stale));
    FailuresOfOne(client, phrases, Set(added));
  }

  /** A strict run whose listing throws fails with that error, before any request is sent. */
  lemma ListingErrorAborts(phrases: PhraseTable, config: Config, error: Errors.Error, client: Client)
    ensures var env := Collaborators(_ => Err(error), client, phrases, _ => "");
      && SyncConfig(Args(config, true, None, None), env) == Err(error)
      && SyncConfig(Args(config, false, None, None), env).Ok?
  {
  }

  /** Without strict mode nothing is listed or deleted, whatever the store holds. */
  lemma NonStrictRunListsNothing(phrases: PhraseTable, config: Config, listed: seq<RemoteSetting>)
    ensures var env := Collaborators(_ => Ok(listed), _ => None, phrases, _ => "");
      var r := SyncConfig(Args(config, false, None, None), env);
      && r.Ok? && r.value.listing.None? && r.value.toDelete == [] && r.value.outcome == Synced
  {
    var env := Collaborators(_ => Ok(listed), _ => None, phrases, _ => "");
    var run := SyncConfig(Args(config, false, None, None), env).value;
    FailuresCount(env.client, AddRequests(run.toAdd));
  }
}
