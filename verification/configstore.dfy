/**
 * The reconciliation engine of src/configstore.ts. From a flat configuration it builds the
 * entries the run wants. In strict mode it lists the store's entries in scope and picks
 * those to delete. It then issues every delete and every write, collecting each failure as
 * a message instead of stopping, and classifies the run.
 *
 * The store is a pair of oracles: `list` answers a listing filter with the (already
 * drained) entries, and `client` answers each write or delete request with success (None)
 * or the error it threw.
 */
module ConfigStore {
  import opened Wrappers
  import opened Strings
  import opened JsValues
  import Errors
  import Input

  /** `SetConfigurationSettingParam`: an entry the run wants in the store. */
  datatype Setting = Setting(
    key: string,
    value: string,
    lbl: Option<string>,
    tags: Value,
    contentType: Option<string>)

  /** A `ConfigurationSetting` the listing returned; a delete sends it back unchanged. */
  datatype RemoteSetting = RemoteSetting(key: string, lbl: Option<string>, value: Option<string>, isReadOnly: bool)

  /** The flattened configuration object: its properties in enumeration order. */
  type Config = seq<(string, Value)>

  /** An object's property names are distinct. */
  predicate DistinctKeys(config: Config) {
    forall i, j :: 0 <= i < j < |config| ==> config[i].0 != config[j].0
  }

  // ---- desired entries -----------------------------------------------------------------

  /** `getSettingValue`; `stringify` stands for `JSON.stringify`. */
  function SettingValue(value: Value, stringify: Value -> string): string
  {
    match value
    case Undefined => ""
    case Null => ""
    case Array(_) => stringify(value)
    case Object(_) => stringify(value)
    case Bool(b) => BoolText(b)
    case Number(n) => IntToString(n)
    case Str(s) => s
  }

  /** The text of a boolean value reads back through the `strict` validator. */
  lemma BoolValueReadsBack(b: bool, stringify: Value -> string)
    ensures Input.GetStrict(SettingValue(Bool(b), stringify)) == Ok(b)
  {
  }

  /** The text of a number reads back through `parseInt`. */
  lemma NumberValueReadsBack(n: int, stringify: Value -> string)
    ensures ParseInt(SettingValue(Number(n), stringify)) == Some(n)
  {
    assert SettingValue(Number(n), stringify) == IntToString(n);
    ParseIntOfIntToString(n);
  }

  /** A string is stored as is, objects and arrays as their JSON text; only null and undefined become "". */
  lemma SettingValueKinds(v: Value, stringify: Value -> string)
    ensures v.Str? ==> SettingValue(v, stringify) == v.s
    ensures v.Array? || v.Object? ==> SettingValue(v, stringify) == stringify(v)
    ensures v.Null? || v.Undefined? ==> SettingValue(v, stringify) == ""
    ensures v.Bool? || v.Number? ==> SettingValue(v, stringify) != ""
  {
  }

  /** `label ? label : undefined`, and the same for the content type. */
  function Truthful(o: Option<string>): (r: Option<string>)
  {
    if NonEmpty(o) then o else None
  }

  /** `getSettingsToAdd`: one entry per configuration property, in property order. */
  function SettingsToAdd(config: Config, lbl: Option<string>, prefix: Option<string>, tags: Value,
                         contentType: Option<string>, stringify: Value -> string): (r: seq<Setting>)
    ensures |r| == |config|
    // the key is the property name behind the prefix, when a prefix is given
    ensures forall i :: 0 <= i < |r| ==>
      StartsWith(r[i].key, TextOr(prefix)) && r[i].key[|TextOr(prefix)|..] == config[i].0
    ensures forall i :: 0 <= i < |r| ==> r[i].value == SettingValue(config[i].1, stringify)
    // one label, tag set and content type for the whole run; empty ones are dropped
    ensures forall i :: 0 <= i < |r| ==>
      && r[i].lbl == Truthful(lbl)
      && r[i].tags == (if Truthy(tags) then tags else Undefined)
      && r[i].contentType == Truthful(contentType)
    ensures forall i :: 0 <= i < |r| ==> r[i].lbl.None? || r[i].lbl.value != ""
  {
    seq(|config|, i requires 0 <= i < |config| =>
      Setting(
        if NonEmpty(prefix) then prefix.value + config[i].0 else config[i].0,
        SettingValue(config[i].1, stringify),
        if NonEmpty(lbl) then lbl else None,
        if Truthy(tags) then tags else Undefined,
        if NonEmpty(contentType) then contentType else None))
  }

  /** Distinct property names give distinct store keys: exactly one entry per property. */
  lemma DesiredKeysDistinct(config: Config, lbl: Option<string>, prefix: Option<string>, tags: Value,
                            contentType: Option<string>, stringify: Value -> string)
    requires DistinctKeys(config)
    ensures var desired := SettingsToAdd(config, lbl, prefix, tags, contentType, stringify);
      forall i, j :: 0 <= i < j < |desired| ==> desired[i].key != desired[j].key
  {
    var desired := SettingsToAdd(config, lbl, prefix, tags, contentType, stringify);
    forall i, j | 0 <= i < j < |desired|
      ensures desired[i].key != desired[j].key
    {
      assert desired[i].key[|TextOr(prefix)|..] == config[i].0;
      assert desired[j].key[|TextOr(prefix)|..] == config[j].0;
    }
  }

  // ---- the listing filter --------------------------------------------------------------

  /** The label filter that selects entries without a label. */
  const NoLabelFilter := "\0"

  datatype ListFilter = ListFilter(keyFilter: Option<string>, labelFilter: string)

  /** The filter of `getSettingsToDelete`. */
  function BuildFilter(lbl: Option<string>, prefix: Option<string>): (f: ListFilter)
  {
    ListFilter(
      if NonEmpty(prefix) then Some(prefix.value + "*") else None,
      if NonEmpty(lbl) then lbl.value else NoLabelFilter)
  }

  /**
   * How the store reads a key filter: one ending in `*` selects the keys that start with
   * what precedes it, any other selects exactly that key.
   */
  predicate KeyMatches(keyFilter: Option<string>, key: string) {
    || keyFilter.None?
    || var f := keyFilter.value;
       if |f| > 0 && f[|f| - 1] == '*' then StartsWith(key, f[..|f| - 1]) else key == f
  }

  /** How the store reads a label filter: `\0` selects entries without a label. */
  predicate LabelMatches(labelFilter: string, lbl: Option<string>) {
    if labelFilter == NoLabelFilter then lbl.None? else lbl == Some(labelFilter)
  }

  predicate InScope(filter: ListFilter, key: string, lbl: Option<string>) {
    KeyMatches(filter.keyFilter, key) && LabelMatches(filter.labelFilter, lbl)
  }

  /**
   * The filter selects the run's scope: keys behind the prefix, and the run's label (no
   * label when none is given). A run label of "\0" is the no-label marker itself, so its
   * filter selects the entries without a label rather than those the run labels "\0".
   */
  lemma FilterSelectsScope(lbl: Option<string>, prefix: Option<string>, key: string, entryLabel: Option<string>)
    ensures lbl != Some(NoLabelFilter) ==>
      (InScope(BuildFilter(lbl, prefix), key, entryLabel) <==> StartsWith(key, TextOr(prefix)) && entryLabel == Truthful(lbl))
    ensures lbl == Some(NoLabelFilter) ==>
      (InScope(BuildFilter(lbl, prefix), key, entryLabel) <==> StartsWith(key, TextOr(prefix)) && entryLabel.None?)
  {
    if NonEmpty(prefix) {
      var f := prefix.value + "*";
      assert f[..|f| - 1] == prefix.value;
    }
  }

  /**
   * The desired entries lie inside the scope the filter lists, except under the run label
   * "\0": those entries carry the label "\0" while the filter selects unlabelled ones.
   */
  lemma DesiredInScope(config: Config, lbl: Option<string>, prefix: Option<string>, tags: Value,
                       contentType: Option<string>, stringify: Value -> string)
    ensures var desired := SettingsToAdd(config, lbl, prefix, tags, contentType, stringify);
      forall i :: 0 <= i < |desired| ==>
        (InScope(BuildFilter(lbl, prefix), desired[i].key, desired[i].lbl) <==> lbl != Some(NoLabelFilter))
  {
    var desired := SettingsToAdd(config, lbl, prefix, tags, contentType, stringify);
    forall i | 0 <= i < |desired|
      ensures InScope(BuildFilter(lbl, prefix), desired[i].key, desired[i].lbl) <==> lbl != Some(NoLabelFilter)
    {
      FilterSelectsScope(lbl, prefix, desired[i].key, desired[i].lbl);
    }
  }

  // ---- the deletion set ----------------------------------------------------------------

  function DesiredKeys(settings: seq<Setting>): set<string>
  {
    set i | 0 <= i < |settings| :: settings[i].key
  }

  /** The listed entries whose key is not wanted, in listing order, unchanged. */
  function SettingsToDelete(listed: seq<RemoteSetting>, keep: set<string>): (r: seq<RemoteSetting>)
    ensures |r| <= |listed|
    decreases |listed|
  {
    if |listed| == 0 then []
    else (if listed[0].key in keep then [] else [listed[0]]) + SettingsToDelete(listed[1..], keep)
  }

  /** An entry is deleted exactly when it was listed and its key is not wanted. */
  lemma {:induction false} DeletionMembership(listed: seq<RemoteSetting>, keep: set<string>)
    ensures forall e :: e in SettingsToDelete(listed, keep) <==> e in listed && e.key !in keep
    decreases |listed|
  {
    if |listed| > 0 {
      DeletionMembership(listed[1..], keep);
      assert listed == [listed[0]] + listed[1..];
    }
  }

  /** Selection commutes with concatenation: the deletion set keeps the listing's order. */
  lemma {:induction false} DeletionsAppend(a: seq<RemoteSetting>, b: seq<RemoteSetting>, keep: set<string>)
    ensures SettingsToDelete(a + b, keep) == SettingsToDelete(a, keep) + SettingsToDelete(b, keep)
    decreases |a|
  {
    if |a| == 0 {
      assert a + b == b;
    } else {
      DeletionsAppend(a[1..], b, keep);
      assert (a + b)[1..] == a[1..] + b;
      assert (a + b)[0] == a[0];
      var head := if a[0].key in keep then [] else [a[0]];
      var restA, restB := SettingsToDelete(a[1..], keep), SettingsToDelete(b, keep);
      assert SettingsToDelete(a, keep) == head + restA;
      assert SettingsToDelete(a + b, keep) == head + (restA + restB);
      assert head + (restA + restB) == (head + restA) + restB;
    }
  }

  /** Nothing is deleted when every listed key is wanted. */
  lemma {:induction false} DeletionsNone(listed: seq<RemoteSetting>, keep: set<string>)
    requires forall i :: 0 <= i < |listed| ==> listed[i].key in keep
    ensures SettingsToDelete(listed, keep) == []
    decreases |listed|
  {
    if |listed| > 0 {
      DeletionsNone(listed[1..], keep);
    }
  }

  /** If the listing honours the filter, so does the deletion set. */
  lemma DeletionsInScope(filter: ListFilter, listed: seq<RemoteSetting>, keep: set<string>)
    requires forall i :: 0 <= i < |listed| ==> InScope(filter, listed[i].key, listed[i].lbl)
    ensures var doomed := SettingsToDelete(listed, keep);
      forall i :: 0 <= i < |doomed| ==> InScope(filter, doomed[i].key, doomed[i].lbl)
  {
    var doomed := SettingsToDelete(listed, keep);
    DeletionMembership(listed, keep);
    forall i | 0 <= i < |doomed|
      ensures InScope(filter, doomed[i].key, doomed[i].lbl)
    {
      assert doomed[i] in listed;
    }
  }

  // ---- applying the operations ---------------------------------------------------------

  /** One call to the store: delete a listed entry, or write a desired one. */
  datatype Request = Delete(target: RemoteSetting) | Set(setting: Setting)

  /** The store's answer to a request: success, or the error the call threw. */
  type Client = Request -> Option<Errors.Error>

  function DeleteRequests(settings: seq<RemoteSetting>): (r: seq<Request>)
    ensures |r| == |settings| && forall i :: 0 <= i < |r| ==> r[i] == Delete(settings[i])
  {
    seq(|settings|, i requires 0 <= i < |settings| => Delete(settings[i]))
  }

  function AddRequests(settings: seq<Setting>): (r: seq<Request>)
    ensures |r| == |settings| && forall i :: 0 <= i < |r| ==> r[i] == Set(settings[i])
  {
    seq(|settings|, i requires 0 <= i < |settings| => Set(settings[i]))
  }

  /** The description a failed request is reported with; `getLabel` turns no label into "". */
  function Describe(request: Request): string
  {
    match request
    case Delete(t) => "Failed to delete key '" + t.key + "' with label '" + TextOr(t.lbl) + "'."
    case Set(s) => "Failed to add key '" + s.key + "' with label '" + TextOr(s.lbl) + "'."
  }

  /** The message logged for one failed request. */
  function FailureMessage(phrases: Errors.PhraseTable, error: Errors.Error, request: Request): string
  {
    Errors.GetErrorMessage(phrases, error, Some(Describe(request)))
  }

  /** The requests the store rejected, in issue order, each with the error it threw. */
  function FailedRequests(client: Client, requests: seq<Request>): (failed: seq<(Request, Errors.Error)>)
    ensures |failed| <= |requests|
    decreases |requests|
  {
    if |requests| == 0 then []
    else
      var first := match client(requests[0])
        case None => []
        case Some(error) => [(requests[0], error)];
      first + FailedRequests(client, requests[1..])
  }

  /**
   * `addSettings` / `deleteSettings`: every request is issued in order; each failure is
   * caught and becomes one message, and the loop goes on.
   */
  function Failures(client: Client, phrases: Errors.PhraseTable, requests: seq<Request>): (messages: seq<string>)
    // one message per rejected request, in issue order, naming the request's key and label
    ensures |messages| == |FailedRequests(client, requests)|
    ensures forall k :: 0 <= k < |messages| ==> StartsWith(messages[k], Describe(FailedRequests(client, requests)[k].0))
    ensures messages == [] <==> forall i :: 0 <= i < |requests| ==> client(requests[i]).None?
  {
    var failed := FailedRequests(client, requests);
    FailuresCount(client, requests);
    FailuresStartWithDescription(phrases, failed);
    seq(|failed|, k requires 0 <= k < |failed| => FailureMessage(phrases, failed[k].1, failed[k].0))
  }

  /** One request logs its message when it fails and nothing when it succeeds. */
  lemma FailuresOfOne(client: Client, phrases: Errors.PhraseTable, request: Request)
    ensures Failures(client, phrases, [request])
         == (if client(request).None? then [] else [FailureMessage(phrases, client(request).value, request)])
  {
    assert [request][1..] == [];
  }

  /** Every reported failure is a request of the run, with the error the store answered it with. */
  lemma {:induction false} FailedRequestsSound(client: Client, requests: seq<Request>)
    ensures forall k :: 0 <= k < |FailedRequests(client, requests)| ==>
      && FailedRequests(client, requests)[k].0 in requests
      && client(FailedRequests(client, requests)[k].0) == Some(FailedRequests(client, requests)[k].1)
    decreases |requests|
  {
    if |requests| > 0 {
      FailedRequestsSound(client, requests[1..]);
      var failed := FailedRequests(client, requests);
      var rest := FailedRequests(client, requests[1..]);
      var skipped := if client(requests[0]).None? then 0 else 1;
      assert |failed| == skipped + |rest|;
      forall k | 0 <= k < |failed|
        ensures failed[k].0 in requests && client(failed[k].0) == Some(failed[k].1)
      {
        if k >= skipped {
          assert failed[k] == rest[k - skipped];
          assert rest[k - skipped].0 in requests[1..];
        }
      }
    }
  }

  /** No failure means every request succeeded; one failure per request means every request failed. */
  lemma {:induction false} FailuresCount(client: Client, requests: seq<Request>)
    ensures FailedRequests(client, requests) == [] <==> forall i :: 0 <= i < |requests| ==> client(requests[i]).None?
    ensures |FailedRequests(client, requests)| == |requests| <==> forall i :: 0 <= i < |requests| ==> client(requests[i]).Some?
    decreases |requests|
  {
    if |requests| > 0 {
      FailuresCount(client, requests[1..]);
      assert forall i :: 1 <= i < |requests| ==> requests[i] == requests[1..][i - 1];
    }
  }

  /**
   * The failures of a run of requests are those of its first part followed by those of the
   * rest: what happens to later requests does not depend on earlier failures.
   */
  lemma {:induction false} FailedRequestsAppend(client: Client, a: seq<Request>, b: seq<Request>)
    ensures FailedRequests(client, a + b) == FailedRequests(client, a) + FailedRequests(client, b)
    decreases |a|
  {
    if |a| == 0 {
      assert a + b == b;
    } else {
      FailedRequestsAppend(client, a[1..], b);
      assert (a + b)[1..] == a[1..] + b;
      assert (a + b)[0] == a[0];
      var first := match client(a[0]) case None => [] case Some(error) => [(a[0], error)];
      var restA, restB := FailedRequests(client, a[1..]), FailedRequests(client, b);
      assert FailedRequests(client, a) == first + restA;
      assert FailedRequests(client, a + b) == first + (restA + restB);
      assert first + (restA + restB) == (first + restA) + restB;
    }
  }

  /** The messages of a run of requests are those of its first part followed by those of the rest. */
  lemma FailuresAppend(client: Client, phrases: Errors.PhraseTable, a: seq<Request>, b: seq<Request>)
    ensures Failures(client, phrases, a + b) == Failures(client, phrases, a) + Failures(client, phrases, b)
  {
    FailedRequestsAppend(client, a, b);
    var fa, fb := FailedRequests(client, a), FailedRequests(client, b);
    var ma, mb := Failures(client, phrases, a), Failures(client, phrases, b);
    var m := Failures(client, phrases, a + b);
    assert |m| == |ma| + |mb|;
    forall k | 0 <= k < |m|
      ensures m[k] == (ma + mb)[k]
    {
      if k < |fa| {
        assert m[k] == FailureMessage(phrases, fa[k].1, fa[k].0) == ma[k];
      } else {
        assert m[k] == FailureMessage(phrases, fb[k - |fa|].1, fb[k - |fa|].0) == mb[k - |fa|];
      }
    }
  }

  /** A failure message opens with the request's description. */
  lemma FailureMessageDescribes(phrases: Errors.PhraseTable, error: Errors.Error, request: Request)
    ensures StartsWith(FailureMessage(phrases, error, request), Describe(request))
  {
    var d := Describe(request);
    var m := FailureMessage(phrases, error, request);
    assert m == d || StartsWith(m, d + " ");
  }

  /** Every message of a list of failures opens with the description of its request. */
  lemma FailuresStartWithDescription(phrases: Errors.PhraseTable, failed: seq<(Request, Errors.Error)>)
    ensures forall k :: 0 <= k < |failed| ==> StartsWith(FailureMessage(phrases, failed[k].1, failed[k].0), Describe(failed[k].0))
  {
    forall k | 0 <= k < |failed|
      ensures StartsWith(FailureMessage(phrases, failed[k].1, failed[k].0), Describe(failed[k].0))
    {
      FailureMessageDescribes(phrases, failed[k].1, failed[k].0);
    }
  }

  /** Each message starts with the description of a request that failed, naming its key and label. */
  lemma FailureMessagesDescribe(client: Client, phrases: Errors.PhraseTable, requests: seq<Request>)
    ensures var messages := Failures(client, phrases, requests);
      forall k :: 0 <= k < |messages| ==>
        exists i :: 0 <= i < |requests| && client(requests[i]).Some? && StartsWith(messages[k], Describe(requests[i]))
  {
    var messages := Failures(client, phrases, requests);
    var failed := FailedRequests(client, requests);
    FailedRequestsSound(client, requests);
    forall k | 0 <= k < |messages|
      ensures exists i :: 0 <= i < |requests| && client(requests[i]).Some? && StartsWith(messages[k], Describe(requests[i]))
    {
      FailureMessageDescribes(phrases, failed[k].1, failed[k].0);
      assert failed[k].0 in requests;
      var i :| 0 <= i < |requests| && requests[i] == failed[k].0;
    }
  }

  // ---- the outcome ---------------------------------------------------------------------

  /** How a run ended. */
  datatype Outcome = Synced | SyncFailed | PartiallySynced

  /** The classification at the end of `syncConfig`. */
  function Classify(deletesAttempted: nat, deletesFailed: nat, addsAttempted: nat, addsFailed: nat): Outcome
  {
    if deletesFailed == 0 && addsFailed == 0 then Synced
    else if deletesFailed == deletesAttempted && addsFailed == addsAttempted then SyncFailed
    else PartiallySynced
  }

  /** The text the action fails with, if it fails. */
  function FailureSummary(outcome: Outcome): Option<string>
  {
    match outcome
    case Synced => None
    case SyncFailed => Some("Configuration sync failed.")
    case PartiallySynced => Some("Configuration sync partially succeeded.")
  }

  /**
   * What the classification means for the requests of a run: success when none failed,
   * "failed" when there was at least one and all failed, "partially succeeded" when some
   * failed and some did not.
   */
  lemma OutcomeMeaning(client: Client, phrases: Errors.PhraseTable, deletes: seq<Request>, adds: seq<Request>)
    ensures var all := deletes + adds;
      var outcome := Classify(|deletes|, |Failures(client, phrases, deletes)|, |adds|, |Failures(client, phrases, adds)|);
      && (outcome.Synced? <==> forall i :: 0 <= i < |all| ==> client(all[i]).None?)
      && (outcome.SyncFailed? <==> |all| > 0 && forall i :: 0 <= i < |all| ==> client(all[i]).Some?)
      && (outcome.PartiallySynced? <==>
            && (exists i :: 0 <= i < |all| && client(all[i]).Some?)
            && (exists i :: 0 <= i < |all| && client(all[i]).None?))
  {
    var all := deletes + adds;
    FailuresCount(client, deletes);
    FailuresCount(client, adds);
    assert forall i :: 0 <= i < |deletes| ==> all[i] == deletes[i];
    assert forall i :: 0 <= i < |adds| ==> all[|deletes| + i] == adds[i];
    assert forall i :: |deletes| <= i < |all| ==> all[i] == adds[i - |deletes|];
  }

  // ---- the run -------------------------------------------------------------------------

  const ServicePrincipalAuth := "ServicePrincipal"
  const MissingAuthMessage := "Provide auth method"

  /** How the client connects to the store. */
  datatype AuthChoice = ServicePrincipal(endpoint: string) | ConnectionString(connectionString: string)

  /**
   * The choice of client: a service principal when asked for and an endpoint is given,
   * else the connection string, else an `ArgumentError`.
   */
  function ChooseAuth(authType: string, endpoint: Option<string>, connectionString: Option<string>): (r: Result<AuthChoice, Errors.Error>)
    ensures r.Err? <==> !(authType == ServicePrincipalAuth && NonEmpty(endpoint)) && !NonEmpty(connectionString)
    ensures r.Err? ==> r.error == Errors.ArgumentError(MissingAuthMessage)
    ensures authType == ServicePrincipalAuth && NonEmpty(endpoint) ==> r == Ok(ServicePrincipal(endpoint.value))
    ensures !(authType == ServicePrincipalAuth && NonEmpty(endpoint)) && NonEmpty(connectionString) ==>
      r == Ok(ConnectionString(connectionString.value))
  {
    if authType == ServicePrincipalAuth && NonEmpty(endpoint) then Ok(ServicePrincipal(endpoint.value))
    else if NonEmpty(connectionString) then Ok(ConnectionString(connectionString.value))
    else Err(Errors.ArgumentError(MissingAuthMessage))
  }

  /** The parameters of `syncConfig`, in its order. */
  datatype SyncArgs = SyncArgs(
    config: Config,
    strict: bool,
    authType: string,
    endpoint: Option<string>,
    connectionString: Option<string>,
    lbl: Option<string>,
    prefix: Option<string>,
    tags: Value,
    contentType: Option<string>)

  /**
   * What a run talks to: the store's listing and calls, `JSON.stringify`, the phrase table.
   * The listing gives the drained entries, or the error that draining it threw.
   */
  datatype Collaborators = Collaborators(
    list: ListFilter -> Result<seq<RemoteSetting>, Errors.Error>,
    client: Client,
    phrases: Errors.PhraseTable,
    stringify: Value -> string)

  /** What a run did: the listing it made (none unless strict), the requests and their failures. */
  datatype SyncRun = SyncRun(
    auth: AuthChoice,
    listing: Option<ListFilter>,
    toDelete: seq<RemoteSetting>,
    toAdd: seq<Setting>,
    failedDeletes: seq<string>,
    failedAdds: seq<string>,
    outcome: Outcome)
  {
    /** The store calls in the order they are made: every delete, then every write. */
    function Requests(): seq<Request> {
      DeleteRequests(toDelete) + AddRequests(toAdd)
    }

    /** The messages logged as errors: delete failures first, then write failures. */
    function ErrorLog(): seq<string> {
      failedDeletes + failedAdds
    }

    /** The failures and the outcome are those the store's answers produce. */
    predicate Recorded(client: Client, phrases: Errors.PhraseTable) {
      && failedDeletes == Failures(client, phrases, DeleteRequests(toDelete))
      && failedAdds == Failures(client, phrases, AddRequests(toAdd))
      && outcome == Classify(|toDelete|, |failedDeletes|, |toAdd|, |failedAdds|)
    }
  }

  function DesiredSettings(args: SyncArgs, env: Collaborators): seq<Setting>
  {
    SettingsToAdd(args.config, args.lbl, args.prefix, args.tags, args.contentType, env.stringify)
  }

  /**
   * `syncConfig`. A missing auth method throws before anything happens; in strict mode a
   * listing that throws escapes too, before any delete or write is sent.
   */
  function SyncConfig(args: SyncArgs, env: Collaborators): (r: Result<SyncRun, Errors.Error>)
    ensures r.Err? <==>
      ChooseAuth(args.authType, args.endpoint, args.connectionString).Err?
      || (args.strict && env.list(BuildFilter(args.lbl, args.prefix)).Err?)
    ensures ChooseAuth(args.authType, args.endpoint, args.connectionString).Err? ==>
      r == Err(Errors.ArgumentError(MissingAuthMessage))
    ensures (ChooseAuth(args.authType, args.endpoint, args.connectionString).Ok? && args.strict
             && env.list(BuildFilter(args.lbl, args.prefix)).Err?) ==>
      r == Err(env.list(BuildFilter(args.lbl, args.prefix)).error)
    ensures r.Ok? ==> Ok(r.value.auth) == ChooseAuth(args.authType, args.endpoint, args.connectionString)
    // it always writes the desired entries
    ensures r.Ok? ==> r.value.toAdd == DesiredSettings(args, env)
    // the store is listed, once and with the scope's filter, only in strict mode
    ensures r.Ok? && args.strict ==> r.value.listing == Some(BuildFilter(args.lbl, args.prefix))
    ensures r.Ok? && !args.strict ==> r.value.listing.None? && r.value.toDelete == []
    ensures r.Ok? && args.strict ==>
      r.value.toDelete == SettingsToDelete(env.list(BuildFilter(args.lbl, args.prefix)).value, DesiredKeys(r.value.toAdd))
    // only listed entries are deleted, and never one whose key is wanted
    ensures r.Ok? ==> forall e :: e in r.value.toDelete ==>
      && env.list(BuildFilter(args.lbl, args.prefix)).Ok?
      && e in env.list(BuildFilter(args.lbl, args.prefix)).value
      && e.key !in DesiredKeys(r.value.toAdd)
    ensures r.Ok? ==> r.value.Recorded(env.client, env.phrases)
    ensures r.Ok? ==> |r.value.failedDeletes| <= |r.value.toDelete| && |r.value.failedAdds| <= |r.value.toAdd|
    // the action fails exactly when something was logged
    ensures r.Ok? ==> (r.value.outcome.Synced? <==> r.value.ErrorLog() == [])
    ensures r.Ok? ==> (FailureSummary(r.value.outcome).None? <==> r.value.ErrorLog() == [])
  {
    match ChooseAuth(args.authType, args.endpoint, args.connectionString)
    case Err(e) => Err(e)
    case Ok(auth) =>
      var toAdd := DesiredSettings(args, env);
      var filter := BuildFilter(args.lbl, args.prefix);
      if args.strict && env.list(filter).Err? then Err(env.list(filter).error)
      else
        var toDelete := if args.strict then SettingsToDelete(env.list(filter).value, DesiredKeys(toAdd)) else [];
        DeletionMembership(if args.strict then env.list(filter).value else [], DesiredKeys(toAdd));
        var failedDeletes := Failures(env.client, env.phrases, DeleteRequests(toDelete));
        var failedAdds := Failures(env.client, env.phrases, AddRequests(toAdd));
        Ok(SyncRun(
          auth,
          if args.strict then Some(filter) else None,
          toDelete,
          toAdd,
          failedDeletes,
          failedAdds,
          Classify(|toDelete|, |failedDeletes|, |toAdd|, |failedAdds|)))
  }

  /**
   * Deletes are issued before writes, and the error log is exactly the failures of the
   * whole request sequence in issue order.
   */
  lemma DeletesBeforeAdds(run: SyncRun, client: Client, phrases: Errors.PhraseTable)
    requires run.Recorded(client, phrases)
    ensures forall i, j :: 0 <= i < j < |run.Requests()| && run.Requests()[i].Set? ==> run.Requests()[j].Set?
    ensures Failures(client, phrases, run.Requests()) == run.ErrorLog()
  {
    FailuresAppend(client, phrases, DeleteRequests(run.toDelete), AddRequests(run.toAdd));
  }

  /** The outcome of a run, stated over the store's answers to its requests. */
  lemma RunOutcome(run: SyncRun, client: Client, phrases: Errors.PhraseTable)
    requires run.Recorded(client, phrases)
    ensures var all := run.Requests();
      && (run.outcome.Synced? <==> forall i :: 0 <= i < |all| ==> client(all[i]).None?)
      && (run.outcome.SyncFailed? <==> |all| > 0 && forall i :: 0 <= i < |all| ==> client(all[i]).Some?)
      && (run.outcome.PartiallySynced? <==>
            && (exists i :: 0 <= i < |all| && client(all[i]).Some?)
            && (exists i :: 0 <= i < |all| && client(all[i]).None?))
  {
    var deletes, adds := DeleteRequests(run.toDelete), AddRequests(run.toAdd);
    assert run.Requests() == deletes + adds;
    assert |deletes| == |run.toDelete| && |adds| == |run.toAdd|;
    assert run.outcome == Classify(|deletes|, |Failures(client, phrases, deletes)|, |adds|, |Failures(client, phrases, adds)|);
    OutcomeMeaning(client, phrases, deletes, adds);
  }
}
