/**
 * A configuration store as a map from (key, label) to value, used to state what a strict
 * run achieves. The store applies each request it accepted. A listing is honest when it
 * returns exactly the stored entries the filter selects.
 */
module StoreModel {
  import opened Wrappers
  import opened Strings
  import opened ConfigStore

  /** An entry's identity in the store: key and label. */
  type EntryId = (string, Option<string>)

  type Store = map<EntryId, string>

  function SettingId(s: Setting): EntryId { (s.key, s.lbl) }

  function RemoteId(e: RemoteSetting): EntryId { (e.key, e.lbl) }

  /** The entries of a store the filter selects. */
  function Scope(store: Store, filter: ListFilter): set<EntryId>
  {
    set id | id in store.Keys && InScope(filter, id.0, id.1)
  }

  /** The listing returns each selected entry, and nothing else. */
  predicate HonestListing(store: Store, filter: ListFilter, listed: seq<RemoteSetting>)
  {
    && (forall i :: 0 <= i < |listed| ==> RemoteId(listed[i]) in Scope(store, filter))
    && (forall id :: id in Scope(store, filter) ==> exists i :: 0 <= i < |listed| && RemoteId(listed[i]) == id)
  }

  /** The store accepts every request of the run. */
  predicate Accepted(client: Client, requests: seq<Request>) {
    forall i :: 0 <= i < |requests| ==> client(requests[i]).None?
  }

  /** The entry a request acts on. */
  function Target(request: Request): EntryId {
    match request
    case Delete(t) => RemoteId(t)
    case Set(s) => SettingId(s)
  }

  /** The store after one request, if the store accepted it. */
  function Step(store: Store, client: Client, request: Request): (after: Store)
    ensures client(request).Some? ==> after == store
    ensures client(request).None? && request.Delete? ==> after.Keys == store.Keys - {RemoteId(request.target)}
    ensures client(request).None? && request.Set? ==>
      after.Keys == store.Keys + {SettingId(request.setting)} && after[SettingId(request.setting)] == request.setting.value
    // no other entry changes its value
    ensures forall id :: id in after && id != Target(request) ==> id in store && after[id] == store[id]
  {
    if client(request).Some? then store
    else match request
      case Delete(target) => store - {RemoteId(target)}
      case Set(setting) => store[SettingId(setting) := setting.value]
  }

  /** The store after a run of requests, applied in issue order. */
  function Apply(store: Store, client: Client, requests: seq<Request>): Store
    decreases |requests|
  {
    if |requests| == 0 then store else Apply(Step(store, client, requests[0]), client, requests[1..])
  }

  lemma {:induction false} ApplyAppend(store: Store, client: Client, a: seq<Request>, b: seq<Request>)
    ensures Apply(store, client, a + b) == Apply(Apply(store, client, a), client, b)
    decreases |a|
  {
    if |a| == 0 {
      assert a + b == b;
    } else {
      ApplyAppend(Step(store, client, a[0]), client, a[1..], b);
      assert (a + b)[1..] == a[1..] + b;
      assert (a + b)[0] == a[0];
    }
  }

  /** Accepted deletes remove exactly the targeted entries. */
  lemma {:induction false} ApplyDeletes(store: Store, client: Client, targets: seq<RemoteSetting>)
    requires forall i :: 0 <= i < |targets| ==> client(Delete(targets[i])).None?
    ensures forall id :: id in Apply(store, client, DeleteRequests(targets)).Keys
                      <==> id in store.Keys && forall i :: 0 <= i < |targets| ==> RemoteId(targets[i]) != id
    decreases |targets|
  {
    if |targets| > 0 {
      var requests := DeleteRequests(targets);
      assert requests[1..] == DeleteRequests(targets[1..]);
      ApplyDeletes(Step(store, client, requests[0]), client, targets[1..]);
      forall id
        ensures id in Apply(store, client, requests).Keys
          <==> id in store.Keys && forall i :: 0 <= i < |targets| ==> RemoteId(targets[i]) != id
      {
        if forall i :: 1 <= i < |targets| ==> RemoteId(targets[i]) != id {
          assert forall i :: 0 <= i < |targets[1..]| ==> RemoteId(targets[1..][i]) != id;
        } else {
          var i :| 1 <= i < |targets| && RemoteId(targets[i]) == id;
          assert RemoteId(targets[1..][i - 1]) == id;
        }
      }
    }
  }

  /** Accepted writes add exactly the written entries and keep everything else. */
  lemma {:induction false} ApplySets(store: Store, client: Client, settings: seq<Setting>)
    requires forall i :: 0 <= i < |settings| ==> client(Set(settings[i])).None?
    ensures forall id :: id in Apply(store, client, AddRequests(settings)).Keys
                      <==> id in store.Keys || exists i :: 0 <= i < |settings| && SettingId(settings[i]) == id
    decreases |settings|
  {
    if |settings| > 0 {
      var requests := AddRequests(settings);
      assert requests[1..] == AddRequests(settings[1..]);
      ApplySets(Step(store, client, requests[0]), client, settings[1..]);
      forall id
        ensures id in Apply(store, client, requests).Keys
          <==> id in store.Keys || exists i :: 0 <= i < |settings| && SettingId(settings[i]) == id
      {
        if exists i :: 0 <= i < |settings[1..]| && SettingId(settings[1..][i]) == id {
          var i :| 0 <= i < |settings[1..]| && SettingId(settings[1..][i]) == id;
          assert SettingId(settings[i + 1]) == id;
        }
        if exists i :: 1 <= i < |settings| && SettingId(settings[i]) == id {
          var i :| 1 <= i < |settings| && SettingId(settings[i]) == id;
          assert SettingId(settings[1..][i - 1]) == id;
        }
      }
    }
  }

  /**
   * Accepted writes of entries with distinct identities leave each written entry holding its
   * value, and every entry that is not written holding the value it had.
   */
  lemma {:induction false} ApplySetsValues(store: Store, client: Client, settings: seq<Setting>)
    requires forall i :: 0 <= i < |settings| ==> client(Set(settings[i])).None?
    requires forall i, j :: 0 <= i < j < |settings| ==> SettingId(settings[i]) != SettingId(settings[j])
    ensures var after := Apply(store, client, AddRequests(settings));
      forall i :: 0 <= i < |settings| ==> SettingId(settings[i]) in after && after[SettingId(settings[i])] == settings[i].value
    ensures var after := Apply(store, client, AddRequests(settings));
      forall id :: id in store && (forall i :: 0 <= i < |settings| ==> SettingId(settings[i]) != id) ==>
        id in after && after[id] == store[id]
    decreases |settings|
  {
    if |settings| > 0 {
      var requests := AddRequests(settings);
      assert requests[1..] == AddRequests(settings[1..]);
      var next := Step(store, client, requests[0]);
      ApplySetsValues(next, client, settings[1..]);
      var after := Apply(store, client, requests);
      assert after == Apply(next, client, AddRequests(settings[1..]));
      forall i | 0 <= i < |settings|
        ensures SettingId(settings[i]) in after && after[SettingId(settings[i])] == settings[i].value
      {
        if i == 0 {
          assert forall k :: 0 <= k < |settings[1..]| ==> SettingId(settings[1..][k]) != SettingId(settings[0]) by {
            forall k | 0 <= k < |settings[1..]|
              ensures SettingId(settings[1..][k]) != SettingId(settings[0])
            {
              assert settings[1..][k] == settings[k + 1];
            }
          }
        } else {
          assert settings[1..][i - 1] == settings[i];
        }
      }
      forall id | id in store && (forall i :: 0 <= i < |settings| ==> SettingId(settings[i]) != id)
        ensures id in after && after[id] == store[id]
      {
        assert SettingId(settings[0]) != id;
        assert forall k :: 0 <= k < |settings[1..]| ==> SettingId(settings[1..][k]) != id by {
          forall k | 0 <= k < |settings[1..]|
            ensures SettingId(settings[1..][k]) != id
          {
            assert settings[1..][k] == settings[k + 1];
          }
        }
      }
    }
  }

  /**
   * After an honest listing, the deletion of the unwanted listed entries and the writing of
   * the wanted ones, all accepted, the filter selects exactly the written entries, provided
   * they lie in scope and the scope fixes the label.
   */
  lemma ScopeAfterRun(store: Store, client: Client, filter: ListFilter, listed: seq<RemoteSetting>, toAdd: seq<Setting>)
    requires HonestListing(store, filter, listed)
    requires forall i :: 0 <= i < |toAdd| ==> InScope(filter, toAdd[i].key, toAdd[i].lbl)
    requires forall i, id: EntryId :: 0 <= i < |toAdd| && InScope(filter, id.0, id.1) && toAdd[i].key == id.0 ==> SettingId(toAdd[i]) == id
    requires forall i :: 0 <= i < |SettingsToDelete(listed, DesiredKeys(toAdd))| ==>
      client(Delete(SettingsToDelete(listed, DesiredKeys(toAdd))[i])).None?
    requires forall i :: 0 <= i < |toAdd| ==> client(Set(toAdd[i])).None?
    ensures var requests := DeleteRequests(SettingsToDelete(listed, DesiredKeys(toAdd))) + AddRequests(toAdd);
      forall id :: id in Scope(Apply(store, client, requests), filter)
        <==> exists i :: 0 <= i < |toAdd| && SettingId(toAdd[i]) == id
  {
    var toDelete := SettingsToDelete(listed, DesiredKeys(toAdd));
    var deletes, adds := DeleteRequests(toDelete), AddRequests(toAdd);
    ApplyAppend(store, client, deletes, adds);
    ApplyDeletes(store, client, toDelete);
    var mid := Apply(store, client, deletes);
    ApplySets(mid, client, toAdd);
    var after := Apply(mid, client, adds);
    DeletionMembership(listed, DesiredKeys(toAdd));
    forall id | id in Scope(after, filter)
      ensures exists i :: 0 <= i < |toAdd| && SettingId(toAdd[i]) == id
    {
      if id in mid.Keys {
        KeptEntryIsWanted(store, client, filter, listed, toAdd, id);
      }
    }
  }

  /** An entry that survives the deletes inside the scope has a wanted key, so it is a written entry. */
  lemma KeptEntryIsWanted(store: Store, client: Client, filter: ListFilter, listed: seq<RemoteSetting>,
                          toAdd: seq<Setting>, id: EntryId)
    requires HonestListing(store, filter, listed)
    requires forall i, id: EntryId :: 0 <= i < |toAdd| && InScope(filter, id.0, id.1) && toAdd[i].key == id.0 ==> SettingId(toAdd[i]) == id
    requires InScope(filter, id.0, id.1) && id in store.Keys
    requires forall i :: 0 <= i < |SettingsToDelete(listed, DesiredKeys(toAdd))| ==>
      RemoteId(SettingsToDelete(listed, DesiredKeys(toAdd))[i]) != id
    ensures exists i :: 0 <= i < |toAdd| && SettingId(toAdd[i]) == id
  {
    KeptEntryHasWantedKey(store, filter, listed, toAdd, id);
    var i :| 0 <= i < |toAdd| && toAdd[i].key == id.0;
  }

  /** An entry inside the scope that the deletes spare has the key of a desired entry. */
  lemma KeptEntryHasWantedKey(store: Store, filter: ListFilter, listed: seq<RemoteSetting>, toAdd: seq<Setting>, id: EntryId)
    requires HonestListing(store, filter, listed)
    requires InScope(filter, id.0, id.1) && id in store.Keys
    requires forall i :: 0 <= i < |SettingsToDelete(listed, DesiredKeys(toAdd))| ==>
      RemoteId(SettingsToDelete(listed, DesiredKeys(toAdd))[i]) != id
    ensures id.0 in DesiredKeys(toAdd)
  {
    var toDelete := SettingsToDelete(listed, DesiredKeys(toAdd));
    DeletionMembership(listed, DesiredKeys(toAdd));
    assert id in Scope(store, filter);
    var j :| 0 <= j < |listed| && RemoteId(listed[j]) == id;
    assert listed[j] !in toDelete;
  }

  /**
   * After an honest listing and an accepted run, every entry the filter selects has the key
   * of a desired entry, whatever the run's label.
   */
  lemma ScopeKeysWanted(store: Store, client: Client, filter: ListFilter, listed: seq<RemoteSetting>, toAdd: seq<Setting>)
    requires HonestListing(store, filter, listed)
    requires Accepted(client, DeleteRequests(SettingsToDelete(listed, DesiredKeys(toAdd))) + AddRequests(toAdd))
    ensures var requests := DeleteRequests(SettingsToDelete(listed, DesiredKeys(toAdd))) + AddRequests(toAdd);
      forall id :: id in Scope(Apply(store, client, requests), filter) ==> id.0 in DesiredKeys(toAdd)
  {
    var toDelete := SettingsToDelete(listed, DesiredKeys(toAdd));
    var deletes, adds := DeleteRequests(toDelete), AddRequests(toAdd);
    AcceptedSplit(client, toDelete, toAdd);
    ApplyAppend(store, client, deletes, adds);
    ApplyDeletes(store, client, toDelete);
    var mid := Apply(store, client, deletes);
    ApplySets(mid, client, toAdd);
    forall id | id in Scope(Apply(store, client, deletes + adds), filter)
      ensures id.0 in DesiredKeys(toAdd)
    {
      if id in mid.Keys {
        KeptEntryHasWantedKey(store, filter, listed, toAdd, id);
      } else {
        var i :| 0 <= i < |toAdd| && SettingId(toAdd[i]) == id;
      }
    }
  }

  /** A run whose requests are all accepted has every delete and every write accepted. */
  lemma AcceptedSplit(client: Client, toDelete: seq<RemoteSetting>, toAdd: seq<Setting>)
    requires Accepted(client, DeleteRequests(toDelete) + AddRequests(toAdd))
    ensures forall i :: 0 <= i < |toDelete| ==> client(Delete(toDelete[i])).None?
    ensures forall i :: 0 <= i < |toAdd| ==> client(Set(toAdd[i])).None?
  {
    var deletes, adds := DeleteRequests(toDelete), AddRequests(toAdd);
    forall i | 0 <= i < |toDelete|
      ensures client(Delete(toDelete[i])).None?
    {
      assert (deletes + adds)[i] == deletes[i] == Delete(toDelete[i]);
      assert client((deletes + adds)[i]).None?;
    }
    forall i | 0 <= i < |toAdd|
      ensures client(Set(toAdd[i])).None?
    {
      assert (deletes + adds)[|deletes| + i] == adds[i] == Set(toAdd[i]);
      assert client((deletes + adds)[|deletes| + i]).None?;
    }
  }

  /**
   * The desired settings of a strict run with a fixed label end up as exactly the entries
   * the filter selects, when the listing is honest and the store accepts every request.
   */
  lemma DesiredScopeReached(store: Store, client: Client, config: Config, lbl: Option<string>, prefix: Option<string>,
                            tags: JsValues.Value, contentType: Option<string>, stringify: JsValues.Value -> string,
                            listed: seq<RemoteSetting>)
    requires lbl != Some(NoLabelFilter)
    requires HonestListing(store, BuildFilter(lbl, prefix), listed)
    requires Accepted(client, DeleteRequests(SettingsToDelete(listed, DesiredKeys(SettingsToAdd(config, lbl, prefix, tags, contentType, stringify))))
                              + AddRequests(SettingsToAdd(config, lbl, prefix, tags, contentType, stringify)))
    ensures var toAdd := SettingsToAdd(config, lbl, prefix, tags, contentType, stringify);
      var requests := DeleteRequests(SettingsToDelete(listed, DesiredKeys(toAdd))) + AddRequests(toAdd);
      forall id :: id in Scope(Apply(store, client, requests), BuildFilter(lbl, prefix))
        <==> exists i :: 0 <= i < |toAdd| && SettingId(toAdd[i]) == id
  {
    var filter := BuildFilter(lbl, prefix);
    var toAdd := SettingsToAdd(config, lbl, prefix, tags, contentType, stringify);
    var toDelete := SettingsToDelete(listed, DesiredKeys(toAdd));
    AcceptedSplit(client, toDelete, toAdd);
    DesiredInScope(config, lbl, prefix, tags, contentType, stringify);
    forall i, id: EntryId | 0 <= i < |toAdd| && InScope(filter, id.0, id.1) && toAdd[i].key == id.0
      ensures SettingId(toAdd[i]) == id
    {
      FilterSelectsScope(lbl, prefix, id.0, id.1);
    }
    ScopeAfterRun(store, client, filter, listed, toAdd);
  }

  /** The strict run's requests: the deletion of the unwanted listed entries, then every write. */
  lemma StrictRequests(args: SyncArgs, env: Collaborators)
    requires args.strict && SyncConfig(args, env).Ok?
    ensures var run := SyncConfig(args, env).value;
      var toAdd := SettingsToAdd(args.config, args.lbl, args.prefix, args.tags, args.contentType, env.stringify);
      && run.toAdd == toAdd
      && run.Requests() == DeleteRequests(SettingsToDelete(env.list(BuildFilter(args.lbl, args.prefix)).value, DesiredKeys(toAdd)))
                           + AddRequests(toAdd)
  {
  }

  /**
   * Strict mode reconciles the scope. When the first listing is honest and the store accepts
   * every request, each desired entry holds its configured value afterwards, and the filter
   * selects exactly the desired entries. Under the run label "\0" the filter selects none of
   * them, since it lists the unlabelled entries instead; this relies on `Step` filing a write
   * under its literal label, which is this model's reading of the store.
   */
  lemma StrictRunReconciles(store: Store, args: SyncArgs, env: Collaborators)
    requires args.strict && DistinctKeys(args.config)
    requires SyncConfig(args, env).Ok?
    requires HonestListing(store, BuildFilter(args.lbl, args.prefix), env.list(BuildFilter(args.lbl, args.prefix)).value)
    requires Accepted(env.client, SyncConfig(args, env).value.Requests())
    ensures var run := SyncConfig(args, env).value;
      var after := Apply(store, env.client, run.Requests());
      forall i :: 0 <= i < |run.toAdd| ==> SettingId(run.toAdd[i]) in after && after[SettingId(run.toAdd[i])] == run.toAdd[i].value
    ensures var run := SyncConfig(args, env).value;
      args.lbl != Some(NoLabelFilter) ==>
        forall id :: id in Scope(Apply(store, env.client, run.Requests()), BuildFilter(args.lbl, args.prefix))
          <==> exists i :: 0 <= i < |run.toAdd| && SettingId(run.toAdd[i]) == id
    ensures var run := SyncConfig(args, env).value;
      args.lbl == Some(NoLabelFilter) ==>
        forall i :: 0 <= i < |run.toAdd| ==>
          SettingId(run.toAdd[i]) !in Scope(Apply(store, env.client, run.Requests()), BuildFilter(args.lbl, args.prefix))
  {
    var run := SyncConfig(args, env).value;
    var filter := BuildFilter(args.lbl, args.prefix);
    var listed := env.list(filter).value;
    StrictRequests(args, env);
    var toDelete := SettingsToDelete(listed, DesiredKeys(run.toAdd));
    AcceptedSplit(env.client, toDelete, run.toAdd);
    ApplyAppend(store, env.client, DeleteRequests(toDelete), AddRequests(run.toAdd));
    DesiredKeysDistinct(args.config, args.lbl, args.prefix, args.tags, args.contentType, env.stringify);
    ApplySetsValues(Apply(store, env.client, DeleteRequests(toDelete)), env.client, run.toAdd);
    DesiredInScope(args.config, args.lbl, args.prefix, args.tags, args.contentType, env.stringify);
    if args.lbl != Some(NoLabelFilter) {
      DesiredScopeReached(store, env.client, args.config, args.lbl, args.prefix, args.tags, args.contentType,
                          env.stringify, listed);
    }
  }

  /**
   * Under the run label "\0" a strict run deletes every unlabelled entry under the prefix
   * whose key it does not write, although the entries it writes are labelled "\0".
   */
  lemma NulLabelDeletesUnlabelled(store: Store, args: SyncArgs, env: Collaborators, id: EntryId)
    requires args.strict && args.lbl == Some(NoLabelFilter)
    requires SyncConfig(args, env).Ok?
    requires HonestListing(store, BuildFilter(args.lbl, args.prefix), env.list(BuildFilter(args.lbl, args.prefix)).value)
    requires id in store && id.1.None? && StartsWith(id.0, TextOr(args.prefix))
    requires id.0 !in DesiredKeys(SyncConfig(args, env).value.toAdd)
    ensures var run := SyncConfig(args, env).value;
      (exists e :: e in run.toDelete && RemoteId(e) == id)
      && forall i :: 0 <= i < |run.toAdd| ==> run.toAdd[i].lbl == Some(NoLabelFilter)
  {
    var run := SyncConfig(args, env).value;
    var filter := BuildFilter(args.lbl, args.prefix);
    var listed := env.list(filter).value;
    FilterSelectsScope(args.lbl, args.prefix, id.0, id.1);
    assert id in Scope(store, filter);
    var j :| 0 <= j < |listed| && RemoteId(listed[j]) == id;
    DeletionMembership(listed, DesiredKeys(run.toAdd));
    assert listed[j] in run.toDelete;
  }

  /** A second strict run with the same inputs, against an honest listing, deletes nothing. */
  lemma SecondRunDeletesNothing(store: Store, args: SyncArgs, env: Collaborators, relisted: seq<RemoteSetting>)
    requires args.strict
    requires SyncConfig(args, env).Ok?
    requires HonestListing(store, BuildFilter(args.lbl, args.prefix), env.list(BuildFilter(args.lbl, args.prefix)).value)
    requires Accepted(env.client, SyncConfig(args, env).value.Requests())
    requires var run := SyncConfig(args, env).value;
      HonestListing(Apply(store, env.client, run.Requests()), BuildFilter(args.lbl, args.prefix), relisted)
    ensures SettingsToDelete(relisted, DesiredKeys(SyncConfig(args, env).value.toAdd)) == []
  {
    var run := SyncConfig(args, env).value;
    var filter := BuildFilter(args.lbl, args.prefix);
    StrictRequests(args, env);
    ScopeKeysWanted(store, env.client, filter, env.list(filter).value, run.toAdd);
    forall j | 0 <= j < |relisted|
      ensures relisted[j].key in DesiredKeys(run.toAdd)
    {
      assert RemoteId(relisted[j]) in Scope(Apply(store, env.client, run.Requests()), filter);
    }
    DeletionsNone(relisted, DesiredKeys(run.toAdd));
  }
}
