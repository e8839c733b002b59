/**
  * The kubectl plugin: `prune`, which deletes records older than a duration
  * or with a given name, and `restore`, which re-creates the object a record
  * holds and then deletes the record.
  *
  * time.ParseDuration, time.Now and the YAML-or-JSON decoder are library
  * code: they are parameters (a function from text to nanoseconds, a clock
  * reading, and the `decode` function of Manifest.Codecs).
  */
module Cli {
  import opened Wrappers
  import Dates
  import Manifest
  import Records

  datatype CliError =
    | MissingSelector      // neither --older-than nor --name
    | InvalidDuration      // --older-than does not parse, even as days
    | ListFailed           // the record listing was refused

  /** What the prune flags select: an age threshold in nanoseconds, and
    * whether one was given at all (without one, age is ignored). */
  datatype PruneWindow = PruneWindow(olderThan: int, hasDuration: bool)

  // ---------------------------------------------------------------------
  // Prune flags
  // ---------------------------------------------------------------------

  predicate HasDaySuffix(s: string) {
    |s| > 0 && s[|s| - 1] == 'd'
  }

  /** The prune window the flags ask for. A duration ParseDuration rejects
    * is retried as a number of days when it ends in 'd': the prefix is read
    * as hours and multiplied by 24 in 64-bit Duration arithmetic. */
  function PruneWindowOf(olderThan: string, name: string, parseDuration: string -> Option<int>)
    : Result<PruneWindow, CliError>
  {
    if olderThan == "" && name == "" then Failure(MissingSelector)
    else if olderThan == "" then Success(PruneWindow(0, false))
    else match parseDuration(olderThan)
      case Some(d) => Success(PruneWindow(d, true))
      case None =>
        if !HasDaySuffix(olderThan) then Failure(InvalidDuration)
        else match parseDuration(olderThan[..|olderThan| - 1] + "h")
          case Some(days) => Success(PruneWindow(Dates.WrapInt64(days * 24), true))
          case None => Failure(InvalidDuration)
  }

  /** The flag handling of the prune command, step by step. */
  method ParsePruneFlags(olderThan: string, name: string, parseDuration: string -> Option<int>)
    returns (r: Result<PruneWindow, CliError>)
    ensures r == PruneWindowOf(olderThan, name, parseDuration)
  {
    if olderThan == "" && name == "" {
      return Failure(MissingSelector);
    }
    var hasArgumentDuration := false;
    var duration := 0;
    if olderThan != "" {
      var parsed := parseDuration(olderThan);
      hasArgumentDuration := true;
      if parsed.Some? {
        duration := parsed.value;
      } else if HasDaySuffix(olderThan) {
        var daysStr := olderThan[..|olderThan| - 1];
        var days := parseDuration(daysStr + "h");
        if days.Some? {
          duration := Dates.WrapInt64(days.value * 24);
        } else {
          return Failure(InvalidDuration);
        }
      } else {
        return Failure(InvalidDuration);
      }
    }
    return Success(PruneWindow(duration, hasArgumentDuration));
  }

  // ---------------------------------------------------------------------
  // Prune
  // ---------------------------------------------------------------------

  /** A listed record is deleted when it was created strictly before the
    * cutoff, or when age is ignored. */
  predicate Eligible(r: Records.TrashedResource, cutoff: int, ignoreAge: bool) {
    r.createdAt < cutoff || ignoreAge
  }

  /** The keys of the eligible records of a listing. */
  function EligibleKeys(rs: seq<Records.TrashedResource>, cutoff: int, ignoreAge: bool): set<Records.Key> {
    if rs == [] then {}
    else
      var last := rs[|rs| - 1];
      EligibleKeys(rs[..|rs| - 1], cutoff, ignoreAge) + (if Eligible(last, cutoff, ignoreAge) then {Records.KeyOf(last)} else {})
  }

  /** The outcome of a prune of `before` into `after`, where `log` is what
    * the server refused meanwhile. A refused listing deletes nothing.
    * Otherwise the listing was pruned. */
  ghost predicate Pruned(before: seq<Records.TrashedResource>, after: seq<Records.TrashedResource>,
                         namespace: string, name: string, cutoff: int, ignoreAge: bool,
                         err: Option<CliError>, listed: seq<Records.TrashedResource>, deleted: set<Records.Key>,
                         log: seq<Records.Request>)
  {
    && (err.Some? ==>
          err == Some(ListFailed) && deleted == {} && after == before && log == [Records.ListRequest(namespace, name)])
    && (err.None? ==> PrunedListing(before, after, namespace, name, cutoff, ignoreAge, listed, deleted, log))
  }

  /** A listing pruned: `listed` is what the list options select, only
    * eligible listed records are deleted, and every eligible listed record
    * is either deleted or its delete was refused: a refusal does not stop
    * the others. */
  ghost predicate PrunedListing(before: seq<Records.TrashedResource>, after: seq<Records.TrashedResource>,
                                namespace: string, name: string, cutoff: int, ignoreAge: bool,
                                listed: seq<Records.TrashedResource>, deleted: set<Records.Key>,
                                log: seq<Records.Request>)
  {
    && listed == Records.ListFilter(before, namespace, name)
    && after == Records.Without(before, deleted)
    && Records.OnlyDeletes(log)
    && deleted <= EligibleKeys(listed, cutoff, ignoreAge)
    && EligibleKeys(listed, cutoff, ignoreAge) == deleted + Records.DeleteKeys(log)
  }

  /** pruneResources: list the records in the namespace ("" for all) with
    * the name ("" for any), and delete the eligible ones one by one. A
    * failed delete is reported and skipped; `deletedCount` counts the
    * deletes that succeeded. `listed` and `deleted` name what was listed
    * and which keys went. */
  method PruneResources(store: Records.RecordStore, namespace: string, olderThan: int,
                        hasArgumentDuration: bool, name: string, clock: int)
    returns (err: Option<CliError>, deletedCount: nat,
             ghost listed: seq<Records.TrashedResource>, ghost deleted: set<Records.Key>,
             ghost log: seq<Records.Request>)
    requires store.Valid()
    modifies store
    ensures store.Valid()
    ensures store.refused == old(store.refused) + log
    ensures Pruned(old(store.records), store.records, namespace, name, clock - olderThan, !hasArgumentDuration,
                   err, listed, deleted, log)
    ensures deletedCount == |deleted| <= |listed|
  {
    var list := store.List(namespace, name);
    if list.Failure? {
      return Some(ListFailed), 0, [], {}, [Records.ListRequest(namespace, name)];
    }
    assert store.refused == old(store.refused) && store.records == old(store.records);
    err, deletedCount, listed, deleted, log :=
      PruneListed(store, list.value, namespace, name, clock - olderThan, !hasArgumentDuration, old(store.records));
  }

  /** The part of pruneResources after a successful listing, which ends by
    * returning no error; `before` names the records the listing was taken
    * from, and `listed` gives the listing back. */
  method PruneListed(store: Records.RecordStore, items: seq<Records.TrashedResource>, namespace: string, name: string,
                     cutoffTime: int, ignoreAge: bool, ghost before: seq<Records.TrashedResource>)
    returns (err: Option<CliError>, deletedCount: nat, ghost listed: seq<Records.TrashedResource>,
             ghost deleted: set<Records.Key>, ghost log: seq<Records.Request>)
    requires store.Valid() && before == store.records && items == Records.ListFilter(before, namespace, name)
    modifies store
    ensures store.Valid()
    ensures err.None? && listed == items
    ensures store.refused == old(store.refused) + log
    ensures PrunedListing(before, store.records, namespace, name, cutoffTime, ignoreAge, listed, deleted, log)
    ensures deletedCount == |deleted| <= |listed|
  {
    err, listed := None, items;
    deletedCount, deleted, log := DeleteEligible(store, items, cutoffTime, ignoreAge);
    PrunedByLoop(old(store.records), store.records, namespace, name, cutoffTime, ignoreAge, deleted, log);
  }

  /** The loop of pruneResources over the listed records. Every eligible
    * record that was stored is deleted or its delete is refused; `log` is
    * the refused deletes. */
  method DeleteEligible(store: Records.RecordStore, items: seq<Records.TrashedResource>,
                        cutoffTime: int, ignoreAge: bool)
    returns (deletedCount: nat, ghost deleted: set<Records.Key>, ghost log: seq<Records.Request>)
    requires store.Valid()
    modifies store
    ensures store.Valid()
    ensures store.records == Records.Without(old(store.records), deleted)
    ensures deletedCount == |deleted| <= |items|
    ensures store.refused == old(store.refused) + log
    ensures Accounted(items, cutoffTime, ignoreAge, old(store.records), deleted, log)
  {
    deleted := {};
    log := [];
    deletedCount := 0;
    Records.WithoutNothing(store.records);
    ghost var initial := store.records;
    ghost var log0 := store.refused;
    var i := 0;
    assert EligibleKeys(items[..0], cutoffTime, ignoreAge) == {} by {
      assert items[..0] == [];
    }
    while i < |items|
      invariant 0 <= i <= |items|
      invariant store.Valid()
      invariant store.records == Records.Without(initial, deleted)
      invariant deletedCount == |deleted|
      invariant store.refused == log0 + log
      invariant Accounted(items[..i], cutoffTime, ignoreAge, initial, deleted, log)
    {
      var gone;
      gone, deleted, log := PruneTurn(store, items, i, cutoffTime, ignoreAge, initial, deleted, log0, log);
      if gone {
        deletedCount := deletedCount + 1;
      }
      i := i + 1;
    }
    assert items[..i] == items;
    EligibleKeysBound(items, cutoffTime, ignoreAge);
    SubsetCardinality(deleted, EligibleKeys(items, cutoffTime, ignoreAge));
  }

  /** A turn of the loop with its bookkeeping: the record at `i` is deleted,
    * or its refused delete is logged, or it needs neither, and every
    * eligible stored key seen so far stays deleted or refused. */
  method PruneTurn(store: Records.RecordStore, items: seq<Records.TrashedResource>, i: nat,
                   cutoffTime: int, ignoreAge: bool, ghost initial: seq<Records.TrashedResource>,
                   ghost deleted: set<Records.Key>, ghost log0: seq<Records.Request>, ghost log: seq<Records.Request>)
    returns (gone: bool, ghost deleted': set<Records.Key>, ghost log': seq<Records.Request>)
    requires i < |items|
    requires store.Valid() && store.records == Records.Without(initial, deleted) && store.refused == log0 + log
    requires Accounted(items[..i], cutoffTime, ignoreAge, initial, deleted, log)
    modifies store
    ensures store.Valid() && store.records == Records.Without(initial, deleted') && store.refused == log0 + log'
    ensures Accounted(items[..i + 1], cutoffTime, ignoreAge, initial, deleted', log')
    ensures |deleted'| == |deleted| + (if gone then 1 else 0)
  {
    ghost var k := Records.KeyOf(items[i]);
    Records.KeysOfWithout(initial, deleted);
    gone := DeleteIfEligible(store, items[i], cutoffTime, ignoreAge, initial, deleted);
    deleted', log' := deleted, log;
    if gone {
      deleted' := deleted + {k};
    } else if store.refused != log0 + log {
      log' := log + [Records.DeleteRequest(k)];
    }
    AccountStep(items, i, cutoffTime, ignoreAge, initial, deleted, log, deleted', log');
  }

  /** One turn of the pruneResources loop: an eligible record is deleted; a
    * failed delete is reported and leaves the store as it was. `initial`
    * and `deleted` say what the store held before the loop and which keys
    * the earlier turns removed. */
  method DeleteIfEligible(store: Records.RecordStore, tr: Records.TrashedResource, cutoffTime: int, ignoreAge: bool,
                          ghost initial: seq<Records.TrashedResource>, ghost deleted: set<Records.Key>)
    returns (gone: bool)
    requires store.Valid() && store.records == Records.Without(initial, deleted)
    modifies store
    ensures store.Valid()
    ensures gone ==> Eligible(tr, cutoffTime, ignoreAge)
    ensures gone ==> Records.KeyOf(tr) !in deleted && |deleted + {Records.KeyOf(tr)}| == |deleted| + 1
    ensures gone ==> store.records == Records.Without(initial, deleted + {Records.KeyOf(tr)})
    ensures gone ==> store.refused == old(store.refused)
    ensures !gone ==> store.records == old(store.records)
    ensures !gone ==>
      || store.refused == old(store.refused)
      || (Eligible(tr, cutoffTime, ignoreAge) && store.refused == old(store.refused) + [Records.DeleteRequest(Records.KeyOf(tr))])
    ensures !gone && Eligible(tr, cutoffTime, ignoreAge) && Records.KeyOf(tr) in Records.KeysOf(old(store.records)) ==>
      store.refused == old(store.refused) + [Records.DeleteRequest(Records.KeyOf(tr))]
  {
    gone := false;
    if tr.createdAt < cutoffTime || ignoreAge {
      var e := store.Delete(Records.KeyOf(tr));
      if e.None? {
        DeleteStep(initial, deleted, Records.KeyOf(tr));
        gone := true;
      }
    }
  }

  /** The prune command: validate the flags, then prune. The namespace comes
    * from the kubeconfig; `None` (it could not be determined) means all
    * namespaces. `window` is what the flags selected. */
  method PruneCommand(store: Records.RecordStore, olderThan: string, name: string,
                      kubeNamespace: Option<string>, parseDuration: string -> Option<int>, clock: int)
    returns (err: Option<CliError>, window: Result<PruneWindow, CliError>,
             ghost listed: seq<Records.TrashedResource>, ghost deleted: set<Records.Key>,
             ghost log: seq<Records.Request>)
    requires store.Valid()
    modifies store
    ensures store.Valid()
    ensures window == PruneWindowOf(olderThan, name, parseDuration)
    ensures window.Failure? ==>
      err == Some(window.error) && store.records == old(store.records) && store.refused == old(store.refused)
    ensures store.refused == old(store.refused) + log
    ensures window.Success? ==>
      Pruned(old(store.records), store.records, kubeNamespace.GetOr(""), name,
             clock - window.value.olderThan, !window.value.hasDuration, err, listed, deleted, log)
  {
    window := ParsePruneFlags(olderThan, name, parseDuration);
    err, listed, deleted, log := PruneSelected(store, kubeNamespace.GetOr(""), window, name, clock);
  }

  /** The prune command once the flags have been read: a flag error is
    * reported before the store is touched; a window prunes. */
  method PruneSelected(store: Records.RecordStore, namespace: string, window: Result<PruneWindow, CliError>,
                       name: string, clock: int)
    returns (err: Option<CliError>, ghost listed: seq<Records.TrashedResource>, ghost deleted: set<Records.Key>,
             ghost log: seq<Records.Request>)
    requires store.Valid()
    modifies store
    ensures store.Valid()
    ensures window.Failure? ==>
      err == Some(window.error) && store.records == old(store.records) && store.refused == old(store.refused)
    ensures store.refused == old(store.refused) + log
    ensures window.Success? ==>
      Pruned(old(store.records), store.records, namespace, name,
             clock - window.value.olderThan, !window.value.hasDuration, err, listed, deleted, log)
  {
    if window.Failure? {
      return Some(window.error), [], {}, [];
    }
    var count;
    err, count, listed, deleted, log := PruneResources(store, namespace, window.value.olderThan,
                                                  window.value.hasDuration, name, clock);
  }

  // ---------------------------------------------------------------------
  // Restore
  // ---------------------------------------------------------------------

  /** The identity the API server checks AlreadyExists against: the group
    * and kind (which pick the resource), namespace and name. Two versions
    * of one group serve the same stored object, so the version is not part
    * of it. */
  datatype ObjectKey = ObjectKey(group: string, kind: string, namespace: string, name: string)

  /** A top-level string field, "" when absent or not a string. */
  function StrField(tree: Manifest.Tree, k: string): string {
    if k in tree && tree[k].Str? then tree[k].s else ""
  }

  /** A string field of metadata, "" when absent or not a string. */
  function MetaField(tree: Manifest.Tree, k: string): string {
    if "metadata" in tree && tree["metadata"].Object? && k in tree["metadata"].fields
       && tree["metadata"].fields[k].Str?
    then tree["metadata"].fields[k].s
    else ""
  }

  function ObjectKeyOf(tree: Manifest.Tree): ObjectKey {
    ObjectKey(Manifest.ParseGroupVersion(StrField(tree, "apiVersion")).0, StrField(tree, "kind"),
              MetaField(tree, "namespace"), MetaField(tree, "name"))
  }

  /** unstructured.RemoveNestedField(obj, "metadata", field): delete the
    * field when metadata is an object, otherwise change nothing. */
  function RemoveMetadataField(tree: Manifest.Tree, field: string): Manifest.Tree {
    if "metadata" in tree && tree["metadata"].Object? then
      tree["metadata" := Manifest.Object(tree["metadata"].fields - {field})]
    else tree
  }

  /** SetUID("") and SetResourceVersion(""): both remove their field. */
  function ClearIdentity(tree: Manifest.Tree): Manifest.Tree {
    RemoveMetadataField(RemoveMetadataField(tree, "uid"), "resourceVersion")
  }

  /** The object a record's data restores to, `None` when it does not decode. */
  function RestoredObject(data: string, codecs: Manifest.Codecs): Option<Manifest.Tree> {
    match codecs.decode(data)
    case None => None
    case Some(t) => Some(ClearIdentity(t))
  }

  /** The object restoring the record under `key` creates: `None` when no
    * record has that key or its data does not decode. */
  function RestoreTarget(rs: seq<Records.TrashedResource>, key: Records.Key, codecs: Manifest.Codecs)
    : Option<Manifest.Tree>
  {
    match Records.Find(rs, key)
    case None => None
    case Some(tr) => RestoredObject(tr.data, codecs)
  }

  /** The cluster's live objects, as far as restore creates them. `refused`
    * logs the keys of the creates the server refused. */
  class LiveStore {
    var objects: map<ObjectKey, Manifest.Tree>
    ghost var refused: seq<ObjectKey>

    constructor (initial: map<ObjectKey, Manifest.Tree>)
      ensures objects == initial && refused == []
    {
      objects := initial;
      refused := [];
    }

    /** Create an object; an object with the same key is AlreadyExists, and
      * the server may refuse for reasons outside this model, which it does
      * before it looks the key up. */
    method Create(obj: Manifest.Tree) returns (err: Option<Records.StoreError>)
      modifies this
      ensures err == Some(Records.AlreadyExists) ==> ObjectKeyOf(obj) in old(objects)
      ensures ObjectKeyOf(obj) in old(objects) ==> err.Some?
      ensures err.Some? ==> err == Some(Records.AlreadyExists) || err == Some(Records.Refused)
      ensures err.Some? ==> objects == old(objects)
      ensures err.None? ==> ObjectKeyOf(obj) !in old(objects) && objects == old(objects)[ObjectKeyOf(obj) := obj]
      ensures refused == old(refused) + (if err == Some(Records.Refused) then [ObjectKeyOf(obj)] else [])
    {
      var key := ObjectKeyOf(obj);
      var refuse: bool := *;
      if refuse {
        refused := refused + [key];
        return Some(Records.Refused);
      }
      if key in objects {
        return Some(Records.AlreadyExists);
      }
      objects := objects[key := obj];
      err := None;
    }
  }

  datatype RestoreError =
    | FetchFailed(cause: Records.StoreError)   // the record Get failed
    | DecodeFailed                              // spec.data did not decode
    | ResourceExists(key: ObjectKey)            // the object is already live
    | CreateFailed                              // any other Create failure
    | RecordDeleteFailed                        // restored, but the record stays

  /** restoreResource: fetch the record, decode its data, clear the uid and
    * resourceVersion, create the object, then delete the record. */
  method RestoreResource(records: Records.RecordStore, live: LiveStore, name: string, namespace: string,
                         codecs: Manifest.Codecs)
    returns (err: Option<RestoreError>)
    requires records.Valid()
    modifies records, live
    ensures records.Valid()
    ensures Records.Key(namespace, name) !in Records.KeysOf(old(records.records)) ==>
      err == Some(FetchFailed(Records.NotFound)) || err == Some(FetchFailed(Records.Refused))
    ensures err == Some(FetchFailed(Records.NotFound)) ==>
      Records.Key(namespace, name) !in Records.KeysOf(old(records.records))
    ensures err.Some? && !err.value.RecordDeleteFailed? ==>
      records.records == old(records.records) && live.objects == old(live.objects)
    ensures err == Some(DecodeFailed) ==>
      && Records.Find(old(records.records), Records.Key(namespace, name)).Some?
      && RestoredObject(Records.Find(old(records.records), Records.Key(namespace, name)).value.data, codecs).None?
    ensures err.Some? && err.value.ResourceExists? ==> err.value.key in old(live.objects)
    // a stored record that does not decode is reported as such
    ensures Records.Key(namespace, name) in Records.KeysOf(old(records.records)) &&
            RestoreTarget(old(records.records), Records.Key(namespace, name), codecs).None? ==>
      err == Some(DecodeFailed) || err == Some(FetchFailed(Records.Refused))
    ensures err.None? || err == Some(RecordDeleteFailed) ==>
      && Records.Find(old(records.records), Records.Key(namespace, name)).Some?
      && var data := Records.Find(old(records.records), Records.Key(namespace, name)).value.data;
      && RestoredObject(data, codecs).Some?
      && ObjectKeyOf(RestoredObject(data, codecs).value) !in old(live.objects)
      && live.objects == old(live.objects)[ObjectKeyOf(RestoredObject(data, codecs).value) := RestoredObject(data, codecs).value]
    ensures err.None? ==> records.records == Records.Without(old(records.records), {Records.Key(namespace, name)})
    ensures err == Some(RecordDeleteFailed) ==> records.records == old(records.records)
    // every failure that is not the model's own is a logged refusal
    ensures records.refused == old(records.refused) +
      (if err == Some(FetchFailed(Records.Refused)) then [Records.GetRequest(Records.Key(namespace, name))]
       else if err == Some(RecordDeleteFailed) then [Records.DeleteRequest(Records.Key(namespace, name))]
       else [])
    ensures err != Some(CreateFailed) ==> live.refused == old(live.refused)
    ensures err == Some(CreateFailed) ==>
      && RestoreTarget(old(records.records), Records.Key(namespace, name), codecs).Some?
      && live.refused ==
         old(live.refused) + [ObjectKeyOf(RestoreTarget(old(records.records), Records.Key(namespace, name), codecs).value)]
    ensures err.Some? && err.value.FetchFailed? ==> err.value.cause == Records.NotFound || err.value.cause == Records.Refused
    // a decodable record restores unless its object is live or the server refuses
    ensures RestoreTarget(old(records.records), Records.Key(namespace, name), codecs).Some? ==>
      var key := ObjectKeyOf(RestoreTarget(old(records.records), Records.Key(namespace, name), codecs).value);
      && (err.Some? && err.value.ResourceExists? ==> err.value.key == key)
      && (key in old(live.objects) ==>
            err == Some(ResourceExists(key)) || err == Some(FetchFailed(Records.Refused)) || err == Some(CreateFailed))
      && (key !in old(live.objects) ==>
            err.None? || err == Some(FetchFailed(Records.Refused)) || err == Some(CreateFailed) || err == Some(RecordDeleteFailed))
  {
    var trashed := records.Get(Records.Key(namespace, name));
    if trashed.Failure? {
      return Some(FetchFailed(trashed.error));
    }
    var decoded := codecs.decode(trashed.value.data);
    if decoded.None? {
      return Some(DecodeFailed);
    }
    var newObj := decoded.value;
    newObj := RemoveMetadataField(newObj, "uid");
    newObj := RemoveMetadataField(newObj, "resourceVersion");
    var created := live.Create(newObj);
    if created.Some? {
      if created.value == Records.AlreadyExists {
        return Some(ResourceExists(ObjectKeyOf(newObj)));
      }
      return Some(CreateFailed);
    }
    var deletedErr := records.Delete(Records.KeyOf(trashed.value));
    if deletedErr.Some? {
      return Some(RecordDeleteFailed);
    }
    return None;
  }

  // ---------------------------------------------------------------------
  // Lemmas
  // ---------------------------------------------------------------------

  /** One more listed record adds its key when it is eligible. */
  lemma EligibleKeysStep(rs: seq<Records.TrashedResource>, i: nat, cutoff: int, ignoreAge: bool)
    requires i < |rs|
    ensures EligibleKeys(rs[..i + 1], cutoff, ignoreAge) ==
      EligibleKeys(rs[..i], cutoff, ignoreAge) + (if Eligible(rs[i], cutoff, ignoreAge) then {Records.KeyOf(rs[i])} else {})
  {
    assert rs[..i + 1][..i] == rs[..i];
  }

  /** Deleting a key still present after earlier deletions adds it to the
    * deleted set. */
  lemma DeleteStep(initial: seq<Records.TrashedResource>, deleted: set<Records.Key>, k: Records.Key)
    requires k in Records.KeysOf(Records.Without(initial, deleted))
    ensures Records.Without(Records.Without(initial, deleted), {k}) == Records.Without(initial, deleted + {k})
    ensures k !in deleted && k in Records.KeysOf(initial)
    ensures |deleted + {k}| == |deleted| + 1
  {
    Records.KeysOfWithout(initial, deleted);
    Records.WithoutWithout(initial, deleted, {k});
  }

  /** The bookkeeping of the prune loop over `items`: the refused requests
    * are deletes of eligible keys, and every eligible key that was stored is
    * deleted or refused. */
  ghost predicate Accounted(items: seq<Records.TrashedResource>, cutoff: int, ignoreAge: bool,
                            initial: seq<Records.TrashedResource>, deleted: set<Records.Key>, log: seq<Records.Request>)
  {
    && deleted <= EligibleKeys(items, cutoff, ignoreAge)
    && Records.OnlyDeletes(log)
    && Records.DeleteKeys(log) <= EligibleKeys(items, cutoff, ignoreAge)
    && EligibleKeys(items, cutoff, ignoreAge) * Records.KeysOf(initial) <= deleted + Records.DeleteKeys(log)
  }

  /** One more listed record keeps the bookkeeping: it was deleted, its
    * delete was refused, or it was ineligible or no longer stored. */
  lemma AccountStep(all: seq<Records.TrashedResource>, i: nat, cutoff: int, ignoreAge: bool,
                    initial: seq<Records.TrashedResource>, deleted: set<Records.Key>, log: seq<Records.Request>,
                    deleted': set<Records.Key>, log': seq<Records.Request>)
    requires i < |all|
    requires Accounted(all[..i], cutoff, ignoreAge, initial, deleted, log)
    requires
      || (Eligible(all[i], cutoff, ignoreAge) && deleted' == deleted + {Records.KeyOf(all[i])} && log' == log)
      || (&& Eligible(all[i], cutoff, ignoreAge) && deleted' == deleted
          && log' == log + [Records.DeleteRequest(Records.KeyOf(all[i]))])
      || (&& deleted' == deleted && log' == log
          && (|| !Eligible(all[i], cutoff, ignoreAge) || Records.KeyOf(all[i]) !in Records.KeysOf(initial)
              || Records.KeyOf(all[i]) in deleted))
    ensures Accounted(all[..i + 1], cutoff, ignoreAge, initial, deleted', log')
  {
    var tr := all[i];
    var k := Records.KeyOf(tr);
    EligibleKeysStep(all, i, cutoff, ignoreAge);
    Records.DeleteKeysAppend(log, Records.DeleteRequest(k));
    var e, e' := EligibleKeys(all[..i], cutoff, ignoreAge), EligibleKeys(all[..i + 1], cutoff, ignoreAge);
    assert Records.DeleteKeys(log) <= Records.DeleteKeys(log');
    forall x | x in e' && x in Records.KeysOf(initial)
      ensures x in deleted' + Records.DeleteKeys(log')
    {
      if x in e {
        assert x in deleted + Records.DeleteKeys(log);
      }
    }
  }

  /** What the prune loop promises, over a listing of the store, is a prune. */
  lemma PrunedByLoop(before: seq<Records.TrashedResource>, after: seq<Records.TrashedResource>,
                     namespace: string, name: string, cutoff: int, ignoreAge: bool,
                     deleted: set<Records.Key>, log: seq<Records.Request>)
    requires after == Records.Without(before, deleted)
    requires Accounted(Records.ListFilter(before, namespace, name), cutoff, ignoreAge, before, deleted, log)
    ensures PrunedListing(before, after, namespace, name, cutoff, ignoreAge,
                          Records.ListFilter(before, namespace, name), deleted, log)
  {
    ListedAreStored(before, namespace, name, cutoff, ignoreAge);
  }

  /** Every eligible listed key is a stored key. */
  lemma ListedAreStored(rs: seq<Records.TrashedResource>, namespace: string, name: string, cutoff: int, ignoreAge: bool)
    ensures EligibleKeys(Records.ListFilter(rs, namespace, name), cutoff, ignoreAge) <= Records.KeysOf(rs)
  {
    EligibleKeysListed(Records.ListFilter(rs, namespace, name), cutoff, ignoreAge);
    Records.KeysOfListFilter(rs, namespace, name);
  }

  lemma SubsetCardinality<T>(a: set<T>, b: set<T>)
    requires a <= b
    ensures |a| <= |b|
  {
    assert b == a + (b - a);
  }

  /** A listing has at most as many eligible keys as records. */
  lemma EligibleKeysBound(rs: seq<Records.TrashedResource>, cutoff: int, ignoreAge: bool)
    ensures |EligibleKeys(rs, cutoff, ignoreAge)| <= |rs|
    ensures EligibleKeys(rs, cutoff, ignoreAge) <= Records.KeysOf(rs)
  {
    EligibleKeysCount(rs, cutoff, ignoreAge);
    EligibleKeysListed(rs, cutoff, ignoreAge);
  }

  lemma {:induction false} EligibleKeysCount(rs: seq<Records.TrashedResource>, cutoff: int, ignoreAge: bool)
    ensures |EligibleKeys(rs, cutoff, ignoreAge)| <= |rs|
  {
    if rs != [] {
      var init := rs[..|rs| - 1];
      var last := rs[|rs| - 1];
      var e := EligibleKeys(init, cutoff, ignoreAge);
      var t: set<Records.Key> := if Eligible(last, cutoff, ignoreAge) then {Records.KeyOf(last)} else {};
      EligibleKeysCount(init, cutoff, ignoreAge);
      assert EligibleKeys(rs, cutoff, ignoreAge) == e + t;
      assert |e + t| <= |e| + |t| by {
        assert e + t == e + (t - e);
      }
    }
  }

  lemma {:induction false} EligibleKeysListed(rs: seq<Records.TrashedResource>, cutoff: int, ignoreAge: bool)
    ensures EligibleKeys(rs, cutoff, ignoreAge) <= Records.KeysOf(rs)
  {
    if rs != [] {
      var init := rs[..|rs| - 1];
      var last := rs[|rs| - 1];
      EligibleKeysListed(init, cutoff, ignoreAge);
      assert rs == init + [last];
      Records.KeysOfAppend(init, [last]);
      assert Records.KeysOf([last]) == {Records.KeyOf(last)};
    }
  }

  /** A record is selected exactly when it is listed and eligible. */
  lemma {:induction false} EligibleKeysMembers(rs: seq<Records.TrashedResource>, cutoff: int, ignoreAge: bool, k: Records.Key)
    ensures k in EligibleKeys(rs, cutoff, ignoreAge) <==>
      exists i :: 0 <= i < |rs| && Records.KeyOf(rs[i]) == k && Eligible(rs[i], cutoff, ignoreAge)
  {
    if rs != [] {
      var n := |rs| - 1;
      var init := rs[..n];
      EligibleKeysMembers(init, cutoff, ignoreAge, k);
      if k in EligibleKeys(rs, cutoff, ignoreAge) {
        if k in EligibleKeys(init, cutoff, ignoreAge) {
          var i :| 0 <= i < |init| && Records.KeyOf(init[i]) == k && Eligible(init[i], cutoff, ignoreAge);
          assert rs[i] == init[i];
        } else {
          assert Records.KeyOf(rs[n]) == k && Eligible(rs[n], cutoff, ignoreAge);
        }
      } else {
        forall i | 0 <= i < |rs|
          ensures !(Records.KeyOf(rs[i]) == k && Eligible(rs[i], cutoff, ignoreAge))
        {
          if i < n {
            assert rs[i] == init[i];
          }
        }
      }
    }
  }

  /** Without a duration every listed record is selected. */
  lemma {:induction false} IgnoreAgeSelectsAll(rs: seq<Records.TrashedResource>, cutoff: int)
    ensures EligibleKeys(rs, cutoff, true) == Records.KeysOf(rs)
  {
    if rs != [] {
      var init := rs[..|rs| - 1];
      IgnoreAgeSelectsAll(init, cutoff);
      assert rs == init + [rs[|rs| - 1]];
      assert Records.KeysOf(rs) == Records.KeysOf(init) + {Records.KeyOf(rs[|rs| - 1])};
    }
  }

  /** The age comparison is strict: a record created exactly at the cutoff
    * is kept, and with a zero duration only records created before now go. */
  lemma AgeIsStrict(r: Records.TrashedResource, clock: int, olderThan: int)
    ensures r.createdAt == clock - olderThan ==> !Eligible(r, clock - olderThan, false)
    ensures Eligible(r, clock - 0, false) <==> r.createdAt < clock
  {
  }

  /** How the flags decide: only the two selector errors exist, the missing
    * selector is reported exactly when both flags are empty, a duration is in
    * force exactly when --older-than was given, and without one the window
    * is zero. */
  lemma PruneWindowCases(olderThan: string, name: string, parseDuration: string -> Option<int>)
    ensures var r := PruneWindowOf(olderThan, name, parseDuration);
      && (r.Failure? ==> r.error == MissingSelector || r.error == InvalidDuration)
      && (r.Failure? && r.error == MissingSelector <==> olderThan == "" && name == "")
      && (r.Success? ==> (r.value.hasDuration <==> olderThan != ""))
      && (r.Success? && olderThan == "" ==> r.value.olderThan == 0)
  {
  }

  /** Without either flag the command fails before touching the store. */
  lemma MissingSelectorRejected(parseDuration: string -> Option<int>)
    ensures PruneWindowOf("", "", parseDuration) == Failure(MissingSelector)
  {
  }

  /** A name alone selects by name and ignores age. */
  lemma NameOnlyIgnoresAge(name: string, parseDuration: string -> Option<int>)
    requires name != ""
    ensures PruneWindowOf("", name, parseDuration) == Success(PruneWindow(0, false))
  {
  }

  /** "Nd", which ParseDuration rejects, is read as N times 24 hours; within
    * the Duration range that is exactly 24 times the hours. */
  lemma DaySuffix(n: string, name: string, hours: int, parseDuration: string -> Option<int>)
    requires parseDuration(n + "d") == None && parseDuration(n + "h") == Some(hours)
    requires Dates.MinInt64 <= hours * 24 <= Dates.MaxInt64
    ensures PruneWindowOf(n + "d", name, parseDuration) == Success(PruneWindow(24 * hours, true))
  {
    assert (n + "d")[..|n + "d"| - 1] == n;
  }

  /** A duration that neither parses nor ends in 'd' is rejected. */
  lemma InvalidDurationRejected(olderThan: string, name: string, parseDuration: string -> Option<int>)
    requires olderThan != "" && parseDuration(olderThan) == None && !HasDaySuffix(olderThan)
    ensures PruneWindowOf(olderThan, name, parseDuration) == Failure(InvalidDuration)
  {
  }

  /** Clearing the identity removes uid and resourceVersion from an object
    * metadata and changes nothing else, so the object keeps its key. */
  lemma ClearIdentityEffect(tree: Manifest.Tree)
    ensures var c := ClearIdentity(tree);
      && c.Keys == tree.Keys
      && (forall k :: k in tree && k != "metadata" ==> c[k] == tree[k])
      && ("metadata" in tree && tree["metadata"].Object? ==>
            c["metadata"] == Manifest.Object(tree["metadata"].fields - {"uid", "resourceVersion"}))
      && ("metadata" in tree && !tree["metadata"].Object? ==> c["metadata"] == tree["metadata"])
      && ObjectKeyOf(c) == ObjectKeyOf(tree)
  {
    var c := ClearIdentity(tree);
    if "metadata" in tree && tree["metadata"].Object? {
      var f := tree["metadata"].fields;
      assert c["metadata"] == Manifest.Object(f - {"uid"} - {"resourceVersion"});
      assert f - {"uid"} - {"resourceVersion"} == f - {"uid", "resourceVersion"};
    }
  }

  /** Clearing twice is clearing once. */
  lemma ClearIdentityIdempotent(tree: Manifest.Tree)
    ensures ClearIdentity(ClearIdentity(tree)) == ClearIdentity(tree)
  {
    var c := ClearIdentity(tree);
    if "metadata" in tree && tree["metadata"].Object? {
      var f := c["metadata"].fields;
      assert f - {"uid"} == f;
      assert f - {"resourceVersion"} == f;
    }
  }

  /** After a successful restore the record is gone, so restoring the same
    * name again fails with NotFound. */
  lemma RestoredRecordIsGone(rs: seq<Records.TrashedResource>, key: Records.Key)
    ensures key !in Records.KeysOf(Records.Without(rs, {key}))
    ensures Records.Find(Records.Without(rs, {key}), key).None?
  {
    Records.KeysOfWithout(rs, {key});
  }
}
