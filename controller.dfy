/**
  * The controller's capture path: the event filter that turns deletions of
  * watched objects into TrashedResource records, and the setup that decides
  * which kinds are watched from the configuration.
  *
  * The controller keeps its own copy of the kind registry with the same nine
  * entries as WatchedResources.KnownGVKs, and its own copy of the manifest
  * sanitizer with the same steps as Manifest.MakeBodyManifest; the model uses
  * the one definition of each.
  */
module Controller {
  import opened Wrappers
  import Dates
  import WatchedResources
  import Manifest
  import Records

  /** Name of the configuration object, read from namespace "system". */
  const ConfigName: string := "trashedresources-config"

  /** Records made by the controller are kept for a fixed 24 hours. */
  const RetentionHours: int := 24

  /** The type identity of the record kind itself. */
  const TrashedResourceGVK: Manifest.GroupVersionKind :=
    Manifest.GroupVersionKind("mox.app.br", "v1alpha1", "TrashedResource")

  /** The events the manager hands to the event filter. */
  datatype Event =
    | CreateEvent(obj: Manifest.KubeObject)
    | UpdateEvent(objOld: Manifest.KubeObject, objNew: Manifest.KubeObject)
    | DeleteEvent(obj: Manifest.KubeObject)
    | GenericEvent(obj: Manifest.KubeObject)

  /** The GenerateName of a controller-captured record. */
  function RecordPrefix(obj: Manifest.KubeObject): string {
    "trashed-" + WatchedResources.ToLower(obj.gvk.kind) + "-" + obj.name + "-"
  }

  /** The deadline of a controller-captured record: now plus 24 hours. */
  function KeepUntil(clock: int, f: Dates.TimeFormat): string {
    Dates.ToString(Dates.Now(clock).AddHours(RetentionHours), f)
  }

  /** The outcome of capturing `obj` with manifest `data`: the record was
    * added, or the store is unchanged because the Create was refused (and
    * logged) or its generated name could collide with an existing record. */
  ghost predicate Captured(before: seq<Records.TrashedResource>, after: seq<Records.TrashedResource>,
                           logBefore: seq<Records.Request>, logAfter: seq<Records.Request>,
                           obj: Manifest.KubeObject, data: string, keepUntil: string)
  {
    || (&& Records.AddedRecord(before, after, RecordPrefix(obj), obj.namespace, data, keepUntil)
        && logAfter == logBefore)
    || (&& after == before
        && (|| logAfter == logBefore + [Records.CreateRequest(RecordPrefix(obj), obj.namespace)]
            || (logAfter == logBefore && Records.MayCollide(before, RecordPrefix(obj), obj.namespace))))
  }

  /** createUpdatedOrDeletedManifest: store a record holding the sanitized
    * manifest of a deleted object. Every failure is logged and swallowed, so
    * the store either gains exactly that record or is left as it was. */
  method CreateUpdatedOrDeletedManifest(store: Records.RecordStore, obj: Manifest.KubeObject,
                                        clock: int, codecs: Manifest.Codecs, f: Dates.TimeFormat)
    requires store.Valid()
    modifies store
    ensures store.Valid()
    ensures Manifest.BodyManifest(obj, codecs).None? ==>
      store.records == old(store.records) && store.refused == old(store.refused)
    ensures Manifest.BodyManifest(obj, codecs).Some? ==> Captured(old(store.records), store.records,
      old(store.refused), store.refused, obj, Manifest.BodyManifest(obj, codecs).value, KeepUntil(clock, f))
  {
    var podYaml := Manifest.MakeBodyManifest(obj, codecs);
    if podYaml.None? {
      return;
    }
    var err, name := store.Create(RecordPrefix(obj), obj.namespace, podYaml.value, KeepUntil(clock, f));
  }

  /** The DeleteFunc predicate: objects that report no kind are dropped;
    * every other deletion is captured and passed on. */
  method DeleteFunc(store: Records.RecordStore, obj: Manifest.KubeObject,
                    clock: int, codecs: Manifest.Codecs, f: Dates.TimeFormat)
    returns (pass: bool)
    requires store.Valid()
    modifies store
    ensures store.Valid()
    ensures pass <==> obj.gvk.kind != ""
    ensures !pass || Manifest.BodyManifest(obj, codecs).None? ==>
      store.records == old(store.records) && store.refused == old(store.refused)
    ensures pass && Manifest.BodyManifest(obj, codecs).Some? ==> Captured(old(store.records), store.records,
      old(store.refused), store.refused, obj, Manifest.BodyManifest(obj, codecs).value, KeepUntil(clock, f))
  {
    if obj.gvk.kind == "" {
      return false;
    }
    CreateUpdatedOrDeletedManifest(store, obj, clock, codecs, f);
    return true;
  }

  /** The event filter installed by SetupWithManager: updates are dropped,
    * deletions go through DeleteFunc, and creations and generic events pass
    * (predicate.Funcs passes every event whose function is not set). */
  method EventFilter(store: Records.RecordStore, e: Event,
                     clock: int, codecs: Manifest.Codecs, f: Dates.TimeFormat)
    returns (pass: bool)
    requires store.Valid()
    modifies store
    ensures store.Valid()
    ensures pass <==> PassesFilter(e)
    ensures !(e.DeleteEvent? && pass && Manifest.BodyManifest(e.obj, codecs).Some?) ==>
      store.records == old(store.records) && store.refused == old(store.refused)
    ensures e.DeleteEvent? && pass && Manifest.BodyManifest(e.obj, codecs).Some? ==>
      Captured(old(store.records), store.records, old(store.refused), store.refused,
               e.obj, Manifest.BodyManifest(e.obj, codecs).value, KeepUntil(clock, f))
  {
    match e
    case UpdateEvent(_, _) => pass := false;
    case DeleteEvent(obj) => pass := DeleteFunc(store, obj, clock, codecs, f);
    case CreateEvent(_) => pass := true;
    case GenericEvent(_) => pass := true;
  }

  /** Which events the filter lets through to the reconciler. */
  predicate PassesFilter(e: Event) {
    match e
    case UpdateEvent(_, _) => false
    case DeleteEvent(obj) => obj.gvk.kind != ""
    case CreateEvent(_) => true
    case GenericEvent(_) => true
  }

  // ---------------------------------------------------------------------
  // Kind resolution in SetupWithManager
  // ---------------------------------------------------------------------

  /** The watch one configured token asks for: none for a blank token or an
    * unregistered kind, otherwise the registry's group and version with the
    * kind as written. */
  function WatchOf(token: string): (w: Option<Manifest.GroupVersionKind>)
    ensures w.Some? ==> w.value.kind != "" && WatchedResources.Resolve(w.value.kind).Some?
    ensures w.Some? ==>
      && w.value.group == WatchedResources.Resolve(w.value.kind).value.group
      && w.value.version == WatchedResources.Resolve(w.value.kind).value.version
  {
    var kind := WatchedResources.TrimSpace(token);
    if kind == "" then None
    else match WatchedResources.Resolve(kind)
      case None => None
      case Some(rgvk) => Some(Manifest.GroupVersionKind(rgvk.group, rgvk.version, kind))
  }

  /** The watches for a list of tokens, in order. */
  function WatchedGVKs(tokens: seq<string>): seq<Manifest.GroupVersionKind> {
    if tokens == [] then []
    else
      var last := WatchOf(tokens[|tokens| - 1]);
      WatchedGVKs(tokens[..|tokens| - 1]) + (if last.Some? then [last.value] else [])
  }

  /** SetupWithManager: read the kinds to observe, add one watch per kind the
    * registry knows, then the watch on the record kind itself. `config` is
    * the configuration read, `None` when it failed. */
  method SetupWithManager(config: Option<map<string, string>>)
    returns (watches: seq<Manifest.GroupVersionKind>)
    ensures watches == WatchedGVKs(WatchedResources.GetKindsToWatchFromConfigMap(config)) + [TrashedResourceGVK]
  {
    var rawKinds := WatchedResources.GetKindsToWatchFromConfigMap(config);
    watches := AddWatches(rawKinds);
    watches := watches + [TrashedResourceGVK];
  }

  /** The loop of SetupWithManager over the configured tokens. */
  method AddWatches(rawKinds: seq<string>) returns (watches: seq<Manifest.GroupVersionKind>)
    ensures watches == WatchedGVKs(rawKinds)
  {
    watches := [];
    var i := 0;
    while i < |rawKinds|
      invariant 0 <= i <= |rawKinds|
      invariant watches == WatchedGVKs(rawKinds[..i])
    {
      var kind := WatchedResources.TrimSpace(rawKinds[i]);
      assert rawKinds[..i + 1][..i] == rawKinds[..i];
      assert WatchedGVKs(rawKinds[..i + 1]) ==
        WatchedGVKs(rawKinds[..i]) + (if WatchOf(rawKinds[i]).Some? then [WatchOf(rawKinds[i]).value] else []);
      if kind == "" {
        i := i + 1;
        continue;
      }
      var rgvk := WatchedResources.Resolve(kind);
      if rgvk.None? {
        i := i + 1;
        continue;
      }
      watches := watches + [Manifest.GroupVersionKind(rgvk.value.group, rgvk.value.version, kind)];
      i := i + 1;
    }
    assert rawKinds[..|rawKinds|] == rawKinds;
  }

  // ---------------------------------------------------------------------
  // Lemmas
  // ---------------------------------------------------------------------

  /** Update events never reach the reconciler; deletions do exactly when
    * the object reports a kind. */
  lemma FilterCases(obj: Manifest.KubeObject, other: Manifest.KubeObject)
    ensures !PassesFilter(UpdateEvent(obj, other))
    ensures PassesFilter(DeleteEvent(obj)) <==> obj.gvk.kind != ""
    ensures PassesFilter(CreateEvent(obj)) && PassesFilter(GenericEvent(obj))
  {
  }

  lemma {:induction false} WatchedGVKsAppend(a: seq<string>, b: seq<string>)
    ensures WatchedGVKs(a + b) == WatchedGVKs(a) + WatchedGVKs(b)
  {
    if b != [] {
      var ab := a + b;
      var init := b[..|b| - 1];
      var w := WatchOf(b[|b| - 1]);
      var t := if w.Some? then [w.value] else [];
      assert ab[..|ab| - 1] == a + init;
      assert ab[|ab| - 1] == b[|b| - 1];
      assert WatchedGVKs(ab) == WatchedGVKs(a + init) + t;
      assert WatchedGVKs(b) == WatchedGVKs(init) + t;
      WatchedGVKsAppend(a, init);
    } else {
      assert a + b == a;
    }
  }

  /** A kind is watched exactly when some configured token asks for it. */
  lemma WatchedGVKsMembers(tokens: seq<string>, g: Manifest.GroupVersionKind)
    ensures g in WatchedGVKs(tokens) <==> exists i :: 0 <= i < |tokens| && WatchOf(tokens[i]) == Some(g)
  {
    if g in WatchedGVKs(tokens) {
      WatchedGVKsSound(tokens, g);
    }
    forall i | 0 <= i < |tokens| && WatchOf(tokens[i]) == Some(g)
      ensures g in WatchedGVKs(tokens)
    {
      WatchedGVKsComplete(tokens, i);
    }
  }

  /** Every watch comes from some token. */
  lemma {:induction false} WatchedGVKsSound(tokens: seq<string>, g: Manifest.GroupVersionKind)
    requires g in WatchedGVKs(tokens)
    ensures exists i :: 0 <= i < |tokens| && WatchOf(tokens[i]) == Some(g)
  {
    var n := |tokens| - 1;
    var init := tokens[..n];
    var w := WatchOf(tokens[n]);
    if w == Some(g) {
      assert WatchOf(tokens[n]) == Some(g);
    } else {
      assert g in WatchedGVKs(init);
      WatchedGVKsSound(init, g);
      var i :| 0 <= i < |init| && WatchOf(init[i]) == Some(g);
      assert tokens[i] == init[i];
    }
  }

  /** Every token that resolves gives a watch. */
  lemma {:induction false} WatchedGVKsComplete(tokens: seq<string>, i: nat)
    requires i < |tokens| && WatchOf(tokens[i]).Some?
    ensures WatchOf(tokens[i]).value in WatchedGVKs(tokens)
  {
    var n := |tokens| - 1;
    var init := tokens[..n];
    var w := WatchOf(tokens[n]);
    assert WatchedGVKs(tokens) == WatchedGVKs(init) + (if w.Some? then [w.value] else []);
    if i < n {
      assert init[i] == tokens[i];
      WatchedGVKsComplete(init, i);
      assert WatchOf(tokens[i]).value in WatchedGVKs(init);
    } else {
      assert w == WatchOf(tokens[i]);
    }
  }

  /** No more watches than tokens, and every watch is of a registered kind
    * with the registry's group and version 1. */
  lemma {:induction false} WatchedGVKsRegistered(tokens: seq<string>)
    ensures |WatchedGVKs(tokens)| <= |tokens|
    ensures forall g :: g in WatchedGVKs(tokens) ==>
      && WatchedResources.Resolve(g.kind).Some?
      && g.group == WatchedResources.Resolve(g.kind).value.group
      && g.version == "v1"
  {
    if tokens != [] {
      WatchedGVKsRegistered(tokens[..|tokens| - 1]);
      var w := WatchOf(tokens[|tokens| - 1]);
      if w.Some? {
        WatchedResources.ResolveIgnoresCase(w.value.kind, WatchedResources.ToLower(w.value.kind));
      }
    }
  }

  /** A token naming a kind outside the registry adds no watch. */
  lemma UnknownKindIgnored(tokens: seq<string>, token: string)
    requires WatchedResources.Resolve(WatchedResources.TrimSpace(token)).None?
    ensures WatchedGVKs(tokens + [token]) == WatchedGVKs(tokens)
  {
    assert (tokens + [token])[..|tokens|] == tokens;
  }

  /** A token without white space that names a registered kind is watched
    * under the registry's group and version, with the kind as written. */
  lemma WatchOfRegisteredToken(token: string)
    requires token != [] && forall i :: 0 <= i < |token| ==> !WatchedResources.IsSpace(token[i])
    requires WatchedResources.Resolve(token).Some?
    ensures WatchOf(token) == Some(Manifest.GroupVersionKind(
      WatchedResources.Resolve(token).value.group, WatchedResources.Resolve(token).value.version, token))
  {
    WatchedResources.TrimSpaceOfToken(token);
  }

  /** The watches for the default kinds, token by token. */
  lemma DefaultKindsWatches()
    ensures WatchedGVKs(["Deployment", "Secret", "ConfigMap"]) == [
      Manifest.GroupVersionKind("apps", "v1", "Deployment"),
      Manifest.GroupVersionKind("", "v1", "Secret"),
      Manifest.GroupVersionKind("", "v1", "ConfigMap")]
  {
    WatchedResources.DefaultKindsResolve();
    WatchOfRegisteredToken("Deployment");
    WatchOfRegisteredToken("Secret");
    WatchOfRegisteredToken("ConfigMap");
    WatchedGVKsOfThree("Deployment", "Secret", "ConfigMap");
  }

  /** Three tokens that each resolve give three watches, in order. */
  lemma WatchedGVKsOfThree(a: string, b: string, c: string)
    requires WatchOf(a).Some? && WatchOf(b).Some? && WatchOf(c).Some?
    ensures WatchedGVKs([a, b, c]) == [WatchOf(a).value, WatchOf(b).value, WatchOf(c).value]
  {
    assert WatchedGVKs([a]) == [WatchOf(a).value] by {
      assert [a][..0] == [];
    }
    assert WatchedGVKs([a, b]) == [WatchOf(a).value, WatchOf(b).value] by {
      assert [a, b][..1] == [a];
    }
    assert [a, b, c][..2] == [a, b];
  }

  /** Without a readable configuration the controller watches Deployments,
    * Secrets and ConfigMaps, then its own records. */
  lemma DefaultWatches()
    ensures WatchedGVKs(WatchedResources.GetKindsToWatchFromConfigMap(None)) + [TrashedResourceGVK] == [
      Manifest.GroupVersionKind("apps", "v1", "Deployment"),
      Manifest.GroupVersionKind("", "v1", "Secret"),
      Manifest.GroupVersionKind("", "v1", "ConfigMap"),
      TrashedResourceGVK]
  {
    WatchedResources.DefaultKinds();
    DefaultKindsWatches();
  }

  /** A configuration read without a `kindsTobserve` key leaves only the
    * watch on the record kind. */
  lemma MissingKeyWatchesOnlyRecords(data: map<string, string>)
    requires WatchedResources.KindsKey !in data
    ensures WatchedGVKs(WatchedResources.GetKindsToWatchFromConfigMap(Some(data))) + [TrashedResourceGVK] ==
      [TrashedResourceGVK]
  {
    WatchedResources.MissingKeyWatchesNothing(data);
  }

  /** The record's deadline is 24 hours after the clock, to the second. */
  lemma KeepUntilIsADayLater(clock: int, now: Dates.DateTime, f: Dates.TimeFormat)
    requires Dates.IsRfc3339(f) && Dates.InRfc3339Range(clock + 24 * Dates.Hour)
    ensures Dates.GetTimeRemaining(KeepUntil(clock, f), now, f) ==
      Dates.SaturateInt64(Dates.TruncateToSecond(clock + 24 * Dates.Hour) - now.nanos)
  {
    Dates.CompareRenderedDate(Dates.Now(clock).AddHours(RetentionHours), now, f);
  }
}
