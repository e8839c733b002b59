/**
  * The domain side of capture: the retention deadline read from the
  * configuration data, and CreateOrUpdatedManifest, which turns a deleted
  * object into a TrashedResource record.
  */
module Interactions {
  import opened Wrappers
  import Dates
  import Strconv
  import WatchedResources
  import Manifest
  import Records

  const MinutesKey: string := "minutesToKeep"
  const HoursKey: string := "hoursToKeep"
  const DefaultMinutesToKeep: int := 60
  const DefaultHoursToKeep: int := 0

  /** The data of the configuration object (GetAllConfigsFromConfigMap): when
    * it cannot be read, the data is replaced by the default kinds entry alone. */
  function ConfigData(read: Option<map<string, string>>): (data: map<string, string>)
    ensures read.None? ==> MinutesKey !in data && HoursKey !in data
  {
    match read
    case None => map[WatchedResources.KindsKey := WatchedResources.DefaultKindsValue]
    case Some(d) => d
  }

  /** One retention setting: the key's value when it parses with Atoi, the
    * default when the key is absent or does not parse. */
  function RetentionSetting(data: map<string, string>, key: string, default: int): int {
    if key in data && Strconv.Atoi(data[key]).Some? then Strconv.Atoi(data[key]).value else default
  }

  /** The retention deadline: now plus the configured minutes, then hours. */
  function Deadline(data: map<string, string>, now: Dates.DateTime): Dates.DateTime {
    now.AddMinutes(RetentionSetting(data, MinutesKey, DefaultMinutesToKeep))
       .AddHours(RetentionSetting(data, HoursKey, DefaultHoursToKeep))
  }

  /** getTimetoKeepFromConfigMap: the deadline as RFC 3339 text. */
  method GetTimeToKeepFromConfigMap(data: map<string, string>, clock: int, f: Dates.TimeFormat)
    returns (keepUntil: string)
    ensures keepUntil == Dates.ToString(Deadline(data, Dates.Now(clock)), f)
  {
    var minutesToKeep := DefaultMinutesToKeep;
    var hoursToKeep := DefaultHoursToKeep;
    var dateNow := Dates.Now(clock);
    if MinutesKey in data {
      var mtk := Strconv.Atoi(data[MinutesKey]);
      if mtk.Some? {
        minutesToKeep := mtk.value;
      }
    }
    if HoursKey in data {
      var htk := Strconv.Atoi(data[HoursKey]);
      if htk.Some? {
        hoursToKeep := htk.value;
      }
    }
    keepUntil := Dates.ToString(dateNow.AddMinutes(minutesToKeep).AddHours(hoursToKeep), f);
  }

  /** The GenerateName of a domain-captured record. */
  function RecordPrefix(actionType: string, obj: Manifest.KubeObject): string {
    "trashed-" + actionType + "-" + WatchedResources.ToLower(obj.gvk.kind) + "-" + obj.name + "-"
  }

  /** CreateOrUpdatedManifest: for the "create" action, store a record holding
    * the sanitized manifest and the configured deadline. */
  method CreateOrUpdatedManifest(store: Records.RecordStore, obj: Manifest.KubeObject,
                                 configData: map<string, string>, actionType: string,
                                 clock: int, codecs: Manifest.Codecs, f: Dates.TimeFormat)
    returns (ok: bool)
    requires store.Valid()
    modifies store
    ensures store.Valid()
    ensures actionType != "create" ==> ok && store.records == old(store.records)
    ensures actionType == "create" && Manifest.BodyManifest(obj, codecs).None? ==>
      !ok && store.records == old(store.records)
    ensures !ok ==> store.records == old(store.records)
    ensures actionType == "create" && ok ==>
      && Manifest.BodyManifest(obj, codecs).Some?
      && Records.AddedRecord(old(store.records), store.records, RecordPrefix(actionType, obj), obj.namespace,
                             Manifest.BodyManifest(obj, codecs).value,
                             Dates.ToString(Deadline(configData, Dates.Now(clock)), f))
    ensures actionType == "create" && Manifest.BodyManifest(obj, codecs).Some? && !ok ==>
      || store.refused == old(store.refused) + [Records.CreateRequest(RecordPrefix(actionType, obj), obj.namespace)]
      || Records.MayCollide(old(store.records), RecordPrefix(actionType, obj), obj.namespace)
    ensures ok ==> store.refused == old(store.refused)
  {
    if actionType == "create" {
      var objectYaml := Manifest.MakeBodyManifest(obj, codecs);
      if objectYaml.None? {
        return false;
      }
      var keepUntil := GetTimeToKeepFromConfigMap(configData, clock, f);
      var err, name := store.Create(RecordPrefix(actionType, obj), obj.namespace, objectYaml.value, keepUntil);
      if err.Some? {
        return false;
      }
    }
    return true;
  }

  // ---------------------------------------------------------------------
  // Lemmas
  // ---------------------------------------------------------------------

  /** With neither setting present, records are kept for 60 minutes. */
  lemma DefaultDeadline(data: map<string, string>, now: Dates.DateTime)
    requires MinutesKey !in data && HoursKey !in data
    ensures Deadline(data, now).nanos == now.nanos + 60 * Dates.Minute
  {
  }

  /** When the configuration cannot be read, records are kept for 60 minutes. */
  lemma UnreadableConfigDeadline(now: Dates.DateTime)
    ensures Deadline(ConfigData(None), now).nanos == now.nanos + 60 * Dates.Minute
  {
    DefaultDeadline(ConfigData(None), now);
  }

  /** A setting whose value does not parse behaves as if it were absent, and
    * leaves the other setting alone. */
  lemma InvalidSettingIgnored(data: map<string, string>, key: string, now: Dates.DateTime)
    requires key == MinutesKey || key == HoursKey
    requires key in data && Strconv.Atoi(data[key]).None?
    ensures Deadline(data, now) == Deadline(data - {key}, now)
    ensures RetentionSetting(data, MinutesKey, DefaultMinutesToKeep) == RetentionSetting(data - {key}, MinutesKey, DefaultMinutesToKeep)
    ensures RetentionSetting(data, HoursKey, DefaultHoursToKeep) == RetentionSetting(data - {key}, HoursKey, DefaultHoursToKeep)
  {
  }

  /** Settings written as decimal integers give a deadline of now plus that
    * many minutes and hours. */
  lemma DeadlineOfWrittenSettings(minutes: int, hours: int, now: Dates.DateTime)
    requires Dates.MinInt64 <= minutes <= Dates.MaxInt64 && Dates.MinInt64 <= hours <= Dates.MaxInt64
    ensures var data := map[MinutesKey := Strconv.Itoa(minutes), HoursKey := Strconv.Itoa(hours)];
      Deadline(data, now).nanos == now.nanos + minutes * Dates.Minute + hours * Dates.Hour
  {
    Strconv.AtoiOfItoa(minutes);
    Strconv.AtoiOfItoa(hours);
  }

  /** A negative setting is accepted and moves the deadline before now. */
  lemma NegativeSettingAccepted(now: Dates.DateTime)
    ensures Deadline(map[MinutesKey := "-30"], now).nanos == now.nanos - 30 * Dates.Minute
  {
    assert Strconv.Itoa(-30) == "-30" by {
      assert Strconv.Digits(30) == "30";
    }
    Strconv.AtoiOfItoa(-30);
  }

  /** Larger settings never give an earlier deadline. */
  lemma DeadlineMonotone(a: map<string, string>, b: map<string, string>, now: Dates.DateTime)
    requires RetentionSetting(a, MinutesKey, DefaultMinutesToKeep) <= RetentionSetting(b, MinutesKey, DefaultMinutesToKeep)
    requires RetentionSetting(a, HoursKey, DefaultHoursToKeep) <= RetentionSetting(b, HoursKey, DefaultHoursToKeep)
    ensures Deadline(a, now).nanos <= Deadline(b, now).nanos
  {
    var ma, mb := RetentionSetting(a, MinutesKey, DefaultMinutesToKeep), RetentionSetting(b, MinutesKey, DefaultMinutesToKeep);
    var ha, hb := RetentionSetting(a, HoursKey, DefaultHoursToKeep), RetentionSetting(b, HoursKey, DefaultHoursToKeep);
    Dates.AddIsMonotone(now, ma, mb);
    Dates.AddIsMonotone(Dates.DateTime(0), ha, hb);
  }

  /** Capturing a ConfigMap whose object reports no apiVersion: the record's
    * document carries kind ConfigMap, apiVersion v1 and metadata without
    * managedFields, and by default it is kept until now plus 60 minutes. */
  lemma ConfigMapCapture(tree: Manifest.Tree, metadata: map<string, Manifest.Value>, now: Dates.DateTime)
    requires "kind" !in tree && "apiVersion" !in tree
    requires "metadata" in tree && tree["metadata"] == Manifest.Object(metadata)
    ensures var gvk := Manifest.GroupVersionKind("", "", "ConfigMap");
      var r := Manifest.SanitizeTree(tree, gvk.kind, Manifest.ResolveApiVersion(gvk));
      && Manifest.ResolveApiVersion(gvk) == "v1"
      && "kind" in r && "apiVersion" in r && "metadata" in r
      && r["kind"] == Manifest.Str("ConfigMap")
      && r["apiVersion"] == Manifest.Str("v1")
      && r["metadata"] == Manifest.Object(metadata - {"managedFields"})
    ensures Deadline(map[], now).nanos == now.nanos + 60 * Dates.Minute
  {
    WatchedResources.DefaultKindsResolve();
    var gvk := Manifest.GroupVersionKind("", "", "ConfigMap");
    assert Manifest.ResolveApiVersion(gvk) == "v1";
    Manifest.SanitizeTreeKeys(tree, gvk.kind, "v1");
  }
}
