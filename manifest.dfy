/**
  * The manifest sanitizer: a deleted object, serialized to a generic
  * key/value tree, gets `kind` and `apiVersion` filled in when they are
  * missing and loses `metadata.managedFields`, before it is encoded as the
  * YAML document a trashed-resource record keeps.
  *
  * JSON and YAML encoding and decoding are library code; they are the
  * possibly-failing functions of a `Codecs` value.
  */
module Manifest {
  import opened Wrappers
  import WatchedResources

  /** A decoded JSON/YAML value. */
  datatype Value =
    | Null
    | Bool(b: bool)
    | Number(n: int)
    | Str(s: string)
    | List(items: seq<Value>)
    | Object(fields: map<string, Value>)

  /** A decoded document: the top-level object of a manifest. */
  type Tree = map<string, Value>

  /** The type identity an object reports about itself. */
  datatype GroupVersionKind = GroupVersionKind(group: string, version: string, kind: string)

  /** A live cluster object as the capture path sees it: its self-reported
    * type, its name and namespace, and the rest of its state. */
  datatype KubeObject = KubeObject(gvk: GroupVersionKind, name: string, namespace: string, body: Tree)

  /** The serialization libraries: json.Marshal of an object, json.Unmarshal
    * into a map, yaml.Marshal of a map, and the YAML-or-JSON decoder used on
    * restore. `None` is an error return. */
  datatype Codecs = Codecs(
    jsonMarshal: KubeObject -> Option<string>,
    jsonUnmarshal: string -> Option<Tree>,
    yamlMarshal: Tree -> Option<string>,
    decode: string -> Option<Tree>)

  /** "group/version", or "version" for the core group, or "" without a version. */
  function FormatApiVersion(group: string, version: string): (r: string)
    ensures r == "" <==> version == ""
  {
    if version == "" then ""
    else if group != "" then group + "/" + version
    else version
  }

  /** The index of the first '/' in `s`, `|s|` when there is none. */
  function SlashIndex(s: string): (i: nat)
    ensures i <= |s|
    ensures i < |s| ==> s[i] == '/'
    ensures forall j :: 0 <= j < i ==> s[j] != '/'
  {
    if s == [] || s[0] == '/' then 0 else 1 + SlashIndex(s[1..])
  }

  /** schema.ParseGroupVersion as GroupVersionKind() reads an apiVersion:
    * "" and "/" are empty, a string without '/' is a version of the core
    * group, one '/' splits group from version, and more than one is an
    * error, which GroupVersionKind() reads as empty. */
  function ParseGroupVersion(apiVersion: string): (gv: (string, string))
    ensures '/' !in gv.0 && '/' !in gv.1
    ensures || gv == ("", "")
            || (gv.0 == "" && gv.1 == apiVersion)
            || apiVersion == gv.0 + "/" + gv.1
  {
    var i := SlashIndex(apiVersion);
    if apiVersion == "" || apiVersion == "/" then ("", "")
    else if i == |apiVersion| then ("", apiVersion)
    else if '/' in apiVersion[i + 1..] then ("", "")
    else (apiVersion[..i], apiVersion[i + 1..])
  }

  /** The apiVersion to inject: the object's own group/version, and when it
    * reports no version, the registry's entry for its kind. */
  function ResolveApiVersion(gvk: GroupVersionKind): string {
    var own := FormatApiVersion(gvk.group, gvk.version);
    if own == "" && gvk.kind != "" then
      match WatchedResources.Resolve(gvk.kind)
      case Some(r) => FormatApiVersion(r.group, r.version)
      case None => ""
    else own
  }

  /** `tree` with `key` set to the string `value` when the key is absent and
    * the value is not empty. */
  function WithDefault(tree: Tree, key: string, value: string): Tree {
    if key !in tree && value != "" then tree[key := Str(value)] else tree
  }

  /** `tree` whose metadata object, if any, has lost managedFields. */
  function WithoutManagedFields(tree: Tree): Tree {
    if "metadata" in tree && tree["metadata"].Object? then
      tree["metadata" := Object(tree["metadata"].fields - {"managedFields"})]
    else tree
  }

  /** The sanitized tree: `kind` and `apiVersion` added when absent and
    * non-empty, and `metadata.managedFields` removed. */
  function SanitizeTree(tree: Tree, kind: string, apiVersion: string): Tree {
    WithoutManagedFields(WithDefault(WithDefault(tree, "kind", kind), "apiVersion", apiVersion))
  }

  /** json.Marshal followed by json.Unmarshal into a map. */
  function ObjectTree(obj: KubeObject, codecs: Codecs): Option<Tree> {
    match codecs.jsonMarshal(obj)
    case None => None
    case Some(j) => codecs.jsonUnmarshal(j)
  }

  /** The YAML document kept for an object, `None` on a serialization error. */
  function BodyManifest(obj: KubeObject, codecs: Codecs): Option<string> {
    match ObjectTree(obj, codecs)
    case None => None
    case Some(tree) => codecs.yamlMarshal(SanitizeTree(tree, obj.gvk.kind, ResolveApiVersion(obj.gvk)))
  }

  /** makeBodyManifest: serialize, fill in kind and apiVersion, drop
    * managedFields, encode as YAML. `None` stands for the nil it returns on
    * any serialization error. */
  method MakeBodyManifest(obj: KubeObject, codecs: Codecs) returns (manifest: Option<string>)
    ensures manifest == BodyManifest(obj, codecs)
    ensures ObjectTree(obj, codecs).None? ==> manifest.None?
    ensures ObjectTree(obj, codecs).Some? ==>
      manifest == codecs.yamlMarshal(SanitizeTree(ObjectTree(obj, codecs).value, obj.gvk.kind, ResolveApiVersion(obj.gvk)))
  {
    var objectJson := codecs.jsonMarshal(obj);
    if objectJson.None? {
      return None;
    }
    var parsed := codecs.jsonUnmarshal(objectJson.value);
    if parsed.None? {
      return None;
    }
    var apiVersion := ApiVersionOf(obj.gvk);
    var objectMap := SanitizeObjectMap(parsed.value, obj.gvk.kind, apiVersion);
    manifest := codecs.yamlMarshal(objectMap);
  }

  /** The apiVersion computation of makeBodyManifest: the object's own
    * group/version, else the registry's entry for its lower-cased kind. */
  method ApiVersionOf(gvk: GroupVersionKind) returns (apiVersion: string)
    ensures apiVersion == ResolveApiVersion(gvk)
  {
    var kind := gvk.kind;
    apiVersion := "";
    if gvk.version != "" {
      if gvk.group != "" {
        apiVersion := gvk.group + "/" + gvk.version;
      } else {
        apiVersion := gvk.version;
      }
    }
    if apiVersion == "" && kind != "" {
      var rgvk := WatchedResources.Resolve(kind);
      if rgvk.Some? {
        if rgvk.value.group != "" {
          apiVersion := rgvk.value.group + "/" + rgvk.value.version;
        } else {
          apiVersion := rgvk.value.version;
        }
      }
    }
  }

  /** The in-place edits of makeBodyManifest on the decoded object map. */
  method SanitizeObjectMap(tree: Tree, kind: string, apiVersion: string) returns (objectMap: Tree)
    ensures objectMap == SanitizeTree(tree, kind, apiVersion)
  {
    objectMap := tree;
    if "kind" !in objectMap && kind != "" {
      objectMap := objectMap["kind" := Str(kind)];
    }
    if "apiVersion" !in objectMap && apiVersion != "" {
      objectMap := objectMap["apiVersion" := Str(apiVersion)];
    }
    if "metadata" in objectMap && objectMap["metadata"].Object? {
      var md := objectMap["metadata"].fields;
      md := md - {"managedFields"};
      objectMap := objectMap["metadata" := Object(md)];
    }
  }

  // ---------------------------------------------------------------------
  // Lemmas
  // ---------------------------------------------------------------------

  /** How the apiVersion is chosen. */
  lemma ResolveApiVersionCases(gvk: GroupVersionKind)
    ensures gvk.version != "" && gvk.group != "" ==> ResolveApiVersion(gvk) == gvk.group + "/" + gvk.version
    ensures gvk.version != "" && gvk.group == "" ==> ResolveApiVersion(gvk) == gvk.version
    ensures gvk.version == "" && gvk.kind != "" && WatchedResources.Resolve(gvk.kind).Some? ==>
      ResolveApiVersion(gvk) == FormatApiVersion(WatchedResources.Resolve(gvk.kind).value.group, "v1")
    ensures gvk.version == "" && (gvk.kind == "" || WatchedResources.Resolve(gvk.kind).None?) ==>
      ResolveApiVersion(gvk) == ""
  {
    var r := WatchedResources.Resolve(gvk.kind);
    if gvk.version == "" && gvk.kind != "" && r.Some? {
      WatchedResources.RegistryVersions();
      assert r.value.version == "v1";
    }
  }

  /** An apiVersion formatted from a group and a version without '/' reads
    * back as that group and version. */
  lemma FormatApiVersionParsesBack(group: string, version: string)
    requires '/' !in group && '/' !in version && version != ""
    ensures ParseGroupVersion(FormatApiVersion(group, version)) == (group, version)
  {
    var s := FormatApiVersion(group, version);
    if group != "" {
      assert s[|group|] == '/';
      assert forall j :: 0 <= j < |group| ==> s[j] == group[j];
      assert SlashIndex(s) == |group|;
      assert s[|group| + 1..] == version;
      assert s[..|group|] == group;
    }
  }

  /** An object of a registered kind always gets a non-empty apiVersion. */
  lemma RegisteredKindHasApiVersion(gvk: GroupVersionKind)
    requires gvk.version != "" || WatchedResources.Resolve(gvk.kind).Some?
    ensures ResolveApiVersion(gvk) != ""
  {
    if gvk.version == "" {
      assert gvk.kind != "" by {
        assert WatchedResources.ToLower("") == "";
        WatchedResources.RegistryKeysAre();
      }
    }
  }

  /** What sanitizing does to each key: existing `kind` and `apiVersion` are
    * never overwritten and are added only when absent and non-empty;
    * `metadata.managedFields` is removed when metadata is an object; every
    * other key is kept with its value. */
  lemma SanitizeTreeKeys(tree: Tree, kind: string, apiVersion: string)
    ensures var r := SanitizeTree(tree, kind, apiVersion);
      && ("kind" in tree ==> "kind" in r && r["kind"] == tree["kind"])
      && ("kind" !in tree ==> ("kind" in r <==> kind != "") && (kind != "" ==> r["kind"] == Str(kind)))
      && ("apiVersion" in tree ==> "apiVersion" in r && r["apiVersion"] == tree["apiVersion"])
      && ("apiVersion" !in tree ==>
            ("apiVersion" in r <==> apiVersion != "") && (apiVersion != "" ==> r["apiVersion"] == Str(apiVersion)))
      && ("metadata" in tree <==> "metadata" in r)
      && ("metadata" in tree && tree["metadata"].Object? ==>
            r["metadata"] == Object(tree["metadata"].fields - {"managedFields"}))
      && ("metadata" in tree && !tree["metadata"].Object? ==> r["metadata"] == tree["metadata"])
      && (forall k :: k != "kind" && k != "apiVersion" && k != "metadata" ==>
            (k in r <==> k in tree) && (k in tree ==> r[k] == tree[k]))
  {
  }

  /** A sanitized tree has no managedFields under an object metadata. */
  lemma SanitizedHasNoManagedFields(tree: Tree, kind: string, apiVersion: string)
    ensures var r := SanitizeTree(tree, kind, apiVersion);
      "metadata" in r && r["metadata"].Object? ==> "managedFields" !in r["metadata"].fields
  {
  }

  /** Sanitizing twice is sanitizing once. */
  lemma SanitizeIdempotent(tree: Tree, kind: string, apiVersion: string)
    ensures SanitizeTree(SanitizeTree(tree, kind, apiVersion), kind, apiVersion) == SanitizeTree(tree, kind, apiVersion)
  {
    var once := SanitizeTree(tree, kind, apiVersion);
    var twice := SanitizeTree(once, kind, apiVersion);
    assert twice.Keys == once.Keys;
    forall k | k in once
      ensures twice[k] == once[k]
    {
      if k == "metadata" && once[k].Object? {
        assert once[k].fields - {"managedFields"} == once[k].fields;
      }
    }
  }
}
