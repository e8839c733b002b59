/**
  * The kind registry and the parsing of the `kindsTobserve` configuration
  * value: which resource kinds the operator knows how to watch, and how a
  * value such as "Deployment;Secret;ConfigMap" becomes a list of kinds.
  */
module WatchedResources {
  import opened Wrappers

  /** The API group and version of a kind (Go's ResourceGVK). */
  datatype ResourceGVK = ResourceGVK(group: string, version: string)

  /** The static registry, keyed by lower-case kind name. */
  const KnownGVKs: map<string, ResourceGVK> := map[
    "deployment"  := ResourceGVK("apps", "v1"),
    "secret"      := ResourceGVK("", "v1"),
    "configmap"   := ResourceGVK("", "v1"),
    "statefulset" := ResourceGVK("apps", "v1"),
    "daemonset"   := ResourceGVK("apps", "v1"),
    "ingress"     := ResourceGVK("networking.k8s.io", "v1"),
    "cronjob"     := ResourceGVK("batch", "v1"),
    "job"         := ResourceGVK("batch", "v1"),
    "service"     := ResourceGVK("", "v1")
  ]

  /** The configuration value used when the configuration cannot be read. */
  const DefaultKindsValue: string := "Deployment;Secret;ConfigMap"

  /** The configuration key that holds the list of kinds. */
  const KindsKey: string := "kindsTobserve"

  // ---------------------------------------------------------------------
  // Characters and case
  // ---------------------------------------------------------------------

  /** Lower-cases one character (ASCII letters only). */
  function LowerChar(c: char): char {
    if 'A' <= c <= 'Z' then (c as int + 32) as char else c
  }

  /** strings.ToLower, restricted to ASCII letters. */
  function ToLower(s: string): (r: string)
    ensures |r| == |s|
    ensures forall i :: 0 <= i < |s| ==> r[i] == LowerChar(s[i])
  {
    seq(|s|, i requires 0 <= i < |s| => LowerChar(s[i]))
  }

  /** A string already in lower case. */
  predicate IsLower(s: string) {
    forall i :: 0 <= i < |s| ==> !('A' <= s[i] <= 'Z')
  }

  /** unicode.IsSpace: the characters strings.Fields and strings.TrimSpace treat as white space. */
  predicate IsSpace(c: char) {
    || c == ' ' || c == '\t' || c == '\n' || c == '\r'
    || c == '\U{0B}' || c == '\U{0C}' || c == '\U{85}' || c == '\U{A0}'
    || c == '\U{1680}' || ('\U{2000}' <= c <= '\U{200A}')
    || c == '\U{2028}' || c == '\U{2029}' || c == '\U{202F}'
    || c == '\U{205F}' || c == '\U{3000}'
  }

  /** A character that separates kinds in the configuration value. */
  predicate IsKindSeparator(c: char) {
    c == ';' || IsSpace(c)
  }

  // ---------------------------------------------------------------------
  // The registry
  // ---------------------------------------------------------------------

  /** GetKindsToWatch: the registry, returned as it is. */
  function GetKindsToWatch(): map<string, ResourceGVK> {
    KnownGVKs
  }

  /** The registry has nine kinds, all keyed in lower case, all at version v1. */
  lemma RegistryShape()
    ensures GetKindsToWatch().Keys == RegistryKeys
    ensures |GetKindsToWatch()| == 9
    ensures forall k :: k in GetKindsToWatch() ==> IsLower(k) && GetKindsToWatch()[k].version == "v1"
  {
    RegistryKeysAre();
    RegistryKeysCount();
    assert |KnownGVKs| == |KnownGVKs.Keys|;
    RegistryKeysLower();
    RegistryVersions();
  }

  /** Every registered kind is at version v1. */
  lemma RegistryVersions()
    ensures forall k :: k in KnownGVKs ==> KnownGVKs[k].version == "v1"
  {
  }

  lemma RegistryKeysAre()
    ensures KnownGVKs.Keys == RegistryKeys
  {
  }

  lemma RegistryKeysLower()
    ensures forall k :: k in RegistryKeys ==> IsLower(k)
  {
    CoreKeysLower();
    assert IsLower("statefulset") && IsLower("daemonset") && IsLower("ingress");
    assert IsLower("cronjob") && IsLower("job");
  }

  lemma CoreKeysLower()
    ensures IsLower("deployment") && IsLower("secret") && IsLower("configmap") && IsLower("service")
  {
  }

  const RegistryKeys: set<string> := {"deployment", "secret", "configmap", "statefulset", "daemonset",
                                       "ingress", "cronjob", "job", "service"}

  lemma RegistryKeysCount()
    ensures |RegistryKeys| == 9
  {
    var a := {"deployment", "secret", "configmap", "statefulset"};
    var b := {"daemonset", "ingress", "cronjob", "job", "service"};
    assert |a| == 4;
    assert |b| == 5;
    assert a !! b;
    assert RegistryKeys == a + b;
  }

  /** Case-insensitive lookup of a kind in the registry. */
  function Resolve(kind: string): (r: Option<ResourceGVK>)
    ensures r.Some? <==> ToLower(kind) in KnownGVKs
    ensures r.Some? ==> r.value == KnownGVKs[ToLower(kind)] && r.value.version != ""
  {
    var key := ToLower(kind);
    if key in KnownGVKs then Some(KnownGVKs[key]) else None
  }

  /** The group of every registered kind. */
  lemma RegistryGroups()
    ensures forall k :: k in {"deployment", "statefulset", "daemonset"} ==> KnownGVKs[k].group == "apps"
    ensures forall k :: k in {"job", "cronjob"} ==> KnownGVKs[k].group == "batch"
    ensures KnownGVKs["ingress"].group == "networking.k8s.io"
    ensures forall k :: k in {"secret", "configmap", "service"} ==> KnownGVKs[k].group == ""
  {
  }

  /** Looking a kind up ignores letter case: every spelling that lower-cases
    * to a registered key resolves to that key's entry. */
  lemma ResolveIgnoresCase(kind: string, key: string)
    requires key in KnownGVKs && ToLower(kind) == key
    ensures Resolve(kind) == Some(KnownGVKs[key])
    ensures Resolve(kind).value.version == "v1"
  {
  }

  /** The three default kinds resolve, as written with capitals. */
  lemma DefaultKindsResolve()
    ensures Resolve("Deployment") == Some(ResourceGVK("apps", "v1"))
    ensures Resolve("Secret") == Some(ResourceGVK("", "v1"))
    ensures Resolve("ConfigMap") == Some(ResourceGVK("", "v1"))
  {
    assert ToLower("Deployment") == "deployment";
    assert ToLower("Secret") == "secret";
    assert ToLower("ConfigMap") == "configmap";
  }

  // ---------------------------------------------------------------------
  // strings.Split, strings.Join, strings.Fields, strings.TrimSpace
  // ---------------------------------------------------------------------

  /** strings.Split with a one-character separator: n separators give n+1
    * parts, and the empty string gives one empty part. */
  function Split(s: string, sep: char): (parts: seq<string>)
    ensures |parts| >= 1
    ensures forall p :: p in parts ==> sep !in p
  {
    if s == [] then [""]
    else
      var rest := Split(s[1..], sep);
      if s[0] == sep then [""] + rest
      else [[s[0]] + rest[0]] + rest[1..]
  }

  /** strings.Join. */
  function Join(parts: seq<string>, delim: string): string {
    if |parts| == 0 then ""
    else if |parts| == 1 then parts[0]
    else parts[0] + delim + Join(parts[1..], delim)
  }

  /** Every occurrence of `a` in `s` replaced by `b`. */
  function ReplaceChar(s: string, a: char, b: char): (r: string)
    ensures |r| == |s|
  {
    if s == [] then [] else [if s[0] == a then b else s[0]] + ReplaceChar(s[1..], a, b)
  }

  /** Length of the run of non-space characters at the start of `s`. */
  function WordLength(s: string): (n: nat)
    ensures n <= |s|
    ensures forall i :: 0 <= i < n ==> !IsSpace(s[i])
    ensures n < |s| ==> IsSpace(s[n])
  {
    if s == [] || IsSpace(s[0]) then 0 else 1 + WordLength(s[1..])
  }

  /** strings.Fields: the maximal runs of non-space characters, in order. */
  function Fields(s: string): seq<string>
    decreases |s|
  {
    if s == [] then []
    else if IsSpace(s[0]) then Fields(s[1..])
    else
      var n := WordLength(s);
      [s[..n]] + Fields(s[n..])
  }

  function TrimLeft(s: string): string {
    if s != [] && IsSpace(s[0]) then TrimLeft(s[1..]) else s
  }

  function TrimRight(s: string): string {
    if s != [] && IsSpace(s[|s| - 1]) then TrimRight(s[..|s| - 1]) else s
  }

  /** strings.TrimSpace. */
  function TrimSpace(s: string): string {
    TrimRight(TrimLeft(s))
  }

  /** Concatenation of a list of strings. */
  function Concat(ts: seq<string>): string {
    if ts == [] then [] else ts[0] + Concat(ts[1..])
  }

  /** `s` with every white-space character removed. */
  function DropSpaces(s: string): string {
    if s == [] then [] else (if IsSpace(s[0]) then [] else [s[0]]) + DropSpaces(s[1..])
  }

  /** `s` with every kind separator (';' or white space) removed. */
  function StripSeparators(s: string): string {
    if s == [] then [] else (if IsKindSeparator(s[0]) then [] else [s[0]]) + StripSeparators(s[1..])
  }

  /** A token as the configuration may name a kind: non-empty, no separator. */
  predicate IsCleanToken(t: string) {
    t != [] && forall i :: 0 <= i < |t| ==> !IsKindSeparator(t[i])
  }

  // ---------------------------------------------------------------------
  // The kinds tokenizer
  // ---------------------------------------------------------------------

  /** The configuration value turned into kinds: split on ';', join with a
    * blank, split into fields. */
  function KindsFromValue(value: string): seq<string> {
    Fields(Join(Split(value, ';'), " "))
  }

  /** The `kindsTobserve` value: the default when the configuration cannot be
    * read, the empty string when it is read but has no such key. */
  function KindsToObserve(config: Option<map<string, string>>): (value: string)
    ensures config.None? ==> value == DefaultKindsValue
    ensures config.Some? && KindsKey !in config.value ==> value == ""
  {
    match config
    case None => DefaultKindsValue
    case Some(data) => if KindsKey in data then data[KindsKey] else ""
  }

  /** GetKindsToWatchFromConfigMap with the configuration read made a parameter. */
  function GetKindsToWatchFromConfigMap(config: Option<map<string, string>>): seq<string> {
    KindsFromValue(KindsToObserve(config))
  }

  // ---------------------------------------------------------------------
  // Lemmas: Split and Join
  // ---------------------------------------------------------------------

  lemma {:induction false} JoinConsHead(c: char, ps: seq<string>, d: string)
    requires |ps| >= 1
    ensures Join([[c] + ps[0]] + ps[1..], d) == [c] + Join(ps, d)
  {
    var qs := [[c] + ps[0]] + ps[1..];
    assert qs[1..] == ps[1..];
  }

  /** Joining the parts of a split with another one-character delimiter
    * replaces the separator by that delimiter. */
  lemma {:induction false} JoinSplitReplaces(s: string, sep: char, repl: char)
    ensures Join(Split(s, sep), [repl]) == ReplaceChar(s, sep, repl)
  {
    if s != [] {
      var rest := Split(s[1..], sep);
      JoinSplitReplaces(s[1..], sep, repl);
      if s[0] == sep {
        var ps := [""] + rest;
        assert ps[1..] == rest;
      } else {
        JoinConsHead(s[0], rest, [repl]);
      }
    }
  }

  lemma {:induction false} ReplaceCharSame(s: string, a: char)
    ensures ReplaceChar(s, a, a) == s
  {
    if s != [] {
      ReplaceCharSame(s[1..], a);
    }
  }

  /** Split is undone by Join with the same separator. */
  lemma SplitThenJoin(s: string, sep: char)
    ensures Join(Split(s, sep), [sep]) == s
  {
    JoinSplitReplaces(s, sep, sep);
    ReplaceCharSame(s, sep);
  }

  lemma {:induction false} SplitWordThenRest(w: string, sep: char, rest: string)
    requires sep !in w
    ensures Split(w + [sep] + rest, sep) == [w] + Split(rest, sep)
  {
    if w == [] {
      assert w + [sep] + rest == [sep] + rest;
      assert ([sep] + rest)[1..] == rest;
    } else {
      var s := w + [sep] + rest;
      assert s[0] == w[0];
      assert s[1..] == w[1..] + [sep] + rest;
      SplitWordThenRest(w[1..], sep, rest);
      assert [w[0]] + w[1..] == w;
    }
  }

  lemma {:induction false} SplitWord(w: string, sep: char)
    requires sep !in w
    ensures Split(w, sep) == [w]
  {
    if w != [] {
      SplitWord(w[1..], sep);
      assert [w[0]] + w[1..] == w;
    }
  }

  /** Split undoes Join, for parts that do not contain the separator. */
  lemma {:induction false} JoinThenSplit(ws: seq<string>, sep: char)
    requires |ws| >= 1
    requires forall w :: w in ws ==> sep !in w
    ensures Split(Join(ws, [sep]), sep) == ws
  {
    if |ws| == 1 {
      SplitWord(ws[0], sep);
    } else {
      assert ws[0] in ws;
      assert forall w :: w in ws[1..] ==> w in ws;
      JoinThenSplit(ws[1..], sep);
      SplitWordThenRest(ws[0], sep, Join(ws[1..], [sep]));
      assert [ws[0]] + ws[1..] == ws;
    }
  }

  // ---------------------------------------------------------------------
  // Lemmas: Fields
  // ---------------------------------------------------------------------

  lemma {:induction false} DropSpacesAppend(a: string, b: string)
    ensures DropSpaces(a + b) == DropSpaces(a) + DropSpaces(b)
  {
    if a != [] {
      assert (a + b)[0] == a[0];
      assert (a + b)[1..] == a[1..] + b;
      DropSpacesAppend(a[1..], b);
    } else {
      assert a + b == b;
    }
  }

  lemma {:induction false} DropSpacesOfWord(w: string)
    requires forall i :: 0 <= i < |w| ==> !IsSpace(w[i])
    ensures DropSpaces(w) == w
  {
    if w != [] {
      DropSpacesOfWord(w[1..]);
      assert [w[0]] + w[1..] == w;
    }
  }

  /** Fields loses only white space: concatenated, its tokens are the input
    * without its white space, in the input's order. */
  lemma {:induction false} FieldsConcat(s: string)
    ensures Concat(Fields(s)) == DropSpaces(s)
    decreases |s|
  {
    if s != [] {
      if IsSpace(s[0]) {
        FieldsConcat(s[1..]);
      } else {
        var n := WordLength(s);
        FieldsConcat(s[n..]);
        var ts := [s[..n]] + Fields(s[n..]);
        assert ts[1..] == Fields(s[n..]);
        assert s == s[..n] + s[n..];
        DropSpacesAppend(s[..n], s[n..]);
        DropSpacesOfWord(s[..n]);
      }
    }
  }

  /** Every token of Fields is non-empty, free of white space and made of
    * characters of the input. */
  lemma {:induction false} FieldsTokens(s: string)
    ensures forall t :: t in Fields(s) ==>
      t != [] && forall i :: 0 <= i < |t| ==> !IsSpace(t[i]) && t[i] in s
    decreases |s|
  {
    if s != [] {
      if IsSpace(s[0]) {
        FieldsTokens(s[1..]);
        assert forall c :: c in s[1..] ==> c in s;
      } else {
        var n := WordLength(s);
        FieldsTokens(s[n..]);
        assert forall c :: c in s[n..] ==> c in s;
        assert forall c :: c in s[..n] ==> c in s;
      }
    }
  }

  lemma FieldsWordThenRest(w: string, rest: string)
    requires w != [] && forall i :: 0 <= i < |w| ==> !IsSpace(w[i])
    ensures Fields(w + " " + rest) == [w] + Fields(rest)
  {
    var s := w + " " + rest;
    assert forall i :: 0 <= i < |w| ==> s[i] == w[i];
    assert s[|w|] == ' ';
    WordLengthOfPrefix(s, |w|);
    assert s[..|w|] == w;
    assert s[|w|..] == [' '] + rest;
    assert ([' '] + rest)[1..] == rest;
  }

  lemma {:induction false} FieldsOfJoin(ws: seq<string>)
    requires forall w :: w in ws ==> w != [] && forall i :: 0 <= i < |w| ==> !IsSpace(w[i])
    ensures Fields(Join(ws, " ")) == ws
  {
    if |ws| == 1 {
      var w := ws[0];
      assert w in ws;
      assert WordLength(w) == |w|;
      assert w[..|w|] == w;
      assert w[|w|..] == [];
    } else if |ws| > 1 {
      var w := ws[0];
      assert w in ws;
      assert forall v :: v in ws[1..] ==> v in ws;
      FieldsOfJoin(ws[1..]);
      FieldsWordThenRest(w, Join(ws[1..], " "));
      assert [w] + ws[1..] == ws;
    }
  }

  lemma {:induction false} WordLengthOfPrefix(s: string, n: nat)
    requires n < |s| && IsSpace(s[n])
    requires forall i :: 0 <= i < n ==> !IsSpace(s[i])
    ensures WordLength(s) == n
  {
    if n > 0 {
      WordLengthOfPrefix(s[1..], n - 1);
    }
  }

  // ---------------------------------------------------------------------
  // Lemmas: the kinds tokenizer
  // ---------------------------------------------------------------------

  lemma {:induction false} StripIsDropOfReplace(s: string)
    ensures DropSpaces(ReplaceChar(s, ';', ' ')) == StripSeparators(s)
  {
    if s != [] {
      StripIsDropOfReplace(s[1..]);
    }
  }

  lemma {:induction false} NoSemicolonAfterReplace(s: string)
    ensures ';' !in ReplaceChar(s, ';', ' ')
  {
    if s != [] {
      NoSemicolonAfterReplace(s[1..]);
    }
  }

  lemma {:induction false} ConcatEmpty(ts: seq<string>)
    requires forall t :: t in ts ==> t != []
    ensures Concat(ts) == [] <==> ts == []
  {
    if ts != [] {
      assert ts[0] in ts;
    }
  }

  lemma {:induction false} StripEmpty(s: string)
    ensures StripSeparators(s) == [] <==> forall i :: 0 <= i < |s| ==> IsKindSeparator(s[i])
  {
    if s != [] {
      StripEmpty(s[1..]);
      if IsKindSeparator(s[0]) {
        assert forall i :: 1 <= i < |s| ==> s[i] == s[1..][i - 1];
      }
    }
  }

  /** What the tokenizer promises: every kind it returns is a non-empty token
    * free of ';' and white space; read left to right, the kinds spell the
    * value with its separators removed; and it returns nothing exactly when
    * the value holds nothing but separators. */
  lemma KindsFromValueTokens(value: string)
    ensures forall t :: t in KindsFromValue(value) ==> IsCleanToken(t)
    ensures Concat(KindsFromValue(value)) == StripSeparators(value)
    ensures KindsFromValue(value) == [] <==>
      forall i :: 0 <= i < |value| ==> IsKindSeparator(value[i])
  {
    var joined := Join(Split(value, ';'), " ");
    JoinSplitReplaces(value, ';', ' ');
    assert joined == ReplaceChar(value, ';', ' ');
    NoSemicolonAfterReplace(value);
    FieldsTokens(joined);
    FieldsConcat(joined);
    StripIsDropOfReplace(value);
    ConcatEmpty(Fields(joined));
    StripEmpty(value);
  }

  /** Tokenizing a ';'-joined list of clean kind names gives the list back. */
  lemma KindsOfJoinedList(ws: seq<string>)
    requires |ws| >= 1
    requires forall w :: w in ws ==> IsCleanToken(w)
    ensures KindsFromValue(Join(ws, ";")) == ws
  {
    JoinThenSplit(ws, ';');
    FieldsOfJoin(ws);
  }

  /** When the configuration cannot be read, Deployment, Secret and ConfigMap
    * are watched, in that order. */
  lemma DefaultKinds()
    ensures GetKindsToWatchFromConfigMap(None) == ["Deployment", "Secret", "ConfigMap"]
  {
    var ws := ["Deployment", "Secret", "ConfigMap"];
    DefaultKindsJoined();
    DefaultKindsClean();
    KindsOfJoinedList(ws);
    assert KindsToObserve(None) == Join(ws, ";");
  }

  lemma DefaultKindsJoined()
    ensures Join(["Deployment", "Secret", "ConfigMap"], ";") == DefaultKindsValue
  {
  }

  lemma DefaultKindsClean()
    ensures forall w :: w in ["Deployment", "Secret", "ConfigMap"] ==> IsCleanToken(w)
  {
    assert IsCleanToken("Deployment") && IsCleanToken("Secret") && IsCleanToken("ConfigMap");
  }

  /** A configuration that is read but lacks the key watches nothing. */
  lemma MissingKeyWatchesNothing(data: map<string, string>)
    requires KindsKey !in data
    ensures GetKindsToWatchFromConfigMap(Some(data)) == []
  {
    assert Split("", ';') == [""];
  }

  /** TrimSpace leaves a token without white space as it is. */
  lemma TrimSpaceOfToken(t: string)
    requires forall i :: 0 <= i < |t| ==> !IsSpace(t[i])
    ensures TrimSpace(t) == t
  {
  }
}
