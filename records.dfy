/**
  * The store of TrashedResource records, as the cluster API server keeps
  * them: each record is identified by namespace and name, carries the time
  * the server created it, the manifest and the retention deadline.
  *
  * Every request can be refused by the server for reasons outside this
  * model (RBAC, admission, network); the store methods choose that outcome
  * nondeterministically and their contracts say what each outcome leaves
  * behind.
  */
module Records {
  import opened Wrappers

  /** A retained record: metadata.name, metadata.namespace,
    * metadata.creationTimestamp, spec.data and spec.keepUntil. */
  datatype TrashedResource = TrashedResource(
    name: string,
    namespace: string,
    createdAt: int,
    data: string,
    keepUntil: string)

  /** The identity of a record. */
  datatype Key = Key(namespace: string, name: string)

  datatype StoreError = NotFound | AlreadyExists | Refused

  /** Length of the random suffix the server appends to a GenerateName. */
  const SuffixLength: nat := 5

  function KeyOf(r: TrashedResource): Key {
    Key(r.namespace, r.name)
  }

  function KeysOf(rs: seq<TrashedResource>): set<Key> {
    set r | r in rs :: KeyOf(r)
  }

  /** No two records share a namespace and name. */
  predicate UniqueKeys(rs: seq<TrashedResource>) {
    forall i, j :: 0 <= i < j < |rs| ==> KeyOf(rs[i]) != KeyOf(rs[j])
  }

  /** The records whose key is not in `ks`, in their order. */
  function Without(rs: seq<TrashedResource>, ks: set<Key>): (r: seq<TrashedResource>)
    ensures |r| <= |rs|
    ensures forall x :: x in r ==> x in rs && KeyOf(x) !in ks
  {
    if rs == [] then []
    else (if KeyOf(rs[0]) in ks then [] else [rs[0]]) + Without(rs[1..], ks)
  }

  /** The record with the given key, if any. */
  function Find(rs: seq<TrashedResource>, key: Key): (r: Option<TrashedResource>)
    ensures r.Some? ==> r.value in rs && KeyOf(r.value) == key
    ensures r.None? <==> key !in KeysOf(rs)
  {
    if rs == [] then None
    else if KeyOf(rs[0]) == key then Some(rs[0])
    else Find(rs[1..], key)
  }

  /** A record passes the list options: the namespace when one is given
    * (client.InNamespace) and the exact name when one is given (a
    * metadata.name field selector). */
  predicate MatchesListOptions(r: TrashedResource, namespace: string, name: string) {
    (namespace == "" || r.namespace == namespace) && (name == "" || r.name == name)
  }

  /** What a List call returns: the records passing the options, in store order. */
  function ListFilter(rs: seq<TrashedResource>, namespace: string, name: string): (r: seq<TrashedResource>)
    ensures forall x :: x in r <==> x in rs && MatchesListOptions(x, namespace, name)
  {
    if rs == [] then []
    else (if MatchesListOptions(rs[0], namespace, name) then [rs[0]] else []) + ListFilter(rs[1..], namespace, name)
  }

  /** A name the server may give for a GenerateName: the prefix followed by
    * a suffix of SuffixLength characters. */
  predicate GeneratedFrom(name: string, prefix: string) {
    |name| == |prefix| + SuffixLength && name[..|prefix|] == prefix
  }

  /** Some record of `namespace` already has a name the server may give for
    * `prefix`, so a Create with that GenerateName can meet AlreadyExists. */
  predicate MayCollide(rs: seq<TrashedResource>, prefix: string, namespace: string) {
    exists r :: r in rs && r.namespace == namespace && GeneratedFrom(r.name, prefix)
  }

  /** `after` is `before` with one record appended whose name is `prefix`
    * followed by a server-chosen suffix, whose key was free, and which holds
    * the given namespace, data and deadline. */
  predicate AddedRecord(before: seq<TrashedResource>, after: seq<TrashedResource>,
                        prefix: string, namespace: string, data: string, keepUntil: string)
  {
    && |after| == |before| + 1 && after[..|before|] == before
    && var r := after[|before|];
    && GeneratedFrom(r.name, prefix)
    && KeyOf(r) !in KeysOf(before)
    && r.namespace == namespace && r.data == data && r.keepUntil == keepUntil
  }

  /** A request as the client sends it; the store logs the ones it refuses. */
  datatype Request =
    | GetRequest(key: Key)
    | ListRequest(namespace: string, name: string)
    | CreateRequest(generateName: string, namespace: string)
    | DeleteRequest(key: Key)

  /** Every request of the log is a delete. */
  predicate OnlyDeletes(log: seq<Request>) {
    forall i :: 0 <= i < |log| ==> log[i].DeleteRequest?
  }

  /** The keys of the delete requests of a log. */
  function DeleteKeys(log: seq<Request>): set<Key> {
    if log == [] then {}
    else
      var last := log[|log| - 1];
      DeleteKeys(log[..|log| - 1]) + (if last.DeleteRequest? then {last.key} else {})
  }

  class RecordStore {
    var records: seq<TrashedResource>
    /** The requests the server refused, oldest first. */
    ghost var refused: seq<Request>

    ghost predicate Valid()
      reads this
    {
      UniqueKeys(records)
    }

    constructor (initial: seq<TrashedResource>)
      requires UniqueKeys(initial)
      ensures Valid() && records == initial && refused == []
    {
      records := initial;
      refused := [];
    }

    /** Get a record by namespace and name. The server authorizes a request
      * before it looks the key up, so a missing key may be refused too. */
    method Get(key: Key) returns (r: Result<TrashedResource, StoreError>)
      modifies this
      ensures records == old(records)
      ensures r.Success? ==> Find(records, key) == Some(r.value)
      ensures r == Failure(NotFound) ==> key !in KeysOf(records)
      ensures key !in KeysOf(records) ==> r.Failure?
      ensures r.Failure? ==> r.error == NotFound || r.error == Refused
      ensures refused == old(refused) + (if r == Failure(Refused) then [GetRequest(key)] else [])
    {
      var refuse: bool := *;
      if refuse {
        refused := refused + [GetRequest(key)];
        return Failure(Refused);
      }
      var found := Find(records, key);
      if found.None? {
        return Failure(NotFound);
      }
      return Success(found.value);
    }

    /** List the records in a namespace ("" for all) with a name ("" for any). */
    method List(namespace: string, name: string) returns (r: Result<seq<TrashedResource>, StoreError>)
      modifies this
      ensures records == old(records)
      ensures r.Success? ==> r.value == ListFilter(records, namespace, name)
      ensures r.Failure? ==> r.error == Refused
      ensures refused == old(refused) + (if r.Failure? then [ListRequest(namespace, name)] else [])
    {
      var refuse: bool := *;
      if refuse {
        refused := refused + [ListRequest(namespace, name)];
        return Failure(Refused);
      }
      return Success(ListFilter(records, namespace, name));
    }

    /** Create a record from a GenerateName prefix: the server appends a random
      * suffix and stamps the creation time. A refusal comes before the name
      * is checked. */
    method Create(generateName: string, namespace: string, data: string, keepUntil: string)
      returns (err: Option<StoreError>, name: string)
      requires Valid()
      modifies this
      ensures Valid()
      ensures err.Some? ==> records == old(records)
      ensures err.Some? ==> err == Some(AlreadyExists) || err == Some(Refused)
      ensures err == Some(AlreadyExists) ==>
        Key(namespace, name) in KeysOf(old(records)) && MayCollide(old(records), generateName, namespace)
      ensures Key(namespace, name) in KeysOf(old(records)) ==> err.Some?
      ensures err.None? ==>
        AddedRecord(old(records), records, generateName, namespace, data, keepUntil) && records[|old(records)|].name == name
      ensures refused == old(refused) + (if err == Some(Refused) then [CreateRequest(generateName, namespace)] else [])
    {
      assert |"xxxxx"| == SuffixLength;
      var suffix: string :| |suffix| == SuffixLength;
      name := generateName + suffix;
      assert GeneratedFrom(name, generateName);
      var refuse: bool := *;
      if refuse {
        refused := refused + [CreateRequest(generateName, namespace)];
        return Some(Refused), name;
      }
      if Key(namespace, name) in KeysOf(records) {
        var r :| r in records && KeyOf(r) == Key(namespace, name);
        return Some(AlreadyExists), name;
      }
      var createdAt: int := *;
      var r := TrashedResource(name, namespace, createdAt, data, keepUntil);
      UniqueKeysAppend(records, r);
      records := records + [r];
      err := None;
    }

    /** Delete a record by namespace and name; as with Get, a missing key may
      * be refused before it is looked up. */
    method Delete(key: Key) returns (err: Option<StoreError>)
      requires Valid()
      modifies this
      ensures Valid()
      ensures err.None? ==> key in KeysOf(old(records)) && records == Without(old(records), {key})
      ensures err.Some? ==> records == old(records)
      ensures err == Some(NotFound) ==> key !in KeysOf(old(records))
      ensures key !in KeysOf(old(records)) ==> err.Some?
      ensures err.Some? ==> err == Some(NotFound) || err == Some(Refused)
      ensures refused == old(refused) + (if err == Some(Refused) then [DeleteRequest(key)] else [])
    {
      var refuse: bool := *;
      if refuse {
        refused := refused + [DeleteRequest(key)];
        return Some(Refused);
      }
      if key !in KeysOf(records) {
        return Some(NotFound);
      }
      WithoutKeepsUnique(records, {key});
      records := Without(records, {key});
      err := None;
    }
  }

  // ---------------------------------------------------------------------
  // Lemmas
  // ---------------------------------------------------------------------

  lemma UniqueKeysAppend(rs: seq<TrashedResource>, r: TrashedResource)
    requires UniqueKeys(rs) && KeyOf(r) !in KeysOf(rs)
    ensures UniqueKeys(rs + [r])
  {
    forall i | 0 <= i < |rs|
      ensures KeyOf(rs[i]) != KeyOf(r)
    {
      assert rs[i] in rs;
    }
  }

  lemma {:induction false} WithoutKeepsUnique(rs: seq<TrashedResource>, ks: set<Key>)
    requires UniqueKeys(rs)
    ensures UniqueKeys(Without(rs, ks))
  {
    if rs != [] {
      UniqueSplit(rs);
      WithoutKeepsUnique(rs[1..], ks);
      var tail := Without(rs[1..], ks);
      if KeyOf(rs[0]) !in ks {
        KeysOfWithout(rs[1..], ks);
        UniqueCons(rs[0], tail);
      } else {
        assert Without(rs, ks) == tail;
      }
    }
  }

  /** The first record of a store with unique keys has a key the others do not. */
  lemma UniqueSplit(rs: seq<TrashedResource>)
    requires rs != [] && UniqueKeys(rs)
    ensures UniqueKeys(rs[1..]) && KeyOf(rs[0]) !in KeysOf(rs[1..])
  {
    forall r | r in rs[1..]
      ensures KeyOf(r) != KeyOf(rs[0])
    {
      var j :| 0 <= j < |rs[1..]| && rs[1..][j] == r;
      assert rs[j + 1] == r;
    }
  }

  /** Putting a record with a fresh key in front keeps keys unique. */
  lemma UniqueCons(x: TrashedResource, tail: seq<TrashedResource>)
    requires UniqueKeys(tail) && KeyOf(x) !in KeysOf(tail)
    ensures UniqueKeys([x] + tail)
  {
    var r := [x] + tail;
    forall i, j | 0 <= i < j < |r|
      ensures KeyOf(r[i]) != KeyOf(r[j])
    {
      if i == 0 {
        assert r[j] in tail;
      } else {
        assert r[i] == tail[i - 1] && r[j] == tail[j - 1];
      }
    }
  }

  lemma KeysOfAppend(a: seq<TrashedResource>, b: seq<TrashedResource>)
    ensures KeysOf(a + b) == KeysOf(a) + KeysOf(b)
  {
    assert forall r :: r in a + b <==> r in a || r in b;
  }

  /** Removing keys removes exactly those keys. */
  lemma {:induction false} KeysOfWithout(rs: seq<TrashedResource>, ks: set<Key>)
    ensures KeysOf(Without(rs, ks)) == KeysOf(rs) - ks
  {
    if rs != [] {
      KeysOfWithout(rs[1..], ks);
      var head: seq<TrashedResource> := if KeyOf(rs[0]) in ks then [] else [rs[0]];
      var tail := Without(rs[1..], ks);
      assert Without(rs, ks) == head + tail;
      KeysOfAppend(head, tail);
      assert rs == [rs[0]] + rs[1..];
      KeysOfAppend([rs[0]], rs[1..]);
      assert KeysOf([rs[0]]) == {KeyOf(rs[0])};
    }
  }

  /** Removing one set of keys after another is removing both at once. */
  lemma {:induction false} WithoutWithout(rs: seq<TrashedResource>, a: set<Key>, b: set<Key>)
    ensures Without(Without(rs, a), b) == Without(rs, a + b)
  {
    if rs != [] {
      WithoutWithout(rs[1..], a, b);
      if KeyOf(rs[0]) !in a {
        var r := [rs[0]] + Without(rs[1..], a);
        assert r[0] == rs[0] && r[1..] == Without(rs[1..], a);
      } else {
        assert Without(rs, a) == Without(rs[1..], a);
      }
    }
  }

  /** Removing no key changes nothing. */
  lemma {:induction false} WithoutNothing(rs: seq<TrashedResource>)
    ensures Without(rs, {}) == rs
  {
    if rs != [] {
      WithoutNothing(rs[1..]);
      assert [rs[0]] + rs[1..] == rs;
    }
  }

  /** With no namespace and no name, a List returns every record. */
  lemma {:induction false} ListWithoutOptionsIsAll(rs: seq<TrashedResource>)
    ensures ListFilter(rs, "", "") == rs
  {
    if rs != [] {
      ListWithoutOptionsIsAll(rs[1..]);
      assert [rs[0]] + rs[1..] == rs;
    }
  }

  /** A listing keeps the store's key uniqueness. */
  lemma {:induction false} ListFilterKeepsUnique(rs: seq<TrashedResource>, namespace: string, name: string)
    requires UniqueKeys(rs)
    ensures UniqueKeys(ListFilter(rs, namespace, name))
  {
    if rs != [] {
      UniqueSplit(rs);
      ListFilterKeepsUnique(rs[1..], namespace, name);
      var tail := ListFilter(rs[1..], namespace, name);
      if MatchesListOptions(rs[0], namespace, name) {
        assert KeysOf(tail) <= KeysOf(rs[1..]);
        UniqueCons(rs[0], tail);
      } else {
        assert ListFilter(rs, namespace, name) == tail;
      }
    }
  }

  /** One more request adds its key when it is a delete. */
  lemma DeleteKeysAppend(log: seq<Request>, r: Request)
    ensures DeleteKeys(log + [r]) == DeleteKeys(log) + (if r.DeleteRequest? then {r.key} else {})
  {
    assert (log + [r])[..|log|] == log;
  }

  /** A listing holds only stored keys. */
  lemma KeysOfListFilter(rs: seq<TrashedResource>, namespace: string, name: string)
    ensures KeysOf(ListFilter(rs, namespace, name)) <= KeysOf(rs)
  {
  }
}
