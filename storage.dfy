/**
  The storage engine: a map from key to a three-way value, updated in place by
  `set`, `del` and `setPairs`, read by `get` and walked by `visitAll`.
  Locking is not modelled: every call runs alone.
 */
module StorageEngine {
  import opened Wrappers

  /** What a key holds: a scalar string, a list of strings or a string-to-string map. */
  datatype Value =
    | Scalar(text: string)
    | List(items: seq<string>)
    | Hash(fields: map<string, string>)

  type Store = map<string, Value>

  // ---------------------------------------------------------------------------
  // Emplacing pairs one after another into an empty map (unordered_map::emplace
  // never overwrites a key that is already there)
  // ---------------------------------------------------------------------------

  /** The map obtained by emplacing the pairs of `ps`, in order, into an empty map. */
  function FirstWins<K(==), V>(ps: seq<(K, V)>): map<K, V>
    decreases |ps|
  {
    if ps == [] then map[]
    else
      var m := FirstWins(ps[..|ps| - 1]);
      var p := ps[|ps| - 1];
      if p.0 in m then m else m[p.0 := p.1]
  }

  /** Emplacing one more pair: it is kept only if its key is new. */
  lemma FirstWinsAppend<K, V>(ps: seq<(K, V)>, p: (K, V))
    ensures FirstWins(ps + [p]) == if p.0 in FirstWins(ps) then FirstWins(ps) else FirstWins(ps)[p.0 := p.1]
  {
    assert (ps + [p])[..|ps|] == ps;
  }

  /** The keys that occur in `ps`. */
  function KeysOf<K(==), V>(ps: seq<(K, V)>): set<K>
  {
    set i | 0 <= i < |ps| :: ps[i].0
  }

  /** No key occurs twice in `ps`. */
  predicate DistinctKeys<K(==), V>(ps: seq<(K, V)>)
  {
    forall i, j :: 0 <= i < j < |ps| ==> ps[i].0 != ps[j].0
  }

  /** `ps` names every entry of `m` exactly once, in some order. */
  ghost predicate Lists<K, V>(ps: seq<(K, V)>, m: map<K, V>)
  {
    && DistinctKeys(ps)
    && KeysOf(ps) == m.Keys
    && |ps| == |m|
    && forall i :: 0 <= i < |ps| ==> ps[i].0 in m && m[ps[i].0] == ps[i].1
  }

  /** `ps` lists the entries of `m` whose keys are not in `rest`, each exactly once. */
  ghost predicate ListsExcept<K, V>(ps: seq<(K, V)>, m: map<K, V>, rest: set<K>)
  {
    && rest <= m.Keys
    && DistinctKeys(ps)
    && KeysOf(ps) == m.Keys - rest
    && |ps| + |rest| == |m|
    && forall i :: 0 <= i < |ps| ==> ps[i].0 in m && m[ps[i].0] == ps[i].1
  }

  /** Visiting one more unvisited key extends a partial listing. */
  lemma ListsExceptStep<K, V>(ps: seq<(K, V)>, m: map<K, V>, rest: set<K>, k: K)
    requires ListsExcept(ps, m, rest) && k in rest
    ensures ListsExcept(ps + [(k, m[k])], m, rest - {k})
  {
    var p := (k, m[k]);
    assert k !in KeysOf(ps);
    assert |rest - {k}| == |rest| - 1;
    KeysOfAppend(ps, p);
    AppendNewKey(ps, p);
    AppendEntryOf(ps, m, p);
  }

  /** A pair whose key is new keeps the keys distinct. */
  lemma AppendNewKey<K, V>(ps: seq<(K, V)>, p: (K, V))
    requires DistinctKeys(ps) && p.0 !in KeysOf(ps)
    ensures DistinctKeys(ps + [p])
  {
    var qs := ps + [p];
    forall i, j | 0 <= i < j < |qs|
      ensures qs[i].0 != qs[j].0
    {
      if j == |ps| {
        assert qs[i].0 in KeysOf(ps);
      } else {
        assert qs[i] == ps[i] && qs[j] == ps[j];
      }
    }
  }

  /** Appending an entry of `m` to entries of `m` gives entries of `m`. */
  lemma AppendEntryOf<K, V>(ps: seq<(K, V)>, m: map<K, V>, p: (K, V))
    requires forall i :: 0 <= i < |ps| ==> ps[i].0 in m && m[ps[i].0] == ps[i].1
    requires p.0 in m && m[p.0] == p.1
    ensures forall i :: 0 <= i < |ps + [p]| ==> (ps + [p])[i].0 in m && m[(ps + [p])[i].0] == (ps + [p])[i].1
  {
    var qs := ps + [p];
    assert forall i :: 0 <= i < |ps| ==> qs[i] == ps[i];
  }

  /** A partial listing with nothing left to visit lists the whole map. */
  lemma ListsExceptDone<K, V>(ps: seq<(K, V)>, m: map<K, V>)
    requires ListsExcept(ps, m, {})
    ensures Lists(ps, m)
  {
    assert m.Keys - {} == m.Keys;
  }

  lemma KeysOfAppend<K, V>(ps: seq<(K, V)>, p: (K, V))
    ensures KeysOf(ps + [p]) == KeysOf(ps) + {p.0}
  {
    var qs := ps + [p];
    assert forall i :: 0 <= i < |ps| ==> qs[i] == ps[i];
    assert qs[|ps|] == p;
  }

  /** Emplacing keeps every key it is given, and a key's value is the one of its first occurrence. */
  lemma {:induction false} FirstWinsSpec<K, V>(ps: seq<(K, V)>)
    ensures FirstWins(ps).Keys == KeysOf(ps)
    ensures forall i :: 0 <= i < |ps| && (forall j :: 0 <= j < i ==> ps[j].0 != ps[i].0) ==>
              FirstWins(ps)[ps[i].0] == ps[i].1
    decreases |ps|
  {
    if ps != [] {
      var n := |ps| - 1;
      var init, p := ps[..n], ps[n];
      assert ps == init + [p];
      FirstWinsSpec(init);
      KeysOfAppend(init, p);
      forall i | 0 <= i < |ps| && (forall j :: 0 <= j < i ==> ps[j].0 != ps[i].0)
        ensures FirstWins(ps)[ps[i].0] == ps[i].1
      {
        if i < n {
          assert init[i] == ps[i];
          assert ps[i].0 in KeysOf(init);
        }
      }
    }
  }

  /** Emplacing pairs with distinct keys builds a map that they list exactly. */
  lemma {:induction false} DistinctListsFirstWins<K, V>(ps: seq<(K, V)>)
    requires DistinctKeys(ps)
    ensures Lists(ps, FirstWins(ps))
    decreases |ps|
  {
    FirstWinsSpec(ps);
    if ps != [] {
      var n := |ps| - 1;
      var init := ps[..n];
      DistinctListsFirstWins(init);
      FirstWinsSpec(init);
      assert ps[n].0 !in KeysOf(init);
    }
  }

  /** Emplacing a listing of `m` rebuilds `m`. */
  lemma ListsFirstWins<K, V>(ps: seq<(K, V)>, m: map<K, V>)
    requires Lists(ps, m)
    ensures FirstWins(ps) == m
  {
    FirstWinsSpec(ps);
    forall k | k in m
      ensures FirstWins(ps)[k] == m[k]
    {
      assert k in KeysOf(ps);
      var i :| 0 <= i < |ps| && ps[i].0 == k;
    }
  }

  // ---------------------------------------------------------------------------
  // The effect of each operation on the abstract store
  // ---------------------------------------------------------------------------

  /** `set(key, value)`: the key now holds the scalar, whatever it held before; nothing else changes. */
  function SetKey(kv: Store, key: string, value: string): (r: Store)
    ensures r.Keys == kv.Keys + {key}
    ensures forall k :: k in kv && k != key ==> r[k] == kv[k]
    ensures GetKey(r, key) == Some(value)
  {
    kv[key := Scalar(value)]
  }

  /** `get(key)`: a value only when the key is present and holds a scalar. */
  function GetKey(kv: Store, key: string): (r: Option<string>)
    ensures r.Some? <==> key in kv && kv[key].Scalar?
    ensures r.Some? ==> kv[key] == Scalar(r.value)
  {
    if key in kv && kv[key].Scalar? then Some(kv[key].text) else None
  }

  /** `del(key)`: the key is gone; every other key keeps its value. */
  function DelKey(kv: Store, key: string): (r: Store)
    ensures r.Keys == kv.Keys - {key}
    ensures forall k :: k in r ==> r[k] == kv[k]
    ensures GetKey(r, key) == None
  {
    kv - {key}
  }

  /** The pairs `setPairs` emplaces: element 2i as key, element 2i+1 as its scalar value. */
  function PairUp(raw: seq<string>): (ps: seq<(string, Value)>)
    ensures |ps| == |raw| / 2
  {
    seq(|raw| / 2, i requires 0 <= i < |raw| / 2 => (raw[2 * i], Scalar(raw[2 * i + 1])))
  }

  /** A key is stored by `setPairs` exactly when it occurs at an even index that has a successor. */
  lemma SetPairsKey(raw: seq<string>, k: string)
    ensures k in FirstWins(PairUp(raw)) <==> exists i :: 0 <= i < |raw| - 1 && i % 2 == 0 && raw[i] == k
  {
    var ps := PairUp(raw);
    FirstWinsSpec(ps);
    if k in FirstWins(ps) {
      assert k in KeysOf(ps);
      var m :| 0 <= m < |ps| && ps[m].0 == k;
      var i := 2 * m;
      assert i < |raw| - 1 && i % 2 == 0 && raw[i] == k;
    }
    if exists i :: 0 <= i < |raw| - 1 && i % 2 == 0 && raw[i] == k {
      var i :| 0 <= i < |raw| - 1 && i % 2 == 0 && raw[i] == k;
      var m := i / 2;
      assert 2 * m == i;
      assert m < |ps|;
      assert ps[m].0 == k;
      assert k in KeysOf(ps);
    }
  }

  /** The first even-index occurrence of a key decides its value: emplace does not overwrite. */
  lemma SetPairsFirstWins(raw: seq<string>, i: nat)
    requires i < |raw| - 1 && i % 2 == 0
    requires forall j :: 0 <= j < i && j % 2 == 0 ==> raw[j] != raw[i]
    ensures raw[i] in FirstWins(PairUp(raw)) && FirstWins(PairUp(raw))[raw[i]] == Scalar(raw[i + 1])
  {
    var ps := PairUp(raw);
    var m := i / 2;
    assert 2 * m == i;
    assert ps[m] == (raw[i], Scalar(raw[i + 1]));
    forall j | 0 <= j < m
      ensures ps[j].0 != ps[m].0
    {
      assert ps[j].0 == raw[2 * j];
    }
    FirstWinsAt(ps, m);
  }

  /** A pair whose key does not occur earlier is emplaced with its own value. */
  lemma FirstWinsAt<K, V>(ps: seq<(K, V)>, m: nat)
    requires m < |ps| && forall j :: 0 <= j < m ==> ps[j].0 != ps[m].0
    ensures ps[m].0 in FirstWins(ps) && FirstWins(ps)[ps[m].0] == ps[m].1
  {
    FirstWinsSpec(ps);
    assert ps[m].0 in KeysOf(ps);
  }

  /** With fewer than two elements `setPairs` leaves the store empty. */
  lemma SetPairsShort(raw: seq<string>)
    requires |raw| < 2
    ensures FirstWins(PairUp(raw)) == map[]
  {
  }

  // ---------------------------------------------------------------------------
  // The store object
  // ---------------------------------------------------------------------------

  class Storage {
    var kv: Store

    constructor()
      ensures kv == map[]
    {
      kv := map[];
    }

    method Set(key: string, value: string)
      modifies this
      ensures kv == SetKey(old(kv), key, value)
    {
      kv := kv[key := Scalar(value)];
    }

    method Get(key: string) returns (r: Option<string>)
      ensures r == GetKey(kv, key)
    {
      if key in kv {
        match kv[key]
        case Scalar(s) => r := Some(s);
        case _ => r := None;
      } else {
        r := None;
      }
    }

    /** Returns whether the key was present (erase's count as a bool). */
    method Del(key: string) returns (existed: bool)
      modifies this
      ensures existed == (key in old(kv))
      ensures kv == DelKey(old(kv), key)
    {
      existed := key in kv;
      kv := kv - {key};
    }

    /** The calls the visitor receives, in the order it receives them: one per stored key,
        with that key's current value. The order of the hash map is not specified. */
    method VisitAll() returns (visits: seq<(string, Value)>)
      ensures Lists(visits, kv)
    {
      var rest := kv.Keys;
      visits := [];
      assert |kv.Keys| == |kv|;
      while rest != {}
        invariant ListsExcept(visits, kv, rest)
        decreases rest
      {
        var k :| k in rest;
        ListsExceptStep(visits, kv, rest, k);
        visits := visits + [(k, kv[k])];
        rest := rest - {k};
      }
      ListsExceptDone(visits, kv);
    }

    /** Clears the store, then emplaces consecutive pairs; a trailing odd element is ignored. */
    method SetPairs(raw: seq<string>)
      modifies this
      ensures kv == FirstWins(PairUp(raw))
    {
      kv := map[];
      if |raw| < 2 {
        return;
      }
      var i := 0;
      ghost var pairs := 0;
      while i + 1 < |raw|
        invariant 0 <= i <= |raw| && i == 2 * pairs
        invariant kv == FirstWins(PairUp(raw)[..pairs])
      {
        ghost var done := PairUp(raw)[..pairs];
        ghost var next := pairs + 1;
        assert PairUp(raw)[..next] == done + [(raw[i], Scalar(raw[i + 1]))];
        FirstWinsAppend(done, (raw[i], Scalar(raw[i + 1])));
        if raw[i] !in kv {
          kv := kv[raw[i] := Scalar(raw[i + 1])];
        }
        i := i + 2;
        pairs := next;
      }
      assert PairUp(raw)[..pairs] == PairUp(raw);
    }

    /** Replaces the whole store with the decoded map, used by a successful load. */
    method SetKVStore(newStore: Store)
      modifies this
      ensures kv == newStore
    {
      kv := newStore;
    }
  }
}
