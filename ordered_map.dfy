/** A JavaScript object used as a dictionary: an insertion-ordered list of
    key/value pairs.  Assigning a key that is already present replaces its
    value and keeps its position; assigning a new key appends it. */
module OrderedMap {
  import opened Wrappers

  type Assoc<V> = seq<(string, V)>

  function Keys<V>(m: Assoc<V>): (ks: seq<string>)
    ensures |ks| == |m|
    ensures forall i :: 0 <= i < |m| ==> ks[i] == m[i].0
  {
    if m == [] then [] else [m[0].0] + Keys(m[1..])
  }

  /** `Object.values`: the values in key order. */
  function Values<V>(m: Assoc<V>): (vs: seq<V>)
    ensures |vs| == |m|
    ensures forall i :: 0 <= i < |m| ==> vs[i] == m[i].1
  {
    if m == [] then [] else [m[0].1] + Values(m[1..])
  }

  /** No key occurs twice, as in every JavaScript object. */
  predicate DistinctKeys<V>(m: Assoc<V>) {
    forall i, j :: 0 <= i < j < |m| ==> m[i].0 != m[j].0
  }

  /** Property read `m[k]`: the value stored under `k`, if any. */
  function Lookup<V>(m: Assoc<V>, k: string): (r: Option<V>)
    ensures r.None? <==> k !in Keys(m)
  {
    if m == [] then None
    else if m[0].0 == k then Some(m[0].1)
    else Lookup(m[1..], k)
  }

  /** Property assignment `m[k] = v`. */
  function Put<V>(m: Assoc<V>, k: string, v: V): (r: Assoc<V>)
    ensures Keys(r) == if k in Keys(m) then Keys(m) else Keys(m) + [k]
  {
    if m == [] then [(k, v)]
    else if m[0].0 == k then [(k, v)] + m[1..]
    else [m[0]] + Put(m[1..], k, v)
  }

  /** After `m[k] = v`, reading `k` gives `v` and reading any other key gives
      what it gave before. */
  lemma {:induction false} PutLookup<V>(m: Assoc<V>, k: string, v: V, j: string)
    ensures Lookup(Put(m, k, v), j) == if j == k then Some(v) else Lookup(m, j)
  {
    if m != [] && m[0].0 != k {
      PutLookup(m[1..], k, v, j);
    }
  }

  /** In an object, reading the key at position `j` gives the value there. */
  lemma {:induction false} LookupAt<V>(m: Assoc<V>, j: nat)
    requires DistinctKeys(m) && j < |m|
    ensures Lookup(m, m[j].0) == Some(m[j].1)
  {
    if j > 0 {
      assert m[0].0 != m[j].0;
      LookupAt(m[1..], j - 1);
    }
  }

  /** A key sequence with no repetition. */
  predicate Distinct(ks: seq<string>) {
    forall i, j :: 0 <= i < j < |ks| ==> ks[i] != ks[j]
  }

  lemma DistinctKeysIff<V>(m: Assoc<V>)
    ensures DistinctKeys(m) <==> Distinct(Keys(m))
  {
  }

  /** Assignment keeps the keys of an object distinct. */
  lemma PutDistinct<V>(m: Assoc<V>, k: string, v: V)
    requires DistinctKeys(m)
    ensures DistinctKeys(Put(m, k, v))
  {
    DistinctKeysIff(m);
    DistinctKeysIff(Put(m, k, v));
  }

  /** Assigning a key that is not yet present appends it at the end. */
  lemma {:induction false} PutNew<V>(m: Assoc<V>, k: string, v: V)
    requires k !in Keys(m)
    ensures Put(m, k, v) == m + [(k, v)]
  {
    if m != [] {
      assert Keys(m) == [m[0].0] + Keys(m[1..]);
      PutNew(m[1..], k, v);
      assert [m[0]] + (m[1..] + [(k, v)]) == m + [(k, v)];
    }
  }

  /** Assigning a key that is present replaces its pair where it stands. */
  lemma {:induction false} PutExisting<V>(m: Assoc<V>, j: nat, k: string, v: V)
    requires DistinctKeys(m)
    requires j < |m| && m[j].0 == k
    ensures Put(m, k, v) == m[j := (k, v)]
  {
    if j > 0 {
      assert m[0].0 != k;
      PutExisting(m[1..], j - 1, k, v);
      ConsUpdate(m, j, (k, v));
    }
  }

  lemma ConsUpdate<V>(m: Assoc<V>, j: nat, x: (string, V))
    requires 0 < j < |m|
    ensures [m[0]] + m[1..][j - 1 := x] == m[j := x]
  {
  }

  /** The assignments `m[w.0] = w.1` for each `w` of `ws`, in order. */
  function PutAll<V>(m: Assoc<V>, ws: Assoc<V>): Assoc<V>
    decreases ws
  {
    if ws == [] then m else PutAll(Put(m, ws[0].0, ws[0].1), ws[1..])
  }

  lemma {:induction false} PutAllAppend<V>(m: Assoc<V>, a: Assoc<V>, b: Assoc<V>)
    ensures PutAll(m, a + b) == PutAll(PutAll(m, a), b)
    decreases a
  {
    if a != [] {
      assert (a + b)[0] == a[0];
      assert (a + b)[1..] == a[1..] + b;
      PutAllAppend(Put(m, a[0].0, a[0].1), a[1..], b);
    } else {
      assert a + b == b;
    }
  }

  /** `ks` extended by the members of `ps` it does not hold yet, in the
      order of their first occurrence in `ps`. */
  function AppendNew(ks: seq<string>, ps: seq<string>): seq<string>
    decreases ps
  {
    if ps == [] then ks
    else AppendNew(if ps[0] in ks then ks else ks + [ps[0]], ps[1..])
  }

  /** The value of the last write to `k` among `ws`, if any. */
  function LastWrite<V>(ws: Assoc<V>, k: string): Option<V> {
    if ws == [] then None
    else if ws[|ws| - 1].0 == k then Some(ws[|ws| - 1].1)
    else LastWrite(ws[..|ws| - 1], k)
  }

  /** After a series of assignments, the keys are the old keys followed by
      the newly written ones in first-write order. */
  lemma {:induction false} PutAllDistinct<V>(m: Assoc<V>, ws: Assoc<V>)
    requires DistinctKeys(m)
    ensures DistinctKeys(PutAll(m, ws))
    decreases ws
  {
    if ws != [] {
      PutDistinct(m, ws[0].0, ws[0].1);
      PutAllDistinct(Put(m, ws[0].0, ws[0].1), ws[1..]);
    }
  }

  lemma {:induction false} PutAllKeys<V>(m: Assoc<V>, ws: Assoc<V>)
    ensures Keys(PutAll(m, ws)) == AppendNew(Keys(m), Keys(ws))
    decreases ws
  {
    if ws != [] {
      PutAllKeys(Put(m, ws[0].0, ws[0].1), ws[1..]);
      assert Keys(ws)[1..] == Keys(ws[1..]);
    }
  }

  /** After a series of assignments, each key holds its last written value,
      and a key never written keeps its old value. */
  lemma {:induction false} PutAllLookup<V>(m: Assoc<V>, ws: Assoc<V>, k: string)
    ensures Lookup(PutAll(m, ws), k) == if LastWrite(ws, k).Some? then LastWrite(ws, k) else Lookup(m, k)
    decreases |ws|
  {
    if ws != [] {
      var init, last := ws[..|ws| - 1], ws[|ws| - 1];
      assert ws == init + [last];
      PutAllAppend(m, init, [last]);
      PutAllLookup(m, init, k);
      PutLookup(PutAll(m, init), last.0, last.1, k);
    }
  }

  /** Writing keys that are all new and pairwise distinct appends them. */
  lemma {:induction false} PutAllFresh<V>(m: Assoc<V>, ws: Assoc<V>)
    requires DistinctKeys(m + ws)
    ensures PutAll(m, ws) == m + ws
    decreases ws
  {
    if ws != [] {
      var all := m + ws;
      var w := ws[0];
      assert all[|m|] == w;
      forall i | 0 <= i < |m|
        ensures Keys(m)[i] != w.0
      {
        assert all[i] == m[i];
      }
      assert w.0 !in Keys(m);
      PutNew(m, w.0, w.1);
      var m' := m + [w];
      SplitFirst(m, ws);
      assert DistinctKeys(m' + ws[1..]);
      assert PutAll(m, ws) == PutAll(m', ws[1..]);
      PutAllFresh(m', ws[1..]);
    }
  }

  lemma SplitFirst<V>(m: Assoc<V>, ws: Assoc<V>)
    requires ws != []
    ensures m + [ws[0]] + ws[1..] == m + ws
  {
    assert ws == [ws[0]] + ws[1..];
  }
}
