/** `flattenObject`: a depth-first walk over a JSON value that writes every
    leaf into an ordered accumulator under its dot-joined key path. */
module Flattening {
  import opened Wrappers
  import opened Text
  import opened Json
  import opened OrderedMap

  /** What the accumulator can hold: a scalar leaf, or an array's JSON text
      (a string).  There is no case for an object or for null. */
  datatype Cell = CBool(b: bool) | CNum(n: int) | CStr(s: string)

  /** A flattened record: dotted key paths to cells, in insertion order. */
  type Record = Assoc<Cell>

  /** The key path of `key` under `parent`; an empty parent counts as no
      parent, since the empty string is falsy. */
  function PropName(parent: string, key: string): string {
    if parent == "" then key else parent + "." + key
  }

  /** `typeof v === 'object' && !Array.isArray(v)`: true of objects and,
      because `typeof null === 'object'`, of null. */
  predicate Descends(v: Json) {
    v.JObj? || v.JNull?
  }

  /** The pairs `(key, obj[key])` that `for (const key in obj)` visits: an
      object's members, an array's or a string's indices, and nothing for
      other values. */
  function ForIn(obj: Json): (es: seq<(string, Json)>)
    ensures forall i :: 0 <= i < |es| && Descends(es[i].1) ==> Size(es[i].1) < Size(obj)
  {
    match obj
    case JObj(fs) => FieldsBelow(fs); fs
    case JArr(items) =>
      ItemsBelow(items);
      seq(|items|, i requires 0 <= i < |items| => (NatToString(i), items[i]))
    case JStr(s) => seq(|s|, i requires 0 <= i < |s| => (NatToString(i), JStr([s[i]])))
    case _ => []
  }

  /** The one key that `res[key] = c` does not store when `c` is a
      primitive: on a plain object it reaches the `__proto__` setter of
      `Object.prototype`, which ignores anything but an object or null. */
  const ProtoKey := "__proto__"

  /** `res[path] = c` for a leaf cell, which is always a primitive (an
      array is stored as its JSON text). */
  function Assign(acc: Record, path: string, c: Cell): (r: Record)
    ensures Keys(acc) <= Keys(r)
  {
    if path == ProtoKey then acc else Put(acc, path, c)
  }

  /** After `res[path] = c`, `path` reads `c` unless it is `__proto__`, and
      every other key reads what it read before. */
  lemma AssignLookup(acc: Record, path: string, c: Cell, k: string)
    ensures Lookup(Assign(acc, path, c), k)
         == if k == path && path != ProtoKey then Some(c) else Lookup(acc, k)
  {
    if path != ProtoKey {
      PutLookup(acc, path, c, k);
    }
  }

  /** The leaf writes that `res[path] = c` performs: none for `__proto__`. */
  function Write(path: string, c: Cell): Record {
    if path == ProtoKey then [] else [(path, c)]
  }

  /** The value stored for a leaf: an array as its JSON text, a scalar as itself. */
  function LeafCell(v: Json): Cell
    requires !Descends(v)
  {
    if v.JArr? then CStr(Stringify(v)) else ScalarCell(v)
  }

  /** A non-null scalar: neither walked into nor an array. */
  predicate IsScalar(v: Json) {
    !Descends(v) && !v.JArr?
  }

  function ScalarCell(v: Json): Cell
    requires IsScalar(v)
  {
    match v
    case JBool(b) => CBool(b)
    case JNum(n) => CNum(n)
    case JStr(s) => CStr(s)
  }

  /** The loop of `flattenObject` over the visited pairs `es`, threading the
      accumulator: a nested object (or null) is walked in turn under its own
      path, any other value is assigned to its path. */
  function FlattenEntries(acc: Record, es: seq<(string, Json)>, parent: string): (r: Record)
    ensures Keys(acc) <= Keys(r)
    decreases FieldsSize(es)
  {
    if es == [] then acc
    else
      var key, v := es[0].0, es[0].1;
      var path := PropName(parent, key);
      assert FieldsSize(es) == Size(v) + FieldsSize(es[1..]);
      var acc' := match v
        case JObj(fs) => FlattenEntries(acc, fs, path)
        case JNull => acc
        case _ => Assign(acc, path, LeafCell(v));
      FlattenEntries(acc', es[1..], parent)
  }

  /** `flattenObject(obj, parent, res)`: the accumulator afterwards. */
  function FlattenValue(acc: Record, obj: Json, parent: string): (r: Record)
    ensures Keys(acc) <= Keys(r)
  {
    FlattenEntries(acc, ForIn(obj), parent)
  }

  /** `flattenObject(row)`, with the default `parent = ''` and `res = {}`:
      an object, so no key occurs twice. */
  function Flatten(row: Json): (r: Record)
    ensures DistinctKeys(r)
  {
    FlattenDistinct([], row, "");
    FlattenValue([], row, "")
  }

  /** Reference definition: the assignments a depth-first walk makes, in
      visit order.  Members holding null write nothing. */
  function Leaves(es: seq<(string, Json)>, parent: string): Record
    decreases FieldsSize(es)
  {
    if es == [] then []
    else
      var key, v := es[0].0, es[0].1;
      var path := PropName(parent, key);
      assert FieldsSize(es) == Size(v) + FieldsSize(es[1..]);
      var here := match v
        case JObj(fs) => Leaves(fs, path)
        case JNull => []
        case _ => Write(path, LeafCell(v));
      here + Leaves(es[1..], parent)
  }

  /** Flattening is performing the leaf assignments, in depth-first order,
      on the accumulator. */
  lemma {:induction false} FlattenEntriesIsPutAll(acc: Record, es: seq<(string, Json)>, parent: string)
    ensures FlattenEntries(acc, es, parent) == PutAll(acc, Leaves(es, parent))
    decreases FieldsSize(es)
  {
    if es != [] {
      var key, v := es[0].0, es[0].1;
      assert FieldsSize(es) == Size(v) + FieldsSize(es[1..]);
      if v.JObj? {
        FlattenEntriesIsPutAll(acc, v.fields, PropName(parent, key));
      }
      var here := VisitWrites(key, v, parent);
      VisitIsPutAll(acc, key, v, parent);
      FlattenEntriesIsPutAll(PutAll(acc, here), es[1..], parent);
      EntriesFirst(acc, es, parent);
      PutAllAppend(acc, here, Leaves(es[1..], parent));
    }
  }

  /** The leaf writes the member `(key, v)` makes under `parent`. */
  function VisitWrites(key: string, v: Json, parent: string): Record {
    match v
    case JObj(fs) => Leaves(fs, PropName(parent, key))
    case JNull => []
    case _ => Write(PropName(parent, key), LeafCell(v))
  }

  /** Handling one member performs that member's leaf writes. */
  lemma VisitIsPutAll(acc: Record, key: string, v: Json, parent: string)
    requires v.JObj? ==>
      FlattenEntries(acc, v.fields, PropName(parent, key)) == PutAll(acc, Leaves(v.fields, PropName(parent, key)))
    ensures Visit(acc, key, v, parent) == PutAll(acc, VisitWrites(key, v, parent))
  {
    if v.JNull? {
      assert ForIn(v) == [];
    } else if v.JObj? {
      assert ForIn(v) == v.fields;
    } else {
      var path := PropName(parent, key);
      if path != ProtoKey {
        assert Write(path, LeafCell(v))[1..] == [];
      }
    }
  }

  /** The walk and the reference definition, one member at a time. */
  lemma EntriesFirst(acc: Record, es: seq<(string, Json)>, parent: string)
    requires es != []
    ensures FlattenEntries(acc, es, parent) == FlattenEntries(Visit(acc, es[0].0, es[0].1, parent), es[1..], parent)
    ensures Leaves(es, parent) == VisitWrites(es[0].0, es[0].1, parent) + Leaves(es[1..], parent)
  {
    assert FieldsSize(es) == Size(es[0].1) + FieldsSize(es[1..]);
    if es[0].1.JObj? || es[0].1.JNull? {
      assert ForIn(es[0].1) == if es[0].1.JObj? then es[0].1.fields else [];
    }
  }

  lemma {:induction false} LeavesAppend(a: seq<(string, Json)>, b: seq<(string, Json)>, parent: string)
    ensures Leaves(a + b, parent) == Leaves(a, parent) + Leaves(b, parent)
    decreases |a|
  {
    if a == [] {
      assert a + b == b;
    } else {
      var h, t := a[0], a[1..];
      assert a == [h] + t;
      assert a + b == [h] + (t + b);
      LeavesCons(h, t + b, parent);
      LeavesCons(h, t, parent);
      LeavesAppend(t, b, parent);
      RecordsRegroup(Leaves([h], parent), Leaves(t, parent), Leaves(b, parent));
    }
  }

  /** The first visited pair's writes come first. */
  lemma LeavesCons(e: (string, Json), es: seq<(string, Json)>, parent: string)
    ensures Leaves([e] + es, parent) == Leaves([e], parent) + Leaves(es, parent)
  {
    var all, one := [e] + es, [e];
    assert all[0] == e && all[1..] == es;
    assert one[0] == e && one[1..] == [];
    assert FieldsSize(all) == Size(e.1) + FieldsSize(es);
    assert FieldsSize(one) == Size(e.1) + FieldsSize([]);
  }

  lemma RecordsRegroup(x: Record, y: Record, z: Record)
    ensures x + (y + z) == x + y + z
  {
  }

  /** A member holding null adds no entry: the walk into null visits nothing. */
  lemma NullFieldDropped(pre: seq<(string, Json)>, key: string, post: seq<(string, Json)>, parent: string)
    ensures Leaves(pre + [(key, JNull)] + post, parent) == Leaves(pre + post, parent)
  {
    LeavesAppend(pre + [(key, JNull)], post, parent);
    LeavesAppend(pre, [(key, JNull)], parent);
    LeavesAppend(pre, post, parent);
  }

  /** A member holding an array adds one entry, under its own path, whose
      value is the array's JSON text; the array is not walked into.  Under
      the path `__proto__` it adds nothing. */
  lemma ArrayFieldAsText(pre: seq<(string, Json)>, key: string, xs: seq<Json>, post: seq<(string, Json)>, parent: string)
    ensures Leaves(pre + [(key, JArr(xs))] + post, parent)
         == Leaves(pre, parent)
          + (if PropName(parent, key) == ProtoKey then [] else [(PropName(parent, key), CStr(Stringify(JArr(xs))))])
          + Leaves(post, parent)
  {
    LeavesAppend(pre + [(key, JArr(xs))], post, parent);
    LeavesAppend(pre, [(key, JArr(xs))], parent);
  }

  /** A flattened record never holds a key twice. */
  lemma FlattenDistinct(acc: Record, obj: Json, parent: string)
    requires DistinctKeys(acc)
    ensures DistinctKeys(FlattenValue(acc, obj, parent))
  {
    FlattenEntriesIsPutAll(acc, ForIn(obj), parent);
    PutAllDistinct(acc, Leaves(ForIn(obj), parent));
  }

  predicate HasPrefix(s: string, p: string) {
    |p| <= |s| && s[..|p|] == p
  }

  /** Below a non-empty path every written key is that path, a dot, and more. */
  lemma {:induction false} LeavesUnderPath(fs: seq<(string, Json)>, path: string)
    requires path != ""
    ensures forall i :: 0 <= i < |Leaves(fs, path)| ==> HasPrefix(Leaves(fs, path)[i].0, path + ".")
    decreases FieldsSize(fs)
  {
    if fs != [] {
      var key, v := fs[0].0, fs[0].1;
      var sub := PropName(path, key);
      assert sub == path + "." + key;
      assert HasPrefix(sub, path + ".") by {
        assert sub[..|path + "."|] == path + ".";
      }
      assert FieldsSize(fs) == Size(v) + FieldsSize(fs[1..]);
      LeavesUnderPath(fs[1..], path);
      var here := Leaves(fs, path)[..|Leaves(fs, path)| - |Leaves(fs[1..], path)|];
      match v
      case JObj(inner) =>
        LeavesUnderPath(inner, sub);
        forall i | 0 <= i < |Leaves(inner, sub)|
          ensures HasPrefix(Leaves(inner, sub)[i].0, path + ".")
        {
          var k := Leaves(inner, sub)[i].0;
          assert HasPrefix(k, sub + ".");
          assert k[..|path + "."|] == (sub + ".")[..|path + "."|];
        }
      case JNull =>
      case _ =>
    }
  }

  /** A member holding an object contributes only keys below its own path,
      never an entry under that path itself (unless the path is empty). */
  lemma NestedFieldBelow(key: string, fs: seq<(string, Json)>, parent: string)
    requires PropName(parent, key) != ""
    ensures Leaves([(key, JObj(fs))], parent) == Leaves(fs, PropName(parent, key))
    ensures forall i :: 0 <= i < |Leaves([(key, JObj(fs))], parent)| ==>
      HasPrefix(Leaves([(key, JObj(fs))], parent)[i].0, PropName(parent, key) + ".")
  {
    assert FieldsSize([(key, JObj(fs))]) == Size(JObj(fs)) + FieldsSize([]);
    LeavesUnderPath(fs, PropName(parent, key));
  }

  /** The record's keys are the accumulator's keys followed by the newly
      visited leaf paths in depth-first order; a path visited twice keeps
      its first position and its last value; a key not visited keeps its
      old value. */
  lemma FlattenKeysAndValues(acc: Record, obj: Json, parent: string, k: string)
    ensures Keys(FlattenValue(acc, obj, parent)) == AppendNew(Keys(acc), Keys(Leaves(ForIn(obj), parent)))
    ensures Lookup(FlattenValue(acc, obj, parent), k)
         == if LastWrite(Leaves(ForIn(obj), parent), k).Some?
            then LastWrite(Leaves(ForIn(obj), parent), k) else Lookup(acc, k)
  {
    FlattenEntriesIsPutAll(acc, ForIn(obj), parent);
    PutAllKeys(acc, Leaves(ForIn(obj), parent));
    PutAllLookup(acc, Leaves(ForIn(obj), parent), k);
  }

  lemma {:induction false} LeavesOfScalars(fs: seq<(string, Json)>)
    requires forall i :: 0 <= i < |fs| ==> IsScalar(fs[i].1) && fs[i].0 != ProtoKey
    ensures |Leaves(fs, "")| == |fs|
    ensures forall i :: 0 <= i < |fs| ==> IsScalar(fs[i].1) && Leaves(fs, "")[i] == (fs[i].0, ScalarCell(fs[i].1))
    decreases |fs|
  {
    if fs != [] {
      assert FieldsSize(fs) == Size(fs[0].1) + FieldsSize(fs[1..]);
      LeavesOfScalars(fs[1..]);
    }
  }

  /** Flattening an object whose members all hold non-null scalars, none
      of them named `__proto__`, gives the same members, in the same order. */
  lemma FlatObjectUnchanged(fs: seq<(string, Json)>)
    requires DistinctKeys(fs)
    requires forall i :: 0 <= i < |fs| ==> IsScalar(fs[i].1) && fs[i].0 != ProtoKey
    ensures |Flatten(JObj(fs))| == |fs|
    ensures forall i :: 0 <= i < |fs| ==> IsScalar(fs[i].1) && Flatten(JObj(fs))[i] == (fs[i].0, ScalarCell(fs[i].1))
  {
    LeavesOfScalars(fs);
    var ls := Leaves(fs, "");
    ScalarLeavesDistinct(fs, ls);
    PutAllFresh([], ls);
    FlattenOfObject(fs);
  }

  lemma ScalarLeavesDistinct(fs: seq<(string, Json)>, ls: Record)
    requires DistinctKeys(fs) && |ls| == |fs|
    requires forall i :: 0 <= i < |fs| ==> ls[i].0 == fs[i].0
    ensures DistinctKeys([] + ls) && [] + ls == ls
  {
    assert [] + ls == ls;
    assert Keys(ls) == Keys(fs);
  }

  lemma FlattenOfObject(fs: seq<(string, Json)>)
    ensures Flatten(JObj(fs)) == PutAll([], Leaves(fs, ""))
  {
    assert ForIn(JObj(fs)) == fs;
    FlattenEntriesIsPutAll([], fs, "");
  }

  lemma NestedExample()
    ensures Flatten(JObj([("a", JObj([("b", JObj([("c", JNum(1))]))]))])) == [("a.b.c", CNum(1))]
  {
    var c := [("c", JNum(1))];
    var b := [("b", JObj(c))];
    var a := [("a", JObj(b))];
    assert PropName("", "a") == "a";
    assert PropName("a", "b") == "a.b";
    assert PropName("a.b", "c") == "a.b.c";
    assert Leaves(c, "a.b") == [("a.b.c", CNum(1))];
    assert Leaves(b, "a") == Leaves(c, "a.b");
    assert Leaves(a, "") == Leaves(b, "a");
    FlattenEntriesIsPutAll([], a, "");
  }

  lemma ArrayExample()
    ensures Flatten(JObj([("a", JArr([JNum(1), JNum(2)]))])) == [("a", CStr("[1,2]"))]
  {
    var xs := [JNum(1), JNum(2)];
    StringifyPairExample();
    assert PropName("", "a") == "a";
    assert LeafCell(JArr(xs)) == CStr("[1,2]");
    assert Leaves([("a", JArr(xs))], "") == [("a", CStr("[1,2]"))] + Leaves([], "");
    FlattenEntriesIsPutAll([], [("a", JArr(xs))], "");
  }

  /** The pairs of an object held as its key order and its key-to-value map. */
  function AsRecord(keys: seq<string>, cells: map<string, Cell>): (r: Record)
    requires forall i :: 0 <= i < |keys| ==> keys[i] in cells
    ensures |r| == |keys|
    ensures forall i :: 0 <= i < |keys| ==> r[i] == (keys[i], cells[keys[i]])
  {
    seq(|keys|, i requires 0 <= i < |keys| => (keys[i], cells[keys[i]]))
  }

  lemma AsRecordUpdate(keys: seq<string>, cells: map<string, Cell>, j: nat, c: Cell)
    requires Distinct(keys) && j < |keys|
    requires forall i :: 0 <= i < |keys| ==> keys[i] in cells
    ensures AsRecord(keys, cells[keys[j] := c]) == AsRecord(keys, cells)[j := (keys[j], c)]
  {
  }

  lemma AsRecordAppend(keys: seq<string>, cells: map<string, Cell>, key: string, c: Cell)
    requires key !in keys
    requires forall i :: 0 <= i < |keys| ==> keys[i] in cells
    ensures AsRecord(keys + [key], cells[key := c]) == AsRecord(keys, cells) + [(key, c)]
  {
  }

  /** The accumulator `res` of `flattenObject`, a JavaScript object updated
      in place: its keys in insertion order and what each key holds. */
  class FlatRecord {
    var keys: seq<string>
    var cells: map<string, Cell>

    ghost predicate Valid()
      reads this
    {
      Distinct(keys) && forall k :: k in cells <==> k in keys
    }

    /** The object's pairs in insertion order. */
    function Entries(): (r: Record)
      reads this
      requires Valid()
      ensures DistinctKeys(r)
    {
      var r := AsRecord(keys, cells);
      assert Keys(r) == keys;
      DistinctKeysIff(r);
      r
    }

    /** `{}` */
    constructor ()
      ensures Valid() && Entries() == []
    {
      keys, cells := [], map[];
    }

    /** `res[key] = c` for a primitive `c`; `__proto__` stores nothing. */
    method Set(key: string, c: Cell)
      requires Valid()
      modifies this
      ensures Valid()
      ensures Entries() == Assign(old(Entries()), key, c)
    {
      if key == ProtoKey {
        return;
      }
      if key in cells {
        SetExisting(keys, cells, key, c);
      } else {
        SetNew(keys, cells, key, c);
        keys := keys + [key];
      }
      cells := cells[key := c];
    }
  }

  /** `res[key] = c` on a key already present: the order stays, the value changes. */
  lemma SetExisting(keys: seq<string>, cells: map<string, Cell>, key: string, c: Cell)
    requires Distinct(keys) && forall k :: k in cells <==> k in keys
    requires key in cells
    ensures AsRecord(keys, cells[key := c]) == Put(AsRecord(keys, cells), key, c)
  {
    var before := AsRecord(keys, cells);
    assert Keys(before) == keys;
    DistinctKeysIff(before);
    var j :| 0 <= j < |keys| && keys[j] == key;
    PutExisting(before, j, key, c);
    AsRecordUpdate(keys, cells, j, c);
  }

  /** `res[key] = c` on a new key: the key goes last. */
  lemma SetNew(keys: seq<string>, cells: map<string, Cell>, key: string, c: Cell)
    requires forall k :: k in cells <==> k in keys
    requires key !in cells
    ensures Distinct(keys) ==> Distinct(keys + [key])
    ensures AsRecord(keys + [key], cells[key := c]) == Put(AsRecord(keys, cells), key, c)
  {
    var before := AsRecord(keys, cells);
    assert Keys(before) == keys;
    PutNew(before, key, c);
    AsRecordAppend(keys, cells, key, c);
  }

  /** The accumulator after the member `(key, v)` is handled under `parent`. */
  function Visit(acc: Record, key: string, v: Json, parent: string): Record {
    if Descends(v) then FlattenValue(acc, v, PropName(parent, key))
    else Assign(acc, PropName(parent, key), LeafCell(v))
  }

  /** One turn of the loop: the `i`-th visited pair is handled, then the rest. */
  lemma FlattenEntriesStep(acc: Record, es: seq<(string, Json)>, i: nat, parent: string)
    requires i < |es|
    ensures FlattenEntries(acc, es[i..], parent) == FlattenEntries(Visit(acc, es[i].0, es[i].1, parent), es[i + 1..], parent)
  {
    assert es[i..][0] == es[i] && es[i..][1..] == es[i + 1..];
  }

  /** `flattenObject(obj, parent, res)`: visits the pairs of `obj` in order,
      walks into a member holding an object or null under its path, stores an
      array as its JSON text and any other value as itself. */
  method FlattenObject(obj: Json, parent: string, res: FlatRecord)
    requires res.Valid()
    modifies res
    ensures res.Valid()
    ensures res.Entries() == FlattenValue(old(res.Entries()), obj, parent)
    decreases Size(obj)
  {
    var entries := ForIn(obj);
    ghost var target := FlattenValue(res.Entries(), obj, parent);
    assert entries[0..] == entries;
    var i := 0;
    while i < |entries|
      invariant 0 <= i <= |entries|
      invariant res.Valid()
      invariant FlattenEntries(res.Entries(), entries[i..], parent) == target
    {
      var key, value := entries[i].0, entries[i].1;
      ghost var before := res.Entries();
      FlattenEntriesStep(before, entries, i, parent);
      var propName := PropName(parent, key);
      if Descends(value) {
        FlattenObject(value, propName, res);
      } else {
        // an array is stored as its JSON text, a scalar as itself
        res.Set(propName, LeafCell(value));
      }
      assert res.Entries() == Visit(before, key, value, parent);
      assert FlattenEntries(res.Entries(), entries[i + 1..], parent) == target;
      i := i + 1;
    }
    assert entries[i..] == [];
  }

  /** `flattenObject(row)`: a fresh accumulator filled from `row`. */
  method FlattenRow(row: Json) returns (res: FlatRecord)
    ensures fresh(res) && res.Valid()
    ensures res.Entries() == Flatten(row)
  {
    res := new FlatRecord();
    FlattenObject(row, "", res);
  }
}
