/** JSON values as `JSON.parse` produces them and `JSON.stringify` writes
    them.  Numbers are integers here; object members keep insertion order. */
module Json {
  import opened Text
  import OrderedMap

  datatype Json =
    | JNull
    | JBool(b: bool)
    | JNum(n: int)
    | JStr(s: string)
    | JArr(items: seq<Json>)
    | JObj(fields: seq<(string, Json)>)

  /** Every object in `v`, at any depth, has distinct member names, as every
      value built by `JSON.parse` does. */
  predicate WellFormed(v: Json) {
    match v
    case JArr(items) => forall i :: 0 <= i < |items| ==> WellFormed(items[i])
    case JObj(fs) =>
      OrderedMap.DistinctKeys(fs) &&
      forall i :: 0 <= i < |fs| ==> assert fs[i] in fs; assert fs[i].1 < fs[i]; WellFormed(fs[i].1)
    case _ => true
  }

  /** The escape `JSON.stringify` writes for one character of a string
      (QuoteJSONString in ECMA-262, section 25.5.2.3). */
  function EscapeChar(c: char): string {
    if c == '\U{8}' then "\\b"
    else if c == '\t' then "\\t"
    else if c == '\n' then "\\n"
    else if c == '\U{C}' then "\\f"
    else if c == '\r' then "\\r"
    else if c == '"' then "\\\""
    else if c == '\\' then "\\\\"
    else if c < ' ' then "\\u00" + [HexChar(c as int / 16, false), HexChar(c as int % 16, false)]
    else [c]
  }

  function Escape(s: string): string {
    if s == [] then "" else EscapeChar(s[0]) + Escape(s[1..])
  }

  /** A string literal: the escaped characters between double quotes. */
  function Quote(s: string): string {
    "\"" + Escape(s) + "\""
  }

  /** `JSON.stringify(v, null, gap)` at nesting given by `indent`
      (SerializeJSONProperty, SerializeJSONObject and SerializeJSONArray in
      ECMA-262, section 25.5.2).  An empty `gap` gives the compact form. */
  function Serialize(v: Json, gap: string, indent: string): string {
    match v
    case JNull => "null"
    case JBool(b) => if b then "true" else "false"
    case JNum(n) => IntToString(n)
    case JStr(s) => Quote(s)
    case JArr(items) => Bracket("[", Elements(items, gap, indent + gap), "]", gap, indent)
    case JObj(fs) => Bracket("{", Members(fs, gap, indent + gap), "}", gap, indent)
  }

  function Elements(items: seq<Json>, gap: string, indent: string): (r: seq<string>)
    ensures |r| == |items|
  {
    if items == [] then []
    else [Serialize(items[0], gap, indent)] + Elements(items[1..], gap, indent)
  }

  function Members(fs: seq<(string, Json)>, gap: string, indent: string): (r: seq<string>)
    ensures |r| == |fs|
  {
    if fs == [] then []
    else
      assert fs[0] in fs; assert fs[0].1 < fs[0];
      [Member(fs[0].0, Serialize(fs[0].1, gap, indent), gap)] + Members(fs[1..], gap, indent)
  }

  /** One `"name":value` member; a non-empty gap adds a space after the colon. */
  function Member(key: string, value: string, gap: string): string {
    Quote(key) + ":" + (if gap == "" then "" else " ") + value
  }

  /** The brackets around a list of serialised parts: empty brackets, or
      the parts separated by commas.  With a gap, each part goes on a line
      of its own indented one step further than the closing bracket. */
  function Bracket(open: string, parts: seq<string>, close: string, gap: string, indent: string): string {
    if parts == [] then open + close
    else open + (Lead(gap, indent) + Join(parts, "," + Lead(gap, indent)) + Trail(gap, indent) + close)
  }

  /** The line break and indentation before each part. */
  function Lead(gap: string, indent: string): string {
    if gap == "" then "" else "\n" + indent + gap
  }

  /** The line break and indentation before the closing bracket. */
  function Trail(gap: string, indent: string): string {
    if gap == "" then "" else "\n" + indent
  }

  /** `JSON.stringify(v)`. */
  function Stringify(v: Json): string {
    Serialize(v, "", "")
  }

  /** `JSON.stringify(v, null, 2)`. */
  function Pretty(v: Json): string {
    Serialize(v, "  ", "")
  }

  lemma StringifyPairExample()
    ensures Stringify(JArr([JNum(1), JNum(2)])) == "[1,2]"
  {
    var xs := [JNum(1), JNum(2)];
    assert IntToString(1) == "1" && IntToString(2) == "2";
    assert Elements(xs, "", "") == ["1", "2"];
    assert Join(["1", "2"], ",") == "1,2";
    assert "" + "" == "";
    assert Lead("", "") == "" && Trail("", "") == "";
    assert "," + "" == ",";
    assert "" + "1,2" + "" + "]" == "1,2]";
    assert Stringify(JArr(xs)) == Bracket("[", Elements(xs, "", ""), "]", "", "");
  }

  /** A measure of a value: the number of constructors in it. */
  function Size(v: Json): (n: nat)
    ensures n >= 1
  {
    match v
    case JArr(items) => 1 + ItemsSize(items)
    case JObj(fs) => 1 + FieldsSize(fs)
    case _ => 1
  }

  function ItemsSize(items: seq<Json>): nat {
    if items == [] then 0 else Size(items[0]) + ItemsSize(items[1..])
  }

  function FieldsSize(fs: seq<(string, Json)>): nat {
    if fs == [] then 0
    else assert fs[0] in fs; assert fs[0].1 < fs[0]; Size(fs[0].1) + FieldsSize(fs[1..])
  }

  lemma {:induction false} ItemSmaller(items: seq<Json>, i: nat)
    requires i < |items|
    ensures Size(items[i]) <= ItemsSize(items)
  {
    if i > 0 {
      ItemSmaller(items[1..], i - 1);
    }
  }

  lemma {:induction false} FieldSmaller(fs: seq<(string, Json)>, i: nat)
    requires i < |fs|
    ensures Size(fs[i].1) <= FieldsSize(fs)
  {
    if i > 0 {
      FieldSmaller(fs[1..], i - 1);
    }
  }

  lemma ItemsBelow(items: seq<Json>)
    ensures forall i :: 0 <= i < |items| ==> Size(items[i]) <= ItemsSize(items)
  {
    forall i | 0 <= i < |items| ensures Size(items[i]) <= ItemsSize(items) {
      ItemSmaller(items, i);
    }
  }

  lemma FieldsBelow(fs: seq<(string, Json)>)
    ensures forall i :: 0 <= i < |fs| ==> Size(fs[i].1) <= FieldsSize(fs)
  {
    forall i | 0 <= i < |fs| ensures Size(fs[i].1) <= FieldsSize(fs) {
      FieldSmaller(fs, i);
    }
  }
}
