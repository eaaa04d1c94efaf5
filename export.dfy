/** The content-producing part of `exportToFile`: what would be written to
    the output file for the `json` and `csv` formats, or why nothing is. */
module Export {
  import opened Wrappers
  import opened Text
  import opened Json
  import opened OrderedMap
  import opened Flattening
  import JsonParse

  datatype ExportError =
    | NotAnArray                  // CSV of a body that is not an array
    | NoRecords                   // CSV of an empty array: `flattenedData[0]` is undefined
    | UnsupportedFormat(format: string)

  /** How `Array.prototype.join` writes a cell: no quoting, no escaping. */
  function CellText(c: Cell): string {
    match c
    case CBool(b) => if b then "true" else "false"
    case CNum(n) => IntToString(n)
    case CStr(s) => s
  }

  /** The cells of a record as text, in the record's own key order. */
  function RowTexts(r: Record): (ts: seq<string>)
    ensures |ts| == |r|
    ensures forall i :: 0 <= i < |r| ==> ts[i] == CellText(r[i].1)
  {
    seq(|r|, i requires 0 <= i < |r| => CellText(Values(r)[i]))
  }

  /** `Object.keys(flattenedData[0]).join(',')` */
  function HeaderLine(r: Record): string {
    Join(Keys(r), ",")
  }

  /** `Object.values(row).join(',')` */
  function RowLine(r: Record): string {
    Join(RowTexts(r), ",")
  }

  /** `data.map(row => flattenObject(row))` */
  function FlattenAll(rows: seq<Json>): (flat: seq<Record>)
    ensures |flat| == |rows|
    ensures forall i :: 0 <= i < |rows| ==> flat[i] == Flatten(rows[i])
  {
    seq(|rows|, i requires 0 <= i < |rows| => Flatten(rows[i]))
  }

  function RowLines(flat: seq<Record>): (ls: seq<string>)
    ensures |ls| == |flat|
    ensures forall i :: 0 <= i < |flat| ==> ls[i] == RowLine(flat[i])
  {
    seq(|flat|, i requires 0 <= i < |flat| => RowLine(flat[i]))
  }

  /** `${headers}\n${rows}`: the first record's keys, a newline, then one
      line per record. */
  function CsvText(flat: seq<Record>): string
    requires flat != []
  {
    HeaderLine(flat[0]) + "\n" + Join(RowLines(flat), "\n")
  }

  /** The CSV file content, or why there is none. */
  function CsvContent(data: Json): (r: Result<string, ExportError>)
    ensures !data.JArr? ==> r == Failure(NotAnArray)
    ensures data.JArr? && data.items == [] ==> r == Failure(NoRecords)
    ensures r.Success? <==> data.JArr? && data.items != []
  {
    match data
    case JArr(rows) =>
      if rows == [] then Failure(NoRecords)
      else
        Success(CsvText(FlattenAll(rows)))
    case _ => Failure(NotAnArray)
  }

  /** The file content for a format, or the reason nothing is written. */
  function ExportContent(data: Json, format: string): (r: Result<string, ExportError>)
    ensures format == "json" ==> r == Success(Pretty(data))
    ensures format == "csv" ==> r == CsvContent(data)
    ensures format != "json" && format != "csv" ==> r == Failure(UnsupportedFormat(format))
  {
    if format == "json" then Success(Pretty(data))
    else if format == "csv" then CsvContent(data)
    else Failure(UnsupportedFormat(format))
  }

  /** `format || 'json'`: an absent or empty format selects JSON. */
  function ResolveFormat(format: Option<string>): (f: string)
    ensures f == (if format.Some? && format.value != "" then format.value else "json")
  {
    match format
    case Some(f) => if f == "" then "json" else f
    case None => "json"
  }

  /** The JSON file holds the response data in a form `JSON.parse` reads
      back exactly. */
  lemma JsonExportReadsBack(data: Json)
    requires WellFormed(data)
    ensures ExportContent(data, "json").Success?
    ensures JsonParse.Parse(ExportContent(data, "json").value) == Some(data)
  {
    JsonParse.PrettyParse(data);
  }

  /** Text free of the two separators a CSV line uses. */
  predicate Plain(s: string) {
    ',' !in s && '\n' !in s
  }

  lemma {:induction false} JoinAvoids(xs: seq<string>, sep: string, c: char)
    requires c !in sep
    requires forall i :: 0 <= i < |xs| ==> c !in xs[i]
    ensures c !in Join(xs, sep)
  {
    if |xs| > 1 {
      JoinAvoids(xs[1..], sep, c);
    }
  }

  /** Without quoting, the file reads back by splitting at newlines and then
      at commas, provided no key of the first record and no cell text holds
      a comma or a newline; the comma split is stated for the non-empty
      records, whose line is no longer the empty string. */
  lemma CsvReadBack(flat: seq<Record>)
    requires flat != []
    requires forall j :: 0 <= j < |flat[0]| ==> Plain(flat[0][j].0)
    requires forall i, j :: 0 <= i < |flat| && 0 <= j < |flat[i]| ==> Plain(CellText(flat[i][j].1))
    ensures Split(CsvText(flat), '\n') == [HeaderLine(flat[0])] + RowLines(flat)
    ensures flat[0] != [] ==> Split(HeaderLine(flat[0]), ',') == Keys(flat[0])
    ensures forall i :: 0 <= i < |flat| && flat[i] != [] ==> Split(RowLine(flat[i]), ',') == RowTexts(flat[i])
  {
    var header, lines := HeaderLine(flat[0]), RowLines(flat);
    JoinAvoids(Keys(flat[0]), ",", '\n');
    if flat[0] != [] {
      SplitJoin(Keys(flat[0]), ',');
    }
    forall i | 0 <= i < |flat|
      ensures '\n' !in lines[i] && (flat[i] != [] ==> Split(RowLine(flat[i]), ',') == RowTexts(flat[i]))
    {
      JoinAvoids(RowTexts(flat[i]), ",", '\n');
      if flat[i] != [] {
        SplitJoin(RowTexts(flat[i]), ',');
      }
    }
    var all := [header] + lines;
    assert all[1..] == lines;
    assert Join(all, "\n") == CsvText(flat);
    SplitJoin(all, '\n');
  }

  /** When a record has the same keys in the same order as the first one,
      each of its columns holds the value of the header key above it. */
  lemma CsvColumnsAligned(rows: seq<Json>, i: nat, j: nat)
    requires i < |rows| && j < |Flatten(rows[0])|
    requires Keys(Flatten(rows[i])) == Keys(Flatten(rows[0]))
    ensures RowTexts(FlattenAll(rows)[i])[j] == CellText(Lookup(Flatten(rows[i]), Keys(Flatten(rows[0]))[j]).value)
  {
    var r := Flatten(rows[i]);
    FlattenDistinct([], rows[i], "");
    LookupAt(r, j);
  }

  lemma FlatPair(k1: string, n1: int, k2: string, n2: int)
    requires k1 != k2 && k1 != ProtoKey && k2 != ProtoKey
    ensures Flatten(JObj([(k1, JNum(n1)), (k2, JNum(n2))])) == [(k1, CNum(n1)), (k2, CNum(n2))]
  {
    var fs := [(k1, JNum(n1)), (k2, JNum(n2))];
    FlatObjectUnchanged(fs);
    assert ScalarCell(JNum(n1)) == CNum(n1) && ScalarCell(JNum(n2)) == CNum(n2);
  }

  /** The CSV text of two records of two numbers each. */
  lemma CsvTextOfPairs(r0: Record, r1: Record)
    requires |r0| == 2 && r0[0].1.CNum? && r0[1].1.CNum?
    requires |r1| == 2 && r1[0].1.CNum? && r1[1].1.CNum?
    ensures CsvText([r0, r1])
         == (r0[0].0 + "," + r0[1].0) + "\n"
          + ((IntToString(r0[0].1.n) + "," + IntToString(r0[1].1.n)) + "\n"
          + (IntToString(r1[0].1.n) + "," + IntToString(r1[1].1.n)))
  {
    assert Keys(r0) == [r0[0].0, r0[1].0];
    JoinTwo(r0[0].0, r0[1].0, ",");
    assert RowTexts(r0) == [IntToString(r0[0].1.n), IntToString(r0[1].1.n)];
    JoinTwo(IntToString(r0[0].1.n), IntToString(r0[1].1.n), ",");
    assert RowTexts(r1) == [IntToString(r1[0].1.n), IntToString(r1[1].1.n)];
    JoinTwo(IntToString(r1[0].1.n), IntToString(r1[1].1.n), ",");
    assert RowLines([r0, r1]) == [RowLine(r0), RowLine(r1)];
    JoinTwo(RowLine(r0), RowLine(r1), "\n");
  }

  lemma DigitsOneToFour()
    ensures IntToString(1) == "1" && IntToString(2) == "2" && IntToString(3) == "3" && IntToString(4) == "4"
  {
  }

  lemma CsvLiteral()
    ensures ("a" + "," + "b") + "\n" + (("1" + "," + "2") + "\n" + ("3" + "," + "4")) == "a,b\n1,2\n3,4"
  {
  }

  /** `[{"a":1,"b":2},{"a":3,"b":4}]` exports as `a,b\n1,2\n3,4`. */
  lemma CsvExample()
    ensures CsvContent(JArr([JObj([("a", JNum(1)), ("b", JNum(2))]), JObj([("a", JNum(3)), ("b", JNum(4))])]))
         == Success("a,b\n1,2\n3,4")
  {
    var rows := [JObj([("a", JNum(1)), ("b", JNum(2))]), JObj([("a", JNum(3)), ("b", JNum(4))])];
    FlatPair("a", 1, "b", 2);
    FlatPair("a", 3, "b", 4);
    var r0, r1 := [("a", CNum(1)), ("b", CNum(2))], [("a", CNum(3)), ("b", CNum(4))];
    assert FlattenAll(rows) == [r0, r1];
    CsvTextOfPairs(r0, r1);
    DigitsOneToFour();
    CsvLiteral();
  }

  /** `[{"__proto__":1}]` exports as a lone line break: the only member is
      visited, but the assignment to `__proto__` stores nothing, so the
      flattened record is empty. */
  lemma ProtoExample()
    ensures Flatten(JObj([(ProtoKey, JNum(1))])) == []
    ensures CsvContent(JArr([JObj([(ProtoKey, JNum(1))])])) == Success("\n")
  {
    var fs := [(ProtoKey, JNum(1))];
    assert Leaves(fs, "") == Write(ProtoKey, CNum(1)) + Leaves([], "");
    FlattenOfObject(fs);
    var empty: Record := [];
    assert HeaderLine(empty) == "" && RowLine(empty) == "";
    assert RowLines([empty]) == [""];
    assert Join([""], "\n") == "";
    assert CsvText([empty]) == "" + "\n" + "" == "\n";
    assert FlattenAll([JObj(fs)]) == [empty];
    assert CsvContent(JArr([JObj(fs)])) == Success(CsvText([empty]));
  }

  /** Each line lists its own record's values in that record's key order,
      not in the header's: `[{"a":1,"b":2},{"b":3,"a":4}]` also exports as
      `a,b\n1,2\n3,4`, with 3 (the value of `b`) under the `a` column. */
  lemma CsvRowsKeepOwnOrder()
    ensures CsvContent(JArr([JObj([("a", JNum(1)), ("b", JNum(2))]), JObj([("b", JNum(3)), ("a", JNum(4))])]))
         == Success("a,b\n1,2\n3,4")
  {
    var rows := [JObj([("a", JNum(1)), ("b", JNum(2))]), JObj([("b", JNum(3)), ("a", JNum(4))])];
    FlatPair("a", 1, "b", 2);
    FlatPair("b", 3, "a", 4);
    var r0, r1 := [("a", CNum(1)), ("b", CNum(2))], [("b", CNum(3)), ("a", CNum(4))];
    assert FlattenAll(rows) == [r0, r1];
    CsvTextOfPairs(r0, r1);
    DigitsOneToFour();
    CsvLiteral();
  }
}
