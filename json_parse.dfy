/** The reader `JSON.parse` runs (ECMA-262, section 25.5.1, over the JSON
    grammar of ECMA-404), restricted to integer numbers, and the proof that
    it reads back what `JSON.stringify` writes, compact or indented. */
module JsonParse {
  import opened Wrappers
  import opened Text
  import opened Json
  import OrderedMap

  predicate IsWs(c: char) {
    c == ' ' || c == '\t' || c == '\n' || c == '\r'
  }

  predicate AllWs(s: string) {
    forall i :: 0 <= i < |s| ==> IsWs(s[i])
  }

  predicate AllSpaces(s: string) {
    forall i :: 0 <= i < |s| ==> s[i] == ' '
  }

  /** `s` with its leading white space removed. */
  function SkipWs(s: string): (t: string)
    ensures |t| <= |s| && t == s[|s| - |t|..]
    ensures t == [] || !IsWs(t[0])
  {
    if s != [] && IsWs(s[0]) then SkipWs(s[1..]) else s
  }

  /** The character a string literal holds at the front of `s` (which is not
      the closing quote), and how many characters of `s` it takes: a raw
      character other than a control character, or an escape. */
  function NextChar(s: string): (r: Option<(char, nat)>)
    requires s != []
    ensures r.Some? ==> 1 <= r.value.1 <= |s|
  {
    if s[0] == '\\' then
      if |s| < 2 then None
      else if s[1] == '"' then Some(('"', 2))
      else if s[1] == '\\' then Some(('\\', 2))
      else if s[1] == '/' then Some(('/', 2))
      else if s[1] == 'b' then Some(('\U{8}', 2))
      else if s[1] == 'f' then Some(('\U{C}', 2))
      else if s[1] == 'n' then Some(('\n', 2))
      else if s[1] == 'r' then Some(('\r', 2))
      else if s[1] == 't' then Some(('\t', 2))
      else if s[1] == 'u' && |s| >= 6
        && HexValue(s[2]) >= 0 && HexValue(s[3]) >= 0 && HexValue(s[4]) >= 0 && HexValue(s[5]) >= 0 then
        var cp := HexValue(s[2]) * 4096 + HexValue(s[3]) * 256 + HexValue(s[4]) * 16 + HexValue(s[5]);
        if 0xD800 <= cp < 0xE000 then None else Some((cp as char, 6))
      else None
    else if s[0] < ' ' then None
    else Some((s[0], 1))
  }

  /** The rest of a string literal after its opening quote: its characters
      and what follows the closing quote. */
  function ParseChars(s: string): (r: Option<(string, string)>)
    ensures r.Some? ==> |r.value.1| < |s|
    decreases |s|
  {
    if s == [] then None
    else if s[0] == '"' then Some(([], s[1..]))
    else match NextChar(s)
      case None => None
      case Some((c, n)) =>
        match ParseChars(s[n..])
        case None => None
        case Some((cs, rest)) => Some(([c] + cs, rest))
  }

  /** The longest run of decimal digits at the front of `s`. */
  function DigitRun(s: string): (d: string)
    ensures |d| <= |s| && d == s[..|d|]
    ensures forall i :: 0 <= i < |d| ==> IsDigit(d[i])
    ensures |d| == |s| || !IsDigit(s[|d|])
  {
    if s != [] && IsDigit(s[0]) then [s[0]] + DigitRun(s[1..]) else []
  }

  /** An integer: an optional `-`, then `0` or digits not starting with `0`. */
  function ParseNumber(t: string): (r: Option<(Json, string)>)
    requires t != []
    ensures r.Some? ==> |r.value.1| < |t|
  {
    var neg := t[0] == '-';
    var u := if neg then t[1..] else t;
    var d := DigitRun(u);
    if d == [] || (|d| > 1 && d[0] == '0') then None
    else
      var m: int := DigitsValue(d);
      Some((JNum(if neg then -m else m), u[|d|..]))
  }

  /** One value after optional white space, and the text after it. */
  function ParseValue(s: string): (r: Option<(Json, string)>)
    ensures r.Some? ==> |r.value.1| < |s|
    decreases |s|, 1
  {
    ParseToken(SkipWs(s))
  }

  /** The value that starts at the first character of `t`. */
  function ParseToken(t: string): (r: Option<(Json, string)>)
    ensures r.Some? ==> |r.value.1| < |t|
    decreases |t|, 0
  {
    if t == [] then None
    else if t[0] == '"' then
      match ParseChars(t[1..])
      case None => None
      case Some((cs, rest)) => Some((JStr(cs), rest))
    else if t[0] == '[' then ParseArray(t[1..])
    else if t[0] == '{' then ParseObject(t[1..])
    else if t[0] == 'n' then ParseWord(t, "null", JNull)
    else if t[0] == 't' then ParseWord(t, "true", JBool(true))
    else if t[0] == 'f' then ParseWord(t, "false", JBool(false))
    else ParseNumber(t)
  }

  /** A literal name (`null`, `true`, `false`) standing for `v`. */
  function ParseWord(t: string, word: string, v: Json): (r: Option<(Json, string)>)
    requires word != []
    ensures r.Some? ==> |r.value.1| < |t|
  {
    if |t| >= |word| && t[..|word|] == word then Some((v, t[|word|..])) else None
  }

  /** An array after its `[`. */
  function ParseArray(s: string): (r: Option<(Json, string)>)
    ensures r.Some? ==> |r.value.1| < |s|
    decreases |s|, 3
  {
    var t := SkipWs(s);
    if t != [] && t[0] == ']' then Some((JArr([]), t[1..]))
    else
      match ParseItems(s)
      case None => None
      case Some((items, rest)) => Some((JArr(items), rest))
  }

  /** One or more comma-separated values and the closing `]`. */
  function ParseItems(s: string): (r: Option<(seq<Json>, string)>)
    ensures r.Some? ==> |r.value.1| < |s|
    decreases |s|, 2
  {
    match ParseValue(s)
    case None => None
    case Some((v, after)) =>
      var t := SkipWs(after);
      if t == [] then None
      else if t[0] == ']' then Some(([v], t[1..]))
      else if t[0] != ',' then None
      else
        match ParseItems(t[1..])
        case None => None
        case Some((vs, rest)) => Some(([v] + vs, rest))
  }

  /** An object after its `{`.  Members are entered in order and a repeated
      name takes the later value in the place of its first occurrence, as
      `JSON.parse` does with CreateDataProperty. */
  function ParseObject(s: string): (r: Option<(Json, string)>)
    ensures r.Some? ==> |r.value.1| < |s|
    decreases |s|, 3
  {
    var t := SkipWs(s);
    if t != [] && t[0] == '}' then Some((JObj([]), t[1..]))
    else
      match ParseMembers(s)
      case None => None
      case Some((ms, rest)) => Some((JObj(OrderedMap.PutAll([], ms)), rest))
  }

  /** One `"name":value` member after optional white space. */
  function ParseMember(s: string): (r: Option<((string, Json), string)>)
    ensures r.Some? ==> |r.value.1| < |s|
    decreases |s|, 1
  {
    var t := SkipWs(s);
    if t == [] || t[0] != '"' then None
    else
      match ParseChars(t[1..])
      case None => None
      case Some((key, afterKey)) =>
        var u := SkipWs(afterKey);
        if u == [] || u[0] != ':' then None
        else
          match ParseValue(u[1..])
          case None => None
          case Some((v, after)) => Some(((key, v), after))
  }

  /** One or more comma-separated members and the closing `}`. */
  function ParseMembers(s: string): (r: Option<(seq<(string, Json)>, string)>)
    ensures r.Some? ==> |r.value.1| < |s|
    decreases |s|, 2
  {
    match ParseMember(s)
    case None => None
    case Some((m, after)) =>
      var w := SkipWs(after);
      if w == [] then None
      else if w[0] == '}' then Some(([m], w[1..]))
      else if w[0] != ',' then None
      else
        match ParseMembers(w[1..])
        case None => None
        case Some((ms, rest)) => Some(([m] + ms, rest))
  }

  /** `JSON.parse(s)`: one value with nothing but white space around it. */
  function Parse(s: string): Option<Json> {
    match ParseValue(s)
    case None => None
    case Some((v, rest)) => if SkipWs(rest) == [] then Some(v) else None
  }

  // Reading back what the serializer writes.

  lemma {:induction false} SkipWsOver(w: string, t: string)
    requires AllWs(w) && (t == [] || !IsWs(t[0]))
    ensures SkipWs(w + t) == t
  {
    if w != [] {
      assert (w + t)[1..] == w[1..] + t;
      SkipWsOver(w[1..], t);
    }
  }

  lemma ParseValueAfterWs(w: string, x: string)
    requires AllWs(w) && x != [] && !IsWs(x[0])
    ensures ParseValue(w + x) == ParseToken(x)
  {
    SkipWsOver(w, x);
  }

  /** What may follow a value the serializer writes: the end of the text, a
      comma, a closing bracket or the line break before one. */
  predicate Delimiter(rest: string) {
    rest == [] || rest[0] == ',' || rest[0] == ']' || rest[0] == '}' || rest[0] == '\n'
  }

  lemma EscapeCharRead(c: char, rest: string)
    ensures EscapeChar(c) != [] && EscapeChar(c)[0] != '"'
    ensures NextChar(EscapeChar(c) + rest) == Some((c, |EscapeChar(c)|))
  {
    var e := EscapeChar(c);
    if c < ' ' && c != '\U{8}' && c != '\t' && c != '\n' && c != '\U{C}' && c != '\r' {
      var hi, lo := c as int / 16, c as int % 16;
      HexValueOfHexChar(hi, false);
      HexValueOfHexChar(lo, false);
      assert e == ['\\', 'u', '0', '0', HexChar(hi, false), HexChar(lo, false)];
      var s := e + rest;
      assert s[..6] == e;
      assert HexValue(s[2]) == 0 && HexValue(s[3]) == 0 && HexValue(s[4]) == hi && HexValue(s[5]) == lo;
    }
  }

  /** The characters of a string literal come back from its escapes. */
  lemma {:induction false} EscapeRead(s: string, rest: string)
    ensures ParseChars(Escape(s) + "\"" + rest) == Some((s, rest))
  {
    var t := Escape(s) + "\"" + rest;
    if s == [] {
      assert t == "\"" + rest;
    } else {
      var e := EscapeChar(s[0]);
      var tail := Escape(s[1..]) + "\"" + rest;
      assert t == e + tail;
      EscapeCharRead(s[0], tail);
      assert t[|e|..] == tail;
      EscapeRead(s[1..], rest);
      assert [s[0]] + s[1..] == s;
    }
  }

  lemma {:induction false} DigitRunOver(d: string, rest: string)
    requires forall i :: 0 <= i < |d| ==> IsDigit(d[i])
    requires rest == [] || !IsDigit(rest[0])
    ensures DigitRun(d + rest) == d
  {
    if d != [] {
      assert (d + rest)[1..] == d[1..] + rest;
      DigitRunOver(d[1..], rest);
      assert [d[0]] + d[1..] == d;
    }
  }

  lemma NaturalRead(m: nat, rest: string)
    requires rest == [] || !IsDigit(rest[0])
    ensures var u := NatToString(m) + rest;
      DigitRun(u) == NatToString(m) && u[|NatToString(m)|..] == rest
  {
    DigitRunOver(NatToString(m), rest);
  }

  /** A run of digits without a leading zero, after a `-` or not. */
  predicate Numeral(d: string) {
    d != [] && (forall i :: 0 <= i < |d| ==> IsDigit(d[i])) && (|d| > 1 ==> d[0] != '0')
  }

  lemma NegativeDigitsRead(d: string, rest: string)
    requires Numeral(d) && DigitRun(d + rest) == d && (d + rest)[|d|..] == rest
    ensures ParseNumber("-" + d + rest) == Some((JNum(0 - DigitsValue(d)), rest))
  {
    var t := "-" + d + rest;
    assert t[0] == '-' && t[1..] == d + rest;
  }

  lemma NonNegativeDigitsRead(d: string, rest: string)
    requires Numeral(d) && DigitRun(d + rest) == d && (d + rest)[|d|..] == rest
    ensures ParseNumber(d + rest) == Some((JNum(DigitsValue(d)), rest))
  {
    assert (d + rest)[0] == d[0] != '-';
  }

  lemma NegativeRead(m: nat, rest: string)
    requires m > 0 && (rest == [] || !IsDigit(rest[0]))
    ensures ParseNumber("-" + NatToString(m) + rest) == Some((JNum(0 - m), rest))
  {
    DigitsValueOfNatToString(m);
    NaturalRead(m, rest);
    NegativeDigitsRead(NatToString(m), rest);
  }

  lemma NonNegativeRead(m: nat, rest: string)
    requires rest == [] || !IsDigit(rest[0])
    ensures ParseNumber(NatToString(m) + rest) == Some((JNum(m), rest))
  {
    DigitsValueOfNatToString(m);
    NaturalRead(m, rest);
    NonNegativeDigitsRead(NatToString(m), rest);
  }

  lemma NumberRead(n: int, rest: string)
    requires rest == [] || !IsDigit(rest[0])
    ensures ParseNumber(IntToString(n) + rest) == Some((JNum(n), rest))
  {
    if n < 0 {
      NegativeRead(-n, rest);
    } else {
      NonNegativeRead(n, rest);
    }
  }

  /** The first character of a serialized value. */
  predicate BeginsValue(c: char) {
    c == 'n' || c == 't' || c == 'f' || c == '-' || IsDigit(c) || c == '"' || c == '[' || c == '{'
  }

  lemma SerializeBegins(v: Json, gap: string, indent: string)
    ensures var s := Serialize(v, gap, indent); s != [] && BeginsValue(s[0])
  {
    match v
    case JNull =>
    case JBool(b) =>
    case JNum(n) =>
      if n < 0 {
        assert IntToString(n)[0] == '-';
      } else {
        assert IntToString(n)[0] == NatToString(n)[0];
      }
    case JStr(str) =>
      assert Quote(str)[0] == '"';
    case JArr(items) =>
      assert Serialize(v, gap, indent)[0] == '[';
    case JObj(fs) =>
      assert Serialize(v, gap, indent)[0] == '{';
  }

  lemma Cat3(a: string, b: string, c: string)
    ensures a + b + c == a + (b + c)
  {
  }

  lemma SplitHead<T>(xs: seq<T>)
    requires xs != []
    ensures xs == [xs[0]] + xs[1..]
  {
  }

  lemma ItemsTailWellFormed(items: seq<Json>)
    requires items != [] && forall i :: 0 <= i < |items| ==> WellFormed(items[i])
    ensures forall i :: 0 <= i < |items[1..]| ==> WellFormed(items[1..][i])
  {
    forall i | 0 <= i < |items[1..]| ensures WellFormed(items[1..][i]) {
      assert items[1..][i] == items[i + 1];
    }
  }

  lemma FieldsTailWellFormed(fs: seq<(string, Json)>)
    requires fs != [] && forall i :: 0 <= i < |fs| ==> WellFormed(fs[i].1)
    ensures forall i :: 0 <= i < |fs[1..]| ==> WellFormed(fs[1..][i].1)
  {
    forall i | 0 <= i < |fs[1..]| ensures WellFormed(fs[1..][i].1) {
      assert fs[1..][i] == fs[i + 1];
    }
  }

  lemma Single<T>(xs: seq<T>)
    requires |xs| == 1
    ensures xs == [xs[0]]
  {
  }

  lemma DropFirst<T>(c: T, x: seq<T>)
    ensures ([c] + x)[0] == c && ([c] + x)[1..] == x
  {
  }

  lemma LayoutIsWs(gap: string, indent: string)
    requires AllSpaces(gap) && AllSpaces(indent)
    ensures AllWs(Lead(gap, indent)) && AllWs(Trail(gap, indent))
    ensures Trail(gap, indent) == [] || Trail(gap, indent)[0] == '\n'
  {
  }

  /** A scalar reads back as itself. */
  lemma ScalarRead(v: Json, gap: string, indent: string, rest: string)
    requires !v.JArr? && !v.JObj? && Delimiter(rest)
    ensures ParseToken(Serialize(v, gap, indent) + rest) == Some((v, rest))
  {
    match v
    case JNull => WordRead("null", JNull, rest);
    case JBool(b) =>
      if b {
        WordRead("true", JBool(true), rest);
      } else {
        WordRead("false", JBool(false), rest);
      }
    case JNum(n) => NumberTokenRead(n, rest);
    case JStr(str) => StringTokenRead(str, rest);
  }

  lemma WordRead(word: string, v: Json, rest: string)
    requires word != []
    ensures ParseWord(word + rest, word, v) == Some((v, rest))
    ensures (word + rest)[0] == word[0]
  {
    assert (word + rest)[..|word|] == word;
  }

  lemma NumberTokenRead(n: int, rest: string)
    requires rest == [] || !IsDigit(rest[0])
    ensures ParseToken(IntToString(n) + rest) == Some((JNum(n), rest))
  {
    var t := IntToString(n) + rest;
    if n < 0 {
      assert t[0] == '-';
    } else {
      assert t[0] == NatToString(n)[0];
    }
    TokenIsNumber(t);
    NumberRead(n, rest);
  }

  /** A token that starts with `-` or a digit is read as a number. */
  lemma TokenIsNumber(t: string)
    requires t != [] && (t[0] == '-' || IsDigit(t[0]))
    ensures ParseToken(t) == ParseNumber(t)
  {
  }

  lemma StringTokenRead(str: string, rest: string)
    ensures ParseToken(Quote(str) + rest) == Some((JStr(str), rest))
  {
    var t := Quote(str) + rest;
    assert t[0] == '"' && t[1..] == Escape(str) + "\"" + rest;
    EscapeRead(str, rest);
  }

  /** Every value the serializer writes, with any indentation made of
      spaces, reads back as the value, leaving what follows it. */
  lemma {:induction false} ValueRead(v: Json, gap: string, indent: string, rest: string)
    requires WellFormed(v) && AllSpaces(gap) && AllSpaces(indent) && Delimiter(rest)
    ensures ParseToken(Serialize(v, gap, indent) + rest) == Some((v, rest))
    decreases Size(v), 1
  {
    match v
    case JArr(items) => ArrayRead(items, gap, indent, rest);
    case JObj(fs) => ObjectRead(fs, gap, indent, rest);
    case _ => ScalarRead(v, gap, indent, rest);
  }

  /** Serialized brackets with their parts: the opening bracket, then the
      text the item or member reader starts on. */
  lemma OpenBracket(open: char, parts: seq<string>, close: string, gap: string, indent: string, rest: string)
    requires parts != []
    ensures var t := Bracket([open], parts, close, gap, indent) + rest;
      t[0] == open &&
      t[1..] == Lead(gap, indent) + Join(parts, "," + Lead(gap, indent)) + Trail(gap, indent) + close + rest
  {
    var body := Lead(gap, indent) + Join(parts, "," + Lead(gap, indent)) + Trail(gap, indent) + close;
    Cat3([open], body, rest);
    DropFirst(open, body + rest);
  }

  lemma {:induction false} ArrayRead(items: seq<Json>, gap: string, indent: string, rest: string)
    requires WellFormed(JArr(items)) && AllSpaces(gap) && AllSpaces(indent)
    ensures ParseToken(Serialize(JArr(items), gap, indent) + rest) == Some((JArr(items), rest))
    decreases Size(JArr(items)), 0
  {
    var t := Serialize(JArr(items), gap, indent) + rest;
    if items == [] {
      assert t == "[]" + rest;
      assert t[1..] == "]" + rest;
    } else {
      var parts := Elements(items, gap, indent + gap);
      var lead, trail := Lead(gap, indent), Trail(gap, indent);
      OpenBracket('[', parts, "]", gap, indent, rest);
      LayoutIsWs(gap, indent);
      assert AllSpaces(indent + gap);
      ItemsBegin(items, gap, indent + gap, lead, trail, "]", rest);
      ItemsRead(items, gap, indent + gap, lead, trail, rest);
    }
  }

  /** The items' text, after the leading white space, starts with a value. */
  lemma ItemsBegin(items: seq<Json>, gap: string, ind: string, lead: string, trail: string, close: string, rest: string)
    requires items != [] && AllWs(lead)
    ensures var t := SkipWs(lead + Join(Elements(items, gap, ind), "," + lead) + trail + close + rest);
      t != [] && t[0] != ']'
  {
    var j := Join(Elements(items, gap, ind), "," + lead);
    SerializeBegins(items[0], gap, ind);
    JoinFront(Elements(items, gap, ind), "," + lead, trail + (close + rest));
    RegroupLast(lead, j, trail, close, rest);
    SkipWsOver(lead, j + (trail + (close + rest)));
  }

  lemma JoinFront(parts: seq<string>, sep: string, tail: string)
    requires parts != [] && parts[0] != []
    ensures (Join(parts, sep) + tail)[0] == parts[0][0]
  {
  }

  /** The text after the first of several parts, regrouped around it. */
  lemma RegroupLast(lead: string, s0: string, trail: string, close: string, rest: string)
    ensures lead + s0 + trail + close + rest == lead + (s0 + (trail + (close + rest)))
  {
  }

  lemma RegroupMore(lead: string, s0: string, more: string, trail: string, close: string, rest: string)
    ensures lead + (s0 + ("," + lead) + more) + trail + close + rest
      == lead + (s0 + ("," + (lead + more + trail + close + rest)))
  {
  }

  /** The white space after a value, then a closing bracket. */
  lemma CloseAfter(trail: string, close: char, rest: string)
    requires AllWs(trail) && (trail == [] || trail[0] == '\n') && (close == ']' || close == '}')
    ensures Delimiter(trail + ([close] + rest))
    ensures SkipWs(trail + ([close] + rest)) == [close] + rest
    ensures ([close] + rest)[0] == close && ([close] + rest)[1..] == rest
  {
    var t := [close] + rest;
    assert t[0] == close && !IsWs(close);
    SkipWsOver(trail, t);
  }

  /** A comma, then the text of the remaining parts. */
  lemma CommaAfter(more: string)
    ensures Delimiter("," + more) && SkipWs("," + more) == "," + more
    ensures ("," + more)[0] == ',' && ("," + more)[1..] == more
  {
  }

  /** The item reader's two ways on from a value: the closing bracket, or
      a comma and more items. */
  lemma ItemsStepLast(s: string, v: Json, tail: string, rest: string)
    requires ParseValue(s) == Some((v, tail)) && SkipWs(tail) == "]" + rest
    ensures ParseItems(s) == Some(([v], rest))
  {
    DropFirst(']', rest);
  }

  lemma ItemsStepMore(s: string, v: Json, more: string, vs: seq<Json>, rest: string)
    requires ParseValue(s) == Some((v, "," + more)) && ParseItems(more) == Some((vs, rest))
    ensures ParseItems(s) == Some(([v] + vs, rest))
  {
    CommaAfter(more);
  }

  lemma {:induction false} ItemsRead(items: seq<Json>, gap: string, ind: string, lead: string, trail: string, rest: string)
    requires items != [] && forall i :: 0 <= i < |items| ==> WellFormed(items[i])
    requires AllSpaces(gap) && AllSpaces(ind) && AllWs(lead) && AllWs(trail)
    requires trail == [] || trail[0] == '\n'
    ensures ParseItems(lead + Join(Elements(items, gap, ind), "," + lead) + trail + "]" + rest) == Some((items, rest))
    decreases ItemsSize(items), 3
  {
    if |items| == 1 {
      LastItemRead(items, gap, ind, lead, trail, rest);
    } else {
      MoreItemsRead(items, gap, ind, lead, trail, rest);
    }
  }

  lemma {:induction false} LastItemRead(items: seq<Json>, gap: string, ind: string, lead: string, trail: string, rest: string)
    requires |items| == 1 && WellFormed(items[0])
    requires AllSpaces(gap) && AllSpaces(ind) && AllWs(lead) && AllWs(trail)
    requires trail == [] || trail[0] == '\n'
    ensures ParseItems(lead + Join(Elements(items, gap, ind), "," + lead) + trail + "]" + rest) == Some((items, rest))
    decreases ItemsSize(items), 2
  {
    var v := items[0];
    var s0 := Serialize(v, gap, ind);
    assert ItemsSize(items) == Size(v) + ItemsSize(items[1..]);
    var tail := trail + ("]" + rest);
    CloseAfter(trail, ']', rest);
    SerializeBegins(v, gap, ind);
    ValueRead(v, gap, ind, tail);
    LastItemText(items, gap, ind, lead, trail, rest);
    LastItemStep(lead, s0, v, tail, rest);
    Single(items);
  }

  /** The text of a single item, regrouped the way the item reader takes it. */
  lemma LastItemText(items: seq<Json>, gap: string, ind: string, lead: string, trail: string, rest: string)
    requires |items| == 1
    ensures lead + Join(Elements(items, gap, ind), "," + lead) + trail + "]" + rest
         == lead + (Serialize(items[0], gap, ind) + (trail + ("]" + rest)))
  {
    var s0 := Serialize(items[0], gap, ind);
    assert Elements(items, gap, ind) == [s0];
    RegroupLast(lead, s0, trail, "]", rest);
  }

  /** White space, one value, then the closing bracket. */
  lemma LastItemStep(lead: string, s0: string, v: Json, tail: string, rest: string)
    requires AllWs(lead) && s0 != [] && BeginsValue(s0[0])
    requires ParseToken(s0 + tail) == Some((v, tail)) && SkipWs(tail) == "]" + rest
    ensures ParseItems(lead + (s0 + tail)) == Some(([v], rest))
  {
    assert (s0 + tail)[0] == s0[0];
    ParseValueAfterWs(lead, s0 + tail);
    ItemsStepLast(lead + (s0 + tail), v, tail, rest);
  }

  lemma {:induction false} MoreItemsRead(items: seq<Json>, gap: string, ind: string, lead: string, trail: string, rest: string)
    requires |items| > 1 && forall i :: 0 <= i < |items| ==> WellFormed(items[i])
    requires AllSpaces(gap) && AllSpaces(ind) && AllWs(lead) && AllWs(trail)
    requires trail == [] || trail[0] == '\n'
    ensures ParseItems(lead + Join(Elements(items, gap, ind), "," + lead) + trail + "]" + rest) == Some((items, rest))
    decreases ItemsSize(items), 2
  {
    var s0 := Serialize(items[0], gap, ind);
    var parts := Elements(items, gap, ind);
    assert ItemsSize(items) == Size(items[0]) + ItemsSize(items[1..]);
    DropFirst(s0, Elements(items[1..], gap, ind));
    var more := Join(parts[1..], "," + lead);
    var after := lead + more + trail + "]" + rest;
    RegroupMore(lead, s0, more, trail, "]", rest);
    CommaAfter(after);
    SerializeBegins(items[0], gap, ind);
    ParseValueAfterWs(lead, s0 + ("," + after));
    ValueRead(items[0], gap, ind, "," + after);
    ItemsTailWellFormed(items);
    ItemsRead(items[1..], gap, ind, lead, trail, rest);
    ItemsStepMore(lead + (s0 + ("," + after)), items[0], after, items[1..], rest);
    SplitHead(items);
  }

  lemma {:induction false} ObjectRead(fs: seq<(string, Json)>, gap: string, indent: string, rest: string)
    requires WellFormed(JObj(fs)) && AllSpaces(gap) && AllSpaces(indent)
    ensures ParseToken(Serialize(JObj(fs), gap, indent) + rest) == Some((JObj(fs), rest))
    decreases Size(JObj(fs)), 0
  {
    var t := Serialize(JObj(fs), gap, indent) + rest;
    if fs == [] {
      assert t == "{}" + rest;
      assert t[1..] == "}" + rest;
    } else {
      var parts := Members(fs, gap, indent + gap);
      var lead, trail := Lead(gap, indent), Trail(gap, indent);
      var body := lead + Join(parts, "," + lead) + trail + "}" + rest;
      OpenBracket('{', parts, "}", gap, indent, rest);
      LayoutIsWs(gap, indent);
      assert AllSpaces(indent + gap);
      forall i | 0 <= i < |fs| ensures WellFormed(fs[i].1) {
        assert fs[i] in fs;
      }
      MembersBegin(fs, gap, indent + gap, lead, trail, "}", rest);
      MembersRead(fs, gap, indent + gap, lead, trail, rest);
      ObjectStep(body, fs, rest);
      ObjectToken(t, body);
    }
  }

  lemma ObjectToken(t: string, body: string)
    requires t != [] && t[0] == '{' && t[1..] == body
    ensures ParseToken(t) == ParseObject(body)
  {
  }

  /** Members with distinct names make an object with those members. */
  lemma ObjectStep(body: string, fs: seq<(string, Json)>, rest: string)
    requires var t := SkipWs(body); t != [] && t[0] != '}'
    requires ParseMembers(body) == Some((fs, rest)) && OrderedMap.DistinctKeys(fs)
    ensures ParseObject(body) == Some((JObj(fs), rest))
  {
    assert [] + fs == fs;
    OrderedMap.PutAllFresh([], fs);
  }

  lemma MembersBegin(fs: seq<(string, Json)>, gap: string, ind: string, lead: string, trail: string, close: string, rest: string)
    requires fs != [] && AllWs(lead)
    ensures var t := SkipWs(lead + Join(Members(fs, gap, ind), "," + lead) + trail + close + rest);
      t != [] && t[0] != '}'
  {
    var parts := Members(fs, gap, ind);
    var j := Join(parts, "," + lead);
    assert parts[0][0] == '"';
    JoinFront(parts, "," + lead, trail + (close + rest));
    RegroupLast(lead, j, trail, close, rest);
    SkipWsOver(lead, j + (trail + (close + rest)));
  }

  lemma RegroupMember(e: string, sp: string, s0: string, tail: string)
    ensures "\"" + e + "\"" + ":" + sp + s0 + tail == "\"" + (e + "\"" + (":" + (sp + (s0 + tail))))
  {
  }

  /** One `"name":value` member, after white space, reads back as its
      name and value. */
  lemma {:induction false} MemberRead(lead: string, key: string, v: Json, gap: string, ind: string, tail: string)
    requires AllWs(lead) && WellFormed(v) && AllSpaces(gap) && AllSpaces(ind) && Delimiter(tail)
    ensures ParseMember(lead + (Member(key, Serialize(v, gap, ind), gap) + tail)) == Some(((key, v), tail))
    decreases Size(v), 2
  {
    var s0 := Serialize(v, gap, ind);
    var sp := if gap == "" then "" else " ";
    var after := sp + (s0 + tail);
    RegroupMember(Escape(key), sp, s0, tail);
    EscapeRead(key, ":" + after);
    SerializeBegins(v, gap, ind);
    ParseValueAfterWs(sp, s0 + tail);
    ValueRead(v, gap, ind, tail);
    var x := Escape(key) + "\"" + (":" + after);
    DropFirst('"', x);
    SkipWsOver(lead, "\"" + x);
    ColonAfter(after);
    MemberStep(lead + ("\"" + x), "\"" + x, key, ":" + after, v, tail);
  }

  /** The member reader, one step: a name in quotes, a colon, a value. */
  lemma MemberStep(s: string, t: string, key: string, u: string, v: Json, tail: string)
    requires SkipWs(s) == t && t != [] && t[0] == '"' && ParseChars(t[1..]) == Some((key, u))
    requires SkipWs(u) == u && u != [] && u[0] == ':' && ParseValue(u[1..]) == Some((v, tail))
    ensures ParseMember(s) == Some(((key, v), tail))
  {
  }

  lemma ColonAfter(after: string)
    ensures SkipWs(":" + after) == ":" + after
    ensures (":" + after)[0] == ':' && (":" + after)[1..] == after
  {
  }

  /** The member reader's two ways on from a member: the closing brace, or
      a comma and more members. */
  lemma MembersStepLast(s: string, m: (string, Json), tail: string, rest: string)
    requires ParseMember(s) == Some((m, tail)) && SkipWs(tail) == "}" + rest
    ensures ParseMembers(s) == Some(([m], rest))
  {
    DropFirst('}', rest);
  }

  lemma MembersStepMore(s: string, m: (string, Json), more: string, ms: seq<(string, Json)>, rest: string)
    requires ParseMember(s) == Some((m, "," + more)) && ParseMembers(more) == Some((ms, rest))
    ensures ParseMembers(s) == Some(([m] + ms, rest))
  {
    CommaAfter(more);
  }

  lemma {:induction false} MembersRead(fs: seq<(string, Json)>, gap: string, ind: string, lead: string, trail: string, rest: string)
    requires fs != [] && forall i :: 0 <= i < |fs| ==> WellFormed(fs[i].1)
    requires AllSpaces(gap) && AllSpaces(ind) && AllWs(lead) && AllWs(trail)
    requires trail == [] || trail[0] == '\n'
    ensures ParseMembers(lead + Join(Members(fs, gap, ind), "," + lead) + trail + "}" + rest) == Some((fs, rest))
    decreases FieldsSize(fs), 5
  {
    if |fs| == 1 {
      LastMemberRead(fs, gap, ind, lead, trail, rest);
    } else {
      MoreMembersRead(fs, gap, ind, lead, trail, rest);
    }
  }

  lemma MembersHead(fs: seq<(string, Json)>, gap: string, ind: string)
    requires fs != []
    ensures Members(fs, gap, ind) == [Member(fs[0].0, Serialize(fs[0].1, gap, ind), gap)] + Members(fs[1..], gap, ind)
    ensures FieldsSize(fs) == Size(fs[0].1) + FieldsSize(fs[1..])
  {
    assert fs[0] in fs;
  }

  lemma {:induction false} LastMemberRead(fs: seq<(string, Json)>, gap: string, ind: string, lead: string, trail: string, rest: string)
    requires |fs| == 1 && WellFormed(fs[0].1)
    requires AllSpaces(gap) && AllSpaces(ind) && AllWs(lead) && AllWs(trail)
    requires trail == [] || trail[0] == '\n'
    ensures ParseMembers(lead + Join(Members(fs, gap, ind), "," + lead) + trail + "}" + rest) == Some((fs, rest))
    decreases FieldsSize(fs), 4
  {
    var key, v := fs[0].0, fs[0].1;
    MembersHead(fs, gap, ind);
    var m0 := Member(key, Serialize(v, gap, ind), gap);
    var parts := Members(fs, gap, ind);
    DropFirst(m0, Members(fs[1..], gap, ind));
    assert Join(parts, "," + lead) == m0;
    var tail := trail + ("}" + rest);
    RegroupLast(lead, m0, trail, "}", rest);
    CloseAfter(trail, '}', rest);
    MemberRead(lead, key, v, gap, ind, tail);
    MembersStepLast(lead + (m0 + tail), (key, v), tail, rest);
    Single(fs);
  }

  /** The text of several members: the first member, a comma, and the text
      of the others. */
  lemma MembersTextSplit(fs: seq<(string, Json)>, gap: string, ind: string, lead: string, trail: string, rest: string)
    requires |fs| > 1
    ensures lead + Join(Members(fs, gap, ind), "," + lead) + trail + "}" + rest
      == lead + (Member(fs[0].0, Serialize(fs[0].1, gap, ind), gap)
        + ("," + (lead + Join(Members(fs[1..], gap, ind), "," + lead) + trail + "}" + rest)))
  {
    var m0 := Member(fs[0].0, Serialize(fs[0].1, gap, ind), gap);
    MembersHead(fs, gap, ind);
    DropFirst(m0, Members(fs[1..], gap, ind));
    RegroupMore(lead, m0, Join(Members(fs[1..], gap, ind), "," + lead), trail, "}", rest);
  }

  lemma {:induction false} MoreMembersRead(fs: seq<(string, Json)>, gap: string, ind: string, lead: string, trail: string, rest: string)
    requires |fs| > 1 && forall i :: 0 <= i < |fs| ==> WellFormed(fs[i].1)
    requires AllSpaces(gap) && AllSpaces(ind) && AllWs(lead) && AllWs(trail)
    requires trail == [] || trail[0] == '\n'
    ensures ParseMembers(lead + Join(Members(fs, gap, ind), "," + lead) + trail + "}" + rest) == Some((fs, rest))
    decreases FieldsSize(fs), 4
  {
    var key, v := fs[0].0, fs[0].1;
    assert fs[0] in fs;
    assert FieldsSize(fs) == Size(v) + FieldsSize(fs[1..]);
    var m0 := Member(key, Serialize(v, gap, ind), gap);
    var rem := lead + Join(Members(fs[1..], gap, ind), "," + lead) + trail + "}" + rest;
    MembersTextSplit(fs, gap, ind, lead, trail, rest);
    CommaAfter(rem);
    MemberRead(lead, key, v, gap, ind, "," + rem);
    FieldsTailWellFormed(fs);
    MembersRead(fs[1..], gap, ind, lead, trail, rest);
    MembersStepMore(lead + (m0 + ("," + rem)), (key, v), rem, fs[1..], rest);
    assert (key, v) == fs[0];
    SplitHead(fs);
  }

  /** `JSON.parse` reads back the text `JSON.stringify` writes, compact or
      with any indentation made of spaces. */
  lemma SerializeParse(v: Json, gap: string)
    requires WellFormed(v) && AllSpaces(gap)
    ensures Parse(Serialize(v, gap, "")) == Some(v)
  {
    var s := Serialize(v, gap, "");
    SerializeBegins(v, gap, "");
    ValueRead(v, gap, "", []);
    assert s + [] == s;
    TokenAtStart(s);
    WholeRead(s, v);
  }

  /** A text that starts with a value has no white space to skip. */
  lemma TokenAtStart(s: string)
    requires s != [] && BeginsValue(s[0])
    ensures ParseValue(s) == ParseToken(s)
  {
    assert SkipWs(s) == s;
  }

  /** A value with nothing after it is a whole JSON text. */
  lemma WholeRead(s: string, v: Json)
    requires ParseValue(s) == Some((v, []))
    ensures Parse(s) == Some(v)
  {
  }

  /** The file the JSON export writes reads back as the response data. */
  lemma PrettyParse(v: Json)
    requires WellFormed(v)
    ensures Parse(Pretty(v)) == Some(v)
  {
    SerializeParse(v, "  ");
  }
}
