/** JSON text: the printer and the grammar the parser accepts.  A number that
    is not a 64-bit integer reads as a floating-point value, which this model
    does not have; such text is `Bad` here.
 */
module JsonText {
  import opened Sequences
  import opened ByteStrings
  import opened NamedItems
  import opened JsonValues

  const NULL_TEXT: bytes := [110, 117, 108, 108]
  const TRUE_TEXT: bytes := [116, 114, 117, 101]
  const FALSE_TEXT: bytes := [102, 97, 108, 115, 101]

  const QUOTE := 34
  const COMMA := 44
  const COLON := 58
  const BACKSLASH := 92

  // ------------------------------------------------------------------
  // Printing
  // ------------------------------------------------------------------

  function HexDigit(n: int): byte
    requires 0 <= n < 16
  {
    if n < 10 then 48 + n else 87 + n
  }

  function EscapeByte(c: byte): bytes {
    if c == QUOTE || c == BACKSLASH then [BACKSLASH, c]
    else if c == 10 then [BACKSLASH, 110]
    else if c == 13 then [BACKSLASH, 114]
    else if c == 9 then [BACKSLASH, 116]
    else if c < 32 then [BACKSLASH, 117, 48, 48, HexDigit(c / 16), HexDigit(c % 16)]
    else [c]
  }

  function Escaped(s: bytes): bytes {
    if s == [] then [] else EscapeByte(s[0]) + Escaped(s[1..])
  }

  function StringText(s: bytes): bytes {
    [QUOTE] + Escaped(s) + [QUOTE]
  }

  function IntText(i: i64): bytes {
    if i < 0 then [45] + Digits(0 - i) else Digits(i)
  }

  function Text(j: Json, canonical: bool): bytes
    decreases j, 1
  {
    match j
    case JNull => NULL_TEXT
    case JBool(b) => if b then TRUE_TEXT else FALSE_TEXT
    case JInt(i) => IntText(i)
    case JStr(s) => StringText(s)
    case JArr(items) => [91] + ItemsText(items, canonical) + [93]
    case JObj(fields) =>
      var printed := FieldTexts(fields, canonical);
      [123] + Joined(if canonical then SortByName(printed) else printed) + [125]
  }

  function ItemsText(items: seq<Json>, canonical: bool): bytes
    decreases items, 0
  {
    if items == [] then [] else
    Text(items[0], canonical) + if |items| == 1 then [] else [COMMA] + ItemsText(items[1..], canonical)
  }

  /** Each field's value printed. */
  function FieldTexts(fields: seq<Named<Json>>, canonical: bool): (r: seq<Named<bytes>>)
    ensures |r| == |fields|
    decreases fields, 0
  {
    if fields == [] then [] else
    [Named(fields[0].name, Text(fields[0].item, canonical))] + FieldTexts(fields[1..], canonical)
  }

  function Joined(printed: seq<Named<bytes>>): bytes {
    if printed == [] then [] else
    StringText(printed[0].name) + [COLON] + printed[0].item +
    if |printed| == 1 then [] else [COMMA] + Joined(printed[1..])
  }

  lemma {:induction false} InsertTexts(f: Named<Json>, fields: seq<Named<Json>>, canonical: bool)
    ensures InsertByName(Named(f.name, Text(f.item, canonical)), FieldTexts(fields, canonical)) ==
      FieldTexts(InsertByName(f, fields), canonical)
  {
    if fields != [] && Less(fields[0].name, f.name) {
      InsertTexts(f, fields[1..], canonical);
    } else {
      assert ([f] + fields)[1..] == fields;
    }
  }

  /** Sorting before printing is sorting what was printed. */
  lemma {:induction false} SortTexts(fields: seq<Named<Json>>, canonical: bool)
    ensures SortByName(FieldTexts(fields, canonical)) == FieldTexts(SortByName(fields), canonical)
  {
    if fields != [] {
      SortTexts(fields[1..], canonical);
      InsertTexts(fields[0], SortByName(fields[1..]), canonical);
    }
  }

  // ------------------------------------------------------------------
  // Parsing
  // ------------------------------------------------------------------

  /** What was read, and the text left after it. */
  datatype Parsed<+T> = Bad | Ok(value: T, rest: bytes)

  predicate IsSpace(c: byte) {
    c == 32 || c == 9 || c == 10 || c == 13
  }

  predicate IsDigit(c: byte) {
    48 <= c <= 57
  }

  function SkipWs(t: bytes): (r: bytes)
    ensures |r| <= |t|
  {
    if t != [] && IsSpace(t[0]) then SkipWs(t[1..]) else t
  }

  function HexValue(h: byte): (v: int)
    ensures -1 <= v < 16
  {
    if 48 <= h <= 57 then h - 48
    else if 97 <= h <= 102 then h - 87
    else if 65 <= h <= 70 then h - 55
    else -1
  }

  /** A code point of the basic plane in UTF-8. */
  function Utf8(cp: int): bytes
    requires 0 <= cp < 0x10000
  {
    if cp < 0x80 then [cp]
    else if cp < 0x800 then [0xC0 + cp / 64, 0x80 + cp % 64]
    else [0xE0 + cp / 4096, 0x80 + cp / 64 % 64, 0x80 + cp % 64]
  }

  /** The byte an escape letter stands for. */
  function Unescape(e: byte): int {
    if e == QUOTE || e == BACKSLASH || e == 47 then e
    else if e == 110 then 10
    else if e == 116 then 9
    else if e == 114 then 13
    else if e == 98 then 8
    else if e == 102 then 12
    else -1
  }

  function Before(s: bytes, r: Parsed<bytes>): Parsed<bytes> {
    if r.Ok? then Ok(s + r.value, r.rest) else Bad
  }

  /** The rest of a string, after its opening quote. */
  function StringRest(t: bytes): (r: Parsed<bytes>)
    ensures r.Ok? ==> |r.rest| < |t|
  {
    if t == [] then Bad
    else if t[0] == QUOTE then Ok([], t[1..])
    else if t[0] != BACKSLASH then Before([t[0]], StringRest(t[1..]))
    else if |t| == 1 then Bad
    else if t[1] == 117 then
      if |t| < 6 then Bad else
      var a, b, c, d := HexValue(t[2]), HexValue(t[3]), HexValue(t[4]), HexValue(t[5]);
      if a < 0 || b < 0 || c < 0 || d < 0 then Bad
      else Before(Utf8(((a * 16 + b) * 16 + c) * 16 + d), StringRest(t[6..]))
    else if Unescape(t[1]) < 0 then Bad
    else Before([Unescape(t[1])], StringRest(t[2..]))
  }

  function LeadingDigits(t: bytes): (n: nat)
    ensures n <= |t|
    ensures forall i :: 0 <= i < n ==> IsDigit(t[i])
  {
    if t != [] && IsDigit(t[0]) then 1 + LeadingDigits(t[1..]) else 0
  }

  function Number(t: bytes): (r: Parsed<Json>)
    requires t != []
    ensures r.Ok? ==> |r.rest| < |t|
  {
    if t[0] == 45 then Unsigned(true, t[1..]) else Unsigned(false, t)
  }

  function Unsigned(negative: bool, digits: bytes): (r: Parsed<Json>)
    ensures r.Ok? ==> |r.rest| < |digits|
  {
    var n := LeadingDigits(digits);
    var after := digits[n..];
    if n == 0 || (after != [] && (after[0] == 46 || after[0] == 101 || after[0] == 69)) then Bad
    else InRange(negative, DigitsValue(digits[..n]), after)
  }

  function InRange(negative: bool, magnitude: int, after: bytes): (r: Parsed<Json>)
    ensures r.Ok? ==> r.rest == after
  {
    var value := if negative then 0 - magnitude else magnitude;
    if -I64_LIMIT <= value < I64_LIMIT then Ok(JInt(value), after) else Bad
  }

  function Literal(t: bytes, word: bytes, j: Json): (r: Parsed<Json>)
    requires word != []
    ensures r.Ok? ==> |r.rest| < |t|
  {
    if word <= t then Ok(j, t[|word|..]) else Bad
  }

  function Value(t: bytes): (r: Parsed<Json>)
    ensures r.Ok? ==> |r.rest| < |t|
    decreases |t|, 0
  {
    var u := SkipWs(t);
    if u == [] then Bad
    else if u[0] == 123 then ObjectRest(u[1..])
    else if u[0] == 91 then ArrayRest(u[1..])
    else if u[0] == QUOTE then
      var s := StringRest(u[1..]);
      if s.Ok? then Ok(JStr(s.value), s.rest) else Bad
    else if u[0] == 116 || u[0] == 102 then
      if TRUE_TEXT <= u then Literal(u, TRUE_TEXT, JBool(true)) else Literal(u, FALSE_TEXT, JBool(false))
    else if u[0] == 110 then Literal(u, NULL_TEXT, JNull)
    else if u[0] == 45 || IsDigit(u[0]) then Number(u)
    else Bad
  }

  /** After the opening brace. */
  function ObjectRest(t: bytes): (r: Parsed<Json>)
    ensures r.Ok? ==> |r.rest| < |t|
    decreases |t|, 2
  {
    var w := SkipWs(t);
    if w != [] && w[0] == 125 then Ok(JObj([]), w[1..]) else
    var m := Members(w);
    if m.Ok? then Ok(JObj(m.value), m.rest) else Bad
  }

  /** After the opening bracket. */
  function ArrayRest(t: bytes): (r: Parsed<Json>)
    ensures r.Ok? ==> |r.rest| < |t|
    decreases |t|, 2
  {
    var w := SkipWs(t);
    if w != [] && w[0] == 93 then Ok(JArr([]), w[1..]) else
    var m := Items(w);
    if m.Ok? then Ok(JArr(m.value), m.rest) else Bad
  }

  /** A comma, when more follows, or the closing character. */
  function Separator(t: bytes, close: byte): (r: Parsed<bool>)
    ensures r.Ok? ==> |r.rest| < |t|
  {
    var u := SkipWs(t);
    if u == [] then Bad
    else if u[0] == COMMA then Ok(true, u[1..])
    else if u[0] == close then Ok(false, u[1..])
    else Bad
  }

  function Items(t: bytes): (r: Parsed<seq<Json>>)
    ensures r.Ok? ==> |r.rest| < |t|
    decreases |t|, 1
  {
    var v := Value(t);
    if v.Bad? then Bad else
    var sep := Separator(v.rest, 93);
    if sep.Bad? then Bad
    else if sep.value then
      var more := Items(sep.rest);
      if more.Ok? then Ok([v.value] + more.value, more.rest) else Bad
    else Ok([v.value], sep.rest)
  }

  function Members(t: bytes): (r: Parsed<seq<Named<Json>>>)
    ensures r.Ok? ==> |r.rest| < |t|
    decreases |t|, 1
  {
    var m := Member(t);
    if m.Bad? then Bad else
    var sep := Separator(m.rest, 125);
    if sep.Bad? then Bad
    else if sep.value then
      var more := Members(sep.rest);
      if more.Ok? then Ok([m.value] + more.value, more.rest) else Bad
    else Ok([m.value], sep.rest)
  }

  /** A key, a colon and a value. */
  function Member(t: bytes): (r: Parsed<Named<Json>>)
    ensures r.Ok? ==> |r.rest| < |t|
    decreases |t|, 0
  {
    var key := Key(t);
    if key.Bad? then Bad else
    var v := Value(key.rest);
    if v.Ok? then Ok(Named(key.value, v.value), v.rest) else Bad
  }

  function Key(t: bytes): (r: Parsed<bytes>)
    ensures r.Ok? ==> |r.rest| < |t|
  {
    var u := SkipWs(t);
    if u == [] || u[0] != QUOTE then Bad else
    var key := StringRest(u[1..]);
    if key.Bad? then Bad else
    var w := SkipWs(key.rest);
    if w == [] || w[0] != COLON then Bad else Ok(key.value, w[1..])
  }

  /** A whole text: an optional byte-order mark, a value, nothing after it. */
  function Parse(text: bytes): Parsed<Json> {
    var v := Value(if [0xEF, 0xBB, 0xBF] <= text then text[3..] else text);
    if v.Ok? && SkipWs(v.rest) == [] then Ok(v.value, []) else Bad
  }

  // ------------------------------------------------------------------
  // Reading back what was printed
  // ------------------------------------------------------------------

  lemma Consumed(e: bytes, t: bytes)
    ensures (e + t)[|e|..] == t
  {
  }

  /** A control byte is written with four hex digits. */
  lemma ControlRead(c: byte, t: bytes)
    requires c < 32
    ensures StringRest([BACKSLASH, 117, 48, 48, HexDigit(c / 16), HexDigit(c % 16)] + t) == Before([c], StringRest(t))
  {
    var e: bytes := [BACKSLASH, 117, 48, 48, HexDigit(c / 16), HexDigit(c % 16)];
    var s := e + t;
    Consumed(e, t);
    assert |s| >= 6 && s[0] == BACKSLASH && s[1] == 117 && s[6..] == t;
    assert HexValue(s[2]) == 0 && HexValue(s[3]) == 0 && HexValue(s[4]) == c / 16 && HexValue(s[5]) == c % 16;
    assert c / 16 * 16 + c % 16 == c;
  }

  lemma EscapeRead(c: byte, t: bytes)
    ensures StringRest(EscapeByte(c) + t) == Before([c], StringRest(t))
  {
    var e := EscapeByte(c);
    Consumed(e, t);
    if |e| == 6 {
      ControlRead(c, t);
    } else if |e| == 2 {
      assert (e + t)[0] == BACKSLASH && Unescape((e + t)[1]) == c;
    } else {
      assert (e + t)[0] == c;
    }
  }

  lemma {:induction false} StringReadsBack(s: bytes, t: bytes)
    ensures StringRest(Escaped(s) + [QUOTE] + t) == Ok(s, t)
  {
    if s == [] {
      assert Escaped(s) + [QUOTE] + t == [QUOTE] + t;
    } else {
      StringReadsBack(s[1..], t);
      EscapeRead(s[0], Escaped(s[1..]) + [QUOTE] + t);
      assert Escaped(s) + [QUOTE] + t == EscapeByte(s[0]) + (Escaped(s[1..]) + [QUOTE] + t);
      assert s == [s[0]] + s[1..];
    }
  }

  /** Text after which a number ends: none, or a delimiter. */
  predicate Ends(t: bytes) {
    t != [] ==> t[0] == COMMA || t[0] == 93 || t[0] == 125
  }

  lemma {:induction false} DigitsEnd(d: bytes, t: bytes)
    requires Ends(t) && forall i :: 0 <= i < |d| ==> IsDigit(d[i])
    ensures LeadingDigits(d + t) == |d|
  {
    if d == [] {
      assert d + t == t;
    } else {
      DigitsEnd(d[1..], t);
      assert (d + t)[1..] == d[1..] + t;
    }
  }

  function Magnitude(i: i64): nat {
    if i < 0 then 0 - i else i
  }

  lemma UnsignedReadsBack(negative: bool, d: bytes, t: bytes)
    requires d != [] && Ends(t) && forall i :: 0 <= i < |d| ==> IsDigit(d[i])
    ensures Unsigned(negative, d + t) == InRange(negative, DigitsValue(d), t)
  {
    DigitsEnd(d, t);
    assert (d + t)[..|d|] == d && (d + t)[|d|..] == t;
  }

  lemma NumberReadsBack(i: i64, t: bytes)
    requires Ends(t)
    ensures Number(IntText(i) + t) == Ok(JInt(i), t)
  {
    var d := Digits(Magnitude(i));
    DigitsRoundTrip(Magnitude(i));
    UnsignedReadsBack(i < 0, d, t);
    if i < 0 {
      AppendAssociates([45], d, t);
      assert ([45] + (d + t))[1..] == d + t;
    } else {
      assert (d + t)[0] == d[0] && IsDigit(d[0]);
    }
  }

  lemma NumberNext(u: bytes)
    requires u != [] && (u[0] == 45 || IsDigit(u[0]))
    ensures Value(u) == Number(u)
  {
    assert SkipWs(u) == u;
    assert u[0] != 123 && u[0] != 91 && u[0] != QUOTE && u[0] != 116 && u[0] != 102 && u[0] != 110;
  }

  lemma IntReadsBack(i: i64, t: bytes)
    requires Ends(t)
    ensures Value(IntText(i) + t) == Ok(JInt(i), t)
  {
    NumberReadsBack(i, t);
    NumberNext(IntText(i) + t);
  }

  lemma StringValueReadsBack(s: bytes, t: bytes)
    ensures Value(StringText(s) + t) == Ok(JStr(s), t)
  {
    var u := StringText(s) + t;
    assert SkipWs(u) == u;
    assert u[1..] == Escaped(s) + [QUOTE] + t;
    StringReadsBack(s, t);
  }

  lemma LiteralReadsBack(j: Json, t: bytes)
    requires j.JNull? || j.JBool?
    ensures Value(Text(j, false) + t) == Ok(j, t)
  {
    var u := Text(j, false) + t;
    assert SkipWs(u) == u;
    assert u[|Text(j, false)|..] == t;
    assert j == JBool(false) ==> u[0] == 102;
  }

  /** No printed value starts with a space, a closing bracket or a byte-order mark. */
  lemma FirstByte(j: Json, canonical: bool)
    ensures var u := Text(j, canonical);
      u != [] && !IsSpace(u[0]) && u[0] != 93 && u[0] != 125 && u[0] < 128
  {
    match j
    case JInt(i) => assert IsDigit(Digits(Magnitude(i))[0]);
    case _ =>
  }

  lemma {:induction false} ReadsBack(j: Json, t: bytes)
    requires Ends(t)
    ensures Value(Text(j, false) + t) == Ok(j, t)
    decreases j, 1
  {
    match j
    case JNull => LiteralReadsBack(j, t);
    case JBool(_) => LiteralReadsBack(j, t);
    case JInt(i) => IntReadsBack(i, t);
    case JStr(s) => StringValueReadsBack(s, t);
    case JArr(items) =>
      if items != [] { ItemsReadBack(items, t); }
      ArrayReadsBack(items, t);
    case JObj(fields) =>
      if fields != [] { FieldsReadBack(fields, t); }
      ObjectReadsBack(fields, t);
  }

  lemma ArrayReadsBack(items: seq<Json>, t: bytes)
    requires items != [] ==> Items(ItemsText(items, false) + [93] + t) == Ok(items, t)
    ensures Value(Text(JArr(items), false) + t) == Ok(JArr(items), t)
  {
    var u := Text(JArr(items), false) + t;
    var w := ItemsText(items, false) + [93] + t;
    assert u[0] == 91 && u[1..] == w;
    assert SkipWs(u) == u;
    if items != [] { FirstByte(items[0], false); }
    assert SkipWs(w) == w;
    assert items == [] ==> w[1..] == t;
  }

  lemma ObjectStep(w: bytes, fields: seq<Named<Json>>, t: bytes)
    requires w != [] && w[0] == QUOTE && Members(w) == Ok(fields, t)
    ensures Value([123] + w) == Ok(JObj(fields), t)
  {
    var u := [123] + w;
    assert SkipWs(u) == u && u[1..] == w && SkipWs(w) == w;
  }

  lemma BracketShape(a: bytes, x: bytes, b: bytes, t: bytes)
    ensures a + x + b + t == a + (x + b + t)
  {
    AppendAssociates(a, x, b);
    AppendAssociates(a, x + b, t);
  }

  lemma NoFieldsReadBack(t: bytes)
    ensures Value([123, 125] + t) == Ok(JObj([]), t)
  {
    var u := [123, 125] + t;
    assert SkipWs(u) == u && u[1..] == [125] + t;
    assert ([125] + t)[1..] == t;
  }

  lemma FieldsStart(fields: seq<Named<Json>>, t: bytes)
    requires fields != []
    ensures var w := Joined(FieldTexts(fields, false)) + [125] + t; w[0] == QUOTE
  {
    var printed := FieldTexts(fields, false);
    assert StringText(printed[0].name)[0] == QUOTE;
  }

  lemma ObjectReadsBack(fields: seq<Named<Json>>, t: bytes)
    requires fields != [] ==> Members(Joined(FieldTexts(fields, false)) + [125] + t) == Ok(fields, t)
    ensures Value(Text(JObj(fields), false) + t) == Ok(JObj(fields), t)
  {
    var x := Joined(FieldTexts(fields, false));
    assert Text(JObj(fields), false) == [123] + x + [125];
    if fields == [] {
      assert [123] + x + [125] + t == [123, 125] + t;
      NoFieldsReadBack(t);
    } else {
      BracketShape([123], x, [125], t);
      FieldsStart(fields, t);
      ObjectStep(x + [125] + t, fields, t);
    }
  }

  lemma ItemsLast(t: bytes, v: Json, rest: bytes)
    requires Value(t) == Ok(v, [93] + rest)
    ensures Items(t) == Ok([v], rest)
  {
    assert SkipWs([93] + rest) == [93] + rest;
  }

  lemma ItemsMore(t: bytes, v: Json, rest: bytes, more: seq<Json>, end: bytes)
    requires Value(t) == Ok(v, [COMMA] + rest) && Items(rest) == Ok(more, end)
    ensures Items(t) == Ok([v] + more, end)
  {
    assert SkipWs([COMMA] + rest) == [COMMA] + rest;
    assert ([COMMA] + rest)[1..] == rest;
  }

  lemma ItemsShape(first: bytes, more: bytes, t: bytes)
    ensures first + ([COMMA] + more) + [93] + t == first + ([COMMA] + (more + [93] + t))
    ensures first + [] + [93] + t == first + ([93] + t)
  {
    CommaShape(first, [COMMA], more, [93], t);
    AppendNone(first);
    AppendAssociates(first, [93], t);
  }

  lemma {:induction false} ItemsReadBack(items: seq<Json>, t: bytes)
    requires items != []
    ensures Items(ItemsText(items, false) + [93] + t) == Ok(items, t)
    decreases items, 0
  {
    var first := Text(items[0], false);
    if |items| == 1 {
      ReadsBack(items[0], [93] + t);
      ItemsShape(first, [], t);
      ItemsLast(first + ([93] + t), items[0], t);
      assert [items[0]] == items;
    } else {
      var more := ItemsText(items[1..], false);
      ReadsBack(items[0], [COMMA] + (more + [93] + t));
      ItemsReadBack(items[1..], t);
      ItemsShape(first, more, t);
      ItemsMore(first + ([COMMA] + (more + [93] + t)), items[0], more + [93] + t, items[1..], t);
      assert items == [items[0]] + items[1..];
    }
  }

  lemma MembersLast(t: bytes, f: Named<Json>, rest: bytes)
    requires Member(t) == Ok(f, [125] + rest)
    ensures Members(t) == Ok([f], rest)
  {
    assert SkipWs([125] + rest) == [125] + rest;
  }

  lemma MembersMore(t: bytes, f: Named<Json>, rest: bytes, more: seq<Named<Json>>, end: bytes)
    requires Member(t) == Ok(f, [COMMA] + rest) && Members(rest) == Ok(more, end)
    ensures Members(t) == Ok([f] + more, end)
  {
    assert SkipWs([COMMA] + rest) == [COMMA] + rest;
    assert ([COMMA] + rest)[1..] == rest;
  }

  function MemberText(f: Named<Json>): bytes {
    StringText(f.name) + [COLON] + Text(f.item, false)
  }

  lemma LastShape(f: Named<Json>, fields: seq<Named<Json>>, t: bytes)
    requires fields == [f]
    ensures Joined(FieldTexts(fields, false)) + [125] + t == MemberText(f) + ([125] + t)
  {
    var printed := FieldTexts(fields, false);
    assert Joined(printed) == MemberText(f) + [];
    AppendNone(MemberText(f));
    AppendAssociates(MemberText(f), [125], t);
  }

  lemma MoreShape(f: Named<Json>, fields: seq<Named<Json>>, t: bytes)
    requires |fields| > 1 && fields[0] == f
    ensures Joined(FieldTexts(fields, false)) + [125] + t ==
      MemberText(f) + ([COMMA] + (Joined(FieldTexts(fields[1..], false)) + [125] + t))
  {
    var printed, more := FieldTexts(fields, false), Joined(FieldTexts(fields[1..], false));
    assert printed[1..] == FieldTexts(fields[1..], false);
    assert Joined(printed) == MemberText(f) + ([COMMA] + more);
    CommaShape(MemberText(f), [COMMA], more, [125], t);
  }

  lemma CommaShape(a: bytes, comma: bytes, more: bytes, close: bytes, t: bytes)
    ensures a + (comma + more) + close + t == a + (comma + (more + close + t))
  {
    AppendAssociates(a, comma + more, close);
    AppendAssociates(a, comma + more + close, t);
    AppendAssociates(comma, more, close);
    AppendAssociates(comma, more + close, t);
  }

  lemma {:induction false} FieldsReadBack(fields: seq<Named<Json>>, t: bytes)
    requires fields != []
    ensures Members(Joined(FieldTexts(fields, false)) + [125] + t) == Ok(fields, t)
    decreases fields, 0
  {
    var f := fields[0];
    if |fields| == 1 {
      ReadsBack(f.item, [125] + t);
      MemberReadsBack(f, [125] + t);
      assert fields == [f];
      LastShape(f, fields, t);
      MembersLast(MemberText(f) + ([125] + t), f, t);
    } else {
      var rest := Joined(FieldTexts(fields[1..], false)) + [125] + t;
      ReadsBack(f.item, [COMMA] + rest);
      MemberReadsBack(f, [COMMA] + rest);
      FieldsReadBack(fields[1..], t);
      MoreShape(f, fields, t);
      MembersMore(MemberText(f) + ([COMMA] + rest), f, rest, fields[1..], t);
      HeadTail(fields);
    }
  }

  lemma MemberStep(u: bytes, key: bytes, w: bytes, v: Json, rest: bytes)
    requires u != [] && u[0] == QUOTE && StringRest(u[1..]) == Ok(key, [COLON] + w) && Value(w) == Ok(v, rest)
    ensures Member(u) == Ok(Named(key, v), rest)
  {
    assert SkipWs(u) == u && SkipWs([COLON] + w) == [COLON] + w;
    assert ([COLON] + w)[1..] == w;
  }

  lemma MemberShape(key: bytes, text: bytes, t: bytes)
    ensures ([QUOTE] + key + [QUOTE]) + [COLON] + text + t == [QUOTE] + (key + [QUOTE] + ([COLON] + (text + t)))
  {
  }

  lemma MemberReadsBack(f: Named<Json>, t: bytes)
    requires Value(Text(f.item, false) + t) == Ok(f.item, t)
    ensures Member(MemberText(f) + t) == Ok(f, t)
  {
    var w := Text(f.item, false) + t;
    var inner := Escaped(f.name) + [QUOTE] + ([COLON] + w);
    MemberShape(Escaped(f.name), Text(f.item, false), t);
    StringReadsBack(f.name, [COLON] + w);
    assert ([QUOTE] + inner)[1..] == inner;
    MemberStep([QUOTE] + inner, f.name, w, f.item, t);
  }

  /** What is printed parses to the value printed. */
  lemma ParseText(j: Json)
    ensures Parse(Text(j, false)) == Ok(j, [])
  {
    FirstByte(j, false);
    ReadsBack(j, []);
    assert Text(j, false) + [] == Text(j, false);
  }
}
