/** JSON text as it may be written: any spacing, any spelling of each character of a
    string, and any digits of an integer, after RFC 8259.  Whatever the spelling, the
    parser reads the value that is meant.
 */
module JsonSpelling {
  import opened Sequences
  import opened ByteStrings
  import opened NamedItems
  import opened JsonValues
  import opened JsonText

  // ------------------------------------------------------------------
  // Spacing: section 2 of RFC 8259
  // ------------------------------------------------------------------

  const SPACES: set<byte> := {0x20, 0x09, 0x0A, 0x0D}

  predicate Spacing(ws: bytes) {
    forall c :: c in ws ==> c in SPACES
  }

  lemma {:induction false} SpacingSkipped(ws: bytes, t: bytes)
    requires Spacing(ws) && (t != [] ==> t[0] !in SPACES)
    ensures SkipWs(ws + t) == t
  {
    if ws == [] {
      AppendNone(t);
    } else {
      assert ws[0] in ws;
      AppendTail(ws, t);
      SpacingSkipped(ws[1..], t);
    }
  }

  // ------------------------------------------------------------------
  // Characters of a string: section 7 of RFC 8259
  // ------------------------------------------------------------------

  /** The escape letters and the bytes they stand for. */
  const LETTERS: seq<(byte, byte)> :=
    [(0x22, 0x22), (0x5C, 0x5C), (0x2F, 0x2F), (0x62, 0x08), (0x66, 0x0C), (0x6E, 0x0A), (0x72, 0x0D), (0x74, 0x09)]

  type Nibble = n: nat | n < 16
  type LetterIndex = n: nat | n < 8

  datatype Hex = Hex(value: Nibble, upper: bool)

  datatype Glyph = Plain(raw: byte) | Letter(i: LetterIndex) | Code(a: Hex, b: Hex, c: Hex, d: Hex)

  predicate GlyphOk(g: Glyph) {
    g.Plain? ==> g.raw != 0x22 && g.raw != 0x5C
  }

  function HexText(h: Hex): byte {
    if h.value < 10 then 0x30 + h.value else (if h.upper then 0x41 else 0x61) + h.value - 10
  }

  function GlyphText(g: Glyph): bytes {
    match g
    case Plain(c) => [c]
    case Letter(i) => [0x5C, LETTERS[i].0]
    case Code(a, b, c, d) => [0x5C, 0x75, HexText(a), HexText(b), HexText(c), HexText(d)]
  }

  function CodePoint(g: Glyph): (cp: nat)
    requires g.Code?
    ensures cp < 0x10000
  {
    g.a.value * 4096 + g.b.value * 256 + g.c.value * 16 + g.d.value
  }

  function GlyphMeans(g: Glyph): bytes {
    match g
    case Plain(c) => [c]
    case Letter(i) => [LETTERS[i].1]
    case Code(_, _, _, _) => Utf8(CodePoint(g))
  }

  /** The code point that a UTF-8 sequence of up to three bytes stands for, by section 3
      of RFC 3629, or -1 if it is none or not the shortest. */
  function FromUtf8(s: bytes): int {
    if |s| == 1 && s[0] < 0x80 then s[0]
    else if |s| == 2 && 0xC2 <= s[0] <= 0xDF && 0x80 <= s[1] <= 0xBF then
      s[0] as int * 64 + s[1] as int - (0xC0 * 64 + 0x80)
    else if |s| == 3 && 0xE0 <= s[0] <= 0xEF && 0x80 <= s[1] <= 0xBF && 0x80 <= s[2] <= 0xBF
            && (s[0] == 0xE0 ==> 0xA0 <= s[1]) then
      s[0] as int * 4096 + s[1] as int * 64 + s[2] as int - (0xE0 * 4096 + 0x80 * 64 + 0x80)
    else -1
  }

  /** The bytes written for a code point are its UTF-8 sequence. */
  lemma Utf8Exactly(cp: int)
    requires 0 <= cp < 0x10000
    ensures FromUtf8(Utf8(cp)) == cp
  {
    if cp >= 0x800 {
      var hi, lo := cp / 64, cp % 64;
      assert cp == hi * 64 + lo;
      assert hi == hi / 64 * 64 + hi % 64;
      assert cp / 4096 == hi / 64;
    }
  }

  lemma HexRead(h: Hex)
    ensures HexValue(HexText(h)) == h.value
  {
  }

  lemma CodeRead(g: Glyph, t: bytes)
    requires g.Code?
    ensures StringRest(GlyphText(g) + t) == JsonText.Before(GlyphMeans(g), StringRest(t))
  {
    var e := GlyphText(g);
    var s := e + t;
    Consumed(e, t);
    assert |s| >= 6 && s[0] == 0x5C && s[1] == 0x75 && s[6..] == t;
    assert s[2] == HexText(g.a) && s[3] == HexText(g.b) && s[4] == HexText(g.c) && s[5] == HexText(g.d);
    HexRead(g.a);
    HexRead(g.b);
    HexRead(g.c);
    HexRead(g.d);
    var a: int, b: int, c: int, d: int := g.a.value, g.b.value, g.c.value, g.d.value;
    assert ((a * 16 + b) * 16 + c) * 16 + d == CodePoint(g);
  }

  lemma LetterStands(i: LetterIndex)
    ensures Unescape(LETTERS[i].0) == LETTERS[i].1 && LETTERS[i].0 != 117
  {
  }

  lemma GlyphRead(g: Glyph, t: bytes)
    requires GlyphOk(g)
    ensures StringRest(GlyphText(g) + t) == JsonText.Before(GlyphMeans(g), StringRest(t))
  {
    var e := GlyphText(g);
    Consumed(e, t);
    match g
    case Plain(c) =>
      assert (e + t)[0] == c;
    case Letter(i) =>
      LetterStands(i);
      assert (e + t)[0] == 0x5C && (e + t)[1] == LETTERS[i].0;
    case Code(_, _, _, _) =>
      CodeRead(g, t);
  }

  /** No other letter may follow a backslash. */
  lemma UnknownEscapeFails(e: byte, t: bytes)
    requires e != 0x75 && forall i :: 0 <= i < |LETTERS| ==> LETTERS[i].0 != e
    ensures StringRest([0x5C, e] + t) == Bad
  {
    assert LETTERS[0].0 != e && LETTERS[1].0 != e && LETTERS[2].0 != e && LETTERS[3].0 != e;
    assert LETTERS[4].0 != e && LETTERS[5].0 != e && LETTERS[6].0 != e && LETTERS[7].0 != e;
    var s := [0x5C, e] + t;
    assert s[0] == 0x5C && s[1] == e;
  }

  predicate GlyphsOk(s: seq<Glyph>) {
    forall i :: 0 <= i < |s| ==> GlyphOk(s[i])
  }

  /** The characters, the closing quote and what follows. */
  function Quoted(s: seq<Glyph>, tail: bytes): bytes {
    if s == [] then [QUOTE] + tail else GlyphText(s[0]) + Quoted(s[1..], tail)
  }

  function StringMeans(s: seq<Glyph>): bytes {
    if s == [] then [] else GlyphMeans(s[0]) + StringMeans(s[1..])
  }

  /** A string is read as the characters that are meant, however each is spelled. */
  lemma {:induction false} StringSpelled(s: seq<Glyph>, tail: bytes)
    requires GlyphsOk(s)
    ensures StringRest(Quoted(s, tail)) == Ok(StringMeans(s), tail)
  {
    if s == [] {
      assert ([QUOTE] + tail)[1..] == tail;
    } else {
      StringSpelled(s[1..], tail);
      GlyphRead(s[0], Quoted(s[1..], tail));
    }
  }

  // ------------------------------------------------------------------
  // Values
  // ------------------------------------------------------------------

  datatype Tree =
    | Nothing
    | Truth(b: bool)
    | Num(negative: bool, digits: bytes)
    | Quote(s: seq<Glyph>)
    | List(gap: bytes, items: seq<Spaced>)
    | Record(gap: bytes, fields: seq<Field>)

  /** A value with the spacing around it. */
  datatype Spaced = Spaced(before: bytes, tree: Tree, after: bytes)

  /** A key with the spacing around it, and a value. */
  datatype Field = Field(before: bytes, key: seq<Glyph>, colon: bytes, value: Spaced)

  predicate TreeOk(t: Tree) {
    match t
    case Nothing => true
    case Truth(_) => true
    case Num(negative, digits) => digits != [] && AllDigits(digits) && Fits(Signed(negative, digits))
    case Quote(s) => GlyphsOk(s)
    case List(gap, items) => Spacing(gap) && forall i :: 0 <= i < |items| ==> SpacedOk(items[i])
    case Record(gap, fields) => Spacing(gap) && forall i :: 0 <= i < |fields| ==> FieldOk(fields[i])
  }

  predicate SpacedOk(v: Spaced) {
    Spacing(v.before) && Spacing(v.after) && TreeOk(v.tree)
  }

  predicate FieldOk(f: Field) {
    Spacing(f.before) && GlyphsOk(f.key) && Spacing(f.colon) && Spacing(f.value.before) && Spacing(f.value.after)
    && TreeOk(f.value.tree)
  }

  predicate AllDigits(d: bytes) {
    forall i :: 0 <= i < |d| ==> IsDigit(d[i])
  }

  function Signed(negative: bool, digits: bytes): int {
    if negative then 0 - DigitsValue(digits) else DigitsValue(digits)
  }

  /** An integer of 64 bits. */
  predicate Fits(n: int) {
    -I64_LIMIT <= n < I64_LIMIT
  }

  /** The text of the value, then what follows. */
  function Spell(t: Tree, tail: bytes): bytes
    decreases t, 1
  {
    match t
    case Nothing => NULL_TEXT + tail
    case Truth(b) => (if b then TRUE_TEXT else FALSE_TEXT) + tail
    case Num(negative, digits) => if negative then [45] + (digits + tail) else digits + tail
    case Quote(s) => [QUOTE] + Quoted(s, tail)
    case List(gap, items) => [91] + if items == [] then gap + ([93] + tail) else SpellItems(items, tail)
    case Record(gap, fields) => [123] + if fields == [] then gap + ([125] + tail) else SpellFields(fields, tail)
  }

  function SpellItems(items: seq<Spaced>, tail: bytes): bytes
    decreases items, 0
  {
    if items == [] then [] else
    var v := items[0];
    v.before + Spell(v.tree, v.after + if |items| == 1 then [93] + tail else [COMMA] + SpellItems(items[1..], tail))
  }

  function SpellFields(fields: seq<Field>, tail: bytes): bytes
    decreases fields, 0
  {
    if fields == [] then [] else
    var f := fields[0];
    var more := if |fields| == 1 then [125] + tail else [COMMA] + SpellFields(fields[1..], tail);
    f.before + KeyText(f, f.value.before + Spell(f.value.tree, f.value.after + more))
  }

  function KeyText(f: Field, after: bytes): bytes {
    [QUOTE] + Quoted(f.key, f.colon + ([COLON] + after))
  }

  function Means(t: Tree): Json
    decreases t, 1
  {
    match t
    case Nothing => JNull
    case Truth(b) => JBool(b)
    case Num(negative, digits) => if Fits(Signed(negative, digits)) then JInt(Signed(negative, digits)) else JNull
    case Quote(s) => JStr(StringMeans(s))
    case List(_, items) => JArr(ItemsMean(items))
    case Record(_, fields) => JObj(FieldsMean(fields))
  }

  function ItemsMean(items: seq<Spaced>): seq<Json>
    decreases items, 0
  {
    if items == [] then [] else [Means(items[0].tree)] + ItemsMean(items[1..])
  }

  function FieldsMean(fields: seq<Field>): seq<Named<Json>>
    decreases fields, 0
  {
    if fields == [] then [] else
    [Named(StringMeans(fields[0].key), Means(fields[0].value.tree))] + FieldsMean(fields[1..])
  }

  // ------------------------------------------------------------------
  // Reading
  // ------------------------------------------------------------------

  /** What may follow a number. */
  predicate Stops(t: bytes) {
    t != [] ==> !IsDigit(t[0]) && t[0] != 46 && t[0] != 101 && t[0] != 69
  }

  lemma StopsAfter(ws: bytes, t: bytes)
    requires Spacing(ws) && Stops(t)
    ensures Stops(ws + t)
  {
    if ws == [] { AppendNone(t); } else { assert ws[0] in ws; }
  }

  lemma {:induction false} DigitsStop(d: bytes, t: bytes)
    requires Stops(t) && AllDigits(d)
    ensures LeadingDigits(d + t) == |d|
  {
    if d == [] {
      AppendNone(t);
    } else {
      AppendTail(d, t);
      DigitsStop(d[1..], t);
    }
  }

  lemma NumRead(t: Tree, tail: bytes)
    requires t.Num? && TreeOk(t) && Stops(tail)
    ensures Reads(Spell(t, tail), Means(t), tail)
  {
    var d, u := t.digits, Spell(t, tail);
    DigitsStop(d, tail);
    assert (d + tail)[..|d|] == d && (d + tail)[|d|..] == tail && (d + tail)[0] == d[0];
    assert Unsigned(t.negative, d + tail) == Ok(Means(t), tail);
    if t.negative { assert u[1..] == d + tail; }
    NumberNext(u);
  }

  lemma WordRead(t: Tree, tail: bytes)
    requires t.Nothing? || t.Truth?
    ensures Reads(Spell(t, tail), Means(t), tail)
  {
    var u := Spell(t, tail);
    var word := if t.Nothing? then NULL_TEXT else if t.b then TRUE_TEXT else FALSE_TEXT;
    assert u[0] == word[0] && word <= u;
    Consumed(word, tail);
    assert SkipWs(u) == u;
    if t.Truth? && !t.b { assert u[0] == 102 && TRUE_TEXT[0] != u[0]; }
  }

  /** Spacing before a value is passed over. */
  lemma Indented(ws: bytes, u: bytes)
    requires Spacing(ws) && u != [] && u[0] !in SPACES
    ensures Value(ws + u) == Value(u)
  {
    SpacingSkipped(ws, u);
    SpacingSkipped([], u);
    AppendNone(u);
  }

  lemma SeparatorRead(ws: bytes, c: byte, t: bytes, close: byte)
    requires Spacing(ws) && (c == COMMA || c == close) && c !in SPACES && close != COMMA
    ensures Separator(ws + ([c] + t), close) == Ok(c == COMMA, t)
  {
    var u := [c] + t;
    SpacingSkipped(ws, u);
    assert u[1..] == t;
  }

  /** Whatever the spelling, the value that is meant is read, and no more. */
  lemma {:induction false} TreeRead(t: Tree, tail: bytes)
    requires TreeOk(t) && Stops(tail)
    ensures Reads(Spell(t, tail), Means(t), tail)
    decreases t, 1
  {
    match t
    case Nothing => WordRead(t, tail);
    case Truth(_) => WordRead(t, tail);
    case Num(_, _) => NumRead(t, tail);
    case Quote(s) => QuoteRead(s, tail);
    case List(gap, items) =>
      if items == [] {
        EmptyListRead(gap, tail);
      } else {
        ItemsRead(items, tail);
        ListRead(SpellItems(items, tail), ItemsMean(items), tail);
      }
    case Record(gap, fields) =>
      if fields == [] {
        EmptyRecordRead(gap, tail);
      } else {
        FieldsRead(fields, tail);
        RecordRead(SpellFields(fields, tail), FieldsMean(fields), tail);
      }
  }

  /** The text begins with a value, without spacing and not with a closing bracket. */
  predicate Reads(u: bytes, j: Json, tail: bytes) {
    u != [] && u[0] !in SPACES && u[0] != 93 && Value(u) == Ok(j, tail)
  }

  lemma QuoteRead(s: seq<Glyph>, tail: bytes)
    requires GlyphsOk(s)
    ensures Reads([QUOTE] + Quoted(s, tail), JStr(StringMeans(s)), tail)
  {
    var u := [QUOTE] + Quoted(s, tail);
    StringSpelled(s, tail);
    assert u[0] == QUOTE && u[1..] == Quoted(s, tail);
    assert SkipWs(u) == u;
  }

  lemma EmptyListRead(gap: bytes, tail: bytes)
    requires Spacing(gap)
    ensures Reads([91] + (gap + ([93] + tail)), JArr([]), tail)
  {
    var u := [91] + (gap + ([93] + tail));
    SpacingSkipped(gap, [93] + tail);
    assert u[0] == 91 && u[1..] == gap + ([93] + tail) && ([93] + tail)[1..] == tail;
    assert SkipWs(u) == u;
  }

  lemma EmptyRecordRead(gap: bytes, tail: bytes)
    requires Spacing(gap)
    ensures Reads([123] + (gap + ([125] + tail)), JObj([]), tail)
  {
    var u := [123] + (gap + ([125] + tail));
    SpacingSkipped(gap, [125] + tail);
    assert u[0] == 123 && u[1..] == gap + ([125] + tail) && ([125] + tail)[1..] == tail;
    assert SkipWs(u) == u;
  }

  /** The text reads as these items and the closing bracket, spacing before it or not. */
  predicate ReadsItems(t: bytes, js: seq<Json>, tail: bytes) {
    Items(SkipWs(t)) == Items(t) == Ok(js, tail) && SkipWs(t) != [] && SkipWs(t)[0] != 93
  }

  predicate ReadsFields(t: bytes, fs: seq<Named<Json>>, tail: bytes) {
    Members(SkipWs(t)) == Members(t) == Ok(fs, tail) && SkipWs(t) != [] && SkipWs(t)[0] != 125
  }

  lemma ListRead(t: bytes, js: seq<Json>, tail: bytes)
    requires ReadsItems(t, js, tail)
    ensures Reads([91] + t, JArr(js), tail)
  {
    var u := [91] + t;
    assert u[0] == 91 && u[1..] == t && SkipWs(u) == u;
  }

  lemma RecordRead(t: bytes, fs: seq<Named<Json>>, tail: bytes)
    requires ReadsFields(t, fs, tail)
    ensures Reads([123] + t, JObj(fs), tail)
  {
    var u := [123] + t;
    assert u[0] == 123 && u[1..] == t && SkipWs(u) == u;
  }

  lemma {:induction false} ItemsRead(items: seq<Spaced>, tail: bytes)
    requires items != [] && forall i :: 0 <= i < |items| ==> SpacedOk(items[i])
    ensures ReadsItems(SpellItems(items, tail), ItemsMean(items), tail)
    decreases items, 0
  {
    var v := items[0];
    assert SpacedOk(v);
    if |items| == 1 {
      assert items[1..] == [];
      AppendNone([Means(v.tree)]);
      assert ItemsMean(items) == [Means(v.tree)];
      StopsAfter(v.after, [93] + tail);
      TreeRead(v.tree, v.after + ([93] + tail));
      LastItem(v.before, Spell(v.tree, v.after + ([93] + tail)), Means(v.tree), v.after, tail);
    } else {
      var more := SpellItems(items[1..], tail);
      ItemsRead(items[1..], tail);
      StopsAfter(v.after, [COMMA] + more);
      TreeRead(v.tree, v.after + ([COMMA] + more));
      NextItem(v.before, Spell(v.tree, v.after + ([COMMA] + more)), Means(v.tree), v.after, more,
               ItemsMean(items[1..]), tail);
    }
  }

  lemma LastItem(ws: bytes, u: bytes, j: Json, after: bytes, tail: bytes)
    requires Spacing(ws) && Spacing(after) && Reads(u, j, after + ([93] + tail))
    ensures ReadsItems(ws + u, [j], tail)
  {
    Indented(ws, u);
    SpacingSkipped(ws, u);
    SeparatorRead(after, 93, tail, 93);
  }

  lemma NextItem(ws: bytes, u: bytes, j: Json, after: bytes, more: bytes, js: seq<Json>, tail: bytes)
    requires Spacing(ws) && Spacing(after) && Reads(u, j, after + ([COMMA] + more)) && Items(more) == Ok(js, tail)
    ensures ReadsItems(ws + u, [j] + js, tail)
  {
    Indented(ws, u);
    SpacingSkipped(ws, u);
    SeparatorRead(after, COMMA, more, 93);
    MoreItems(u, j, after + ([COMMA] + more), more, js, tail);
    MoreItems(ws + u, j, after + ([COMMA] + more), more, js, tail);
  }

  lemma MoreItems(t: bytes, j: Json, rest: bytes, more: bytes, js: seq<Json>, tail: bytes)
    requires Value(t) == Ok(j, rest) && Separator(rest, 93) == Ok(true, more) && Items(more) == Ok(js, tail)
    ensures Items(t) == Ok([j] + js, tail)
  {
  }

  lemma KeyRead(f: Field, after: bytes)
    requires Spacing(f.before) && GlyphsOk(f.key) && Spacing(f.colon)
    ensures SkipWs(f.before + KeyText(f, after)) == KeyText(f, after)
    ensures Key(f.before + KeyText(f, after)) == Key(KeyText(f, after)) == Ok(StringMeans(f.key), after)
  {
    var rest := f.colon + ([COLON] + after);
    var u := KeyText(f, after);
    SpacingSkipped(f.before, u);
    assert SkipWs(u) == u;
    assert u[0] == QUOTE && u[1..] == Quoted(f.key, rest);
    StringSpelled(f.key, rest);
    SpacingSkipped(f.colon, [COLON] + after);
    assert ([COLON] + after)[1..] == after;
    KeyFrom(u, rest, StringMeans(f.key), after);
    KeyFrom(f.before + u, rest, StringMeans(f.key), after);
  }

  lemma KeyFrom(t: bytes, rest: bytes, key: bytes, after: bytes)
    requires SkipWs(t) != [] && SkipWs(t)[0] == QUOTE && StringRest(SkipWs(t)[1..]) == Ok(key, rest)
    requires SkipWs(rest) == [COLON] + after
    ensures Key(t) == Ok(key, after)
  {
    assert ([COLON] + after)[1..] == after;
  }

  lemma {:induction false} FieldsRead(fields: seq<Field>, tail: bytes)
    requires fields != [] && forall i :: 0 <= i < |fields| ==> FieldOk(fields[i])
    ensures ReadsFields(SpellFields(fields, tail), FieldsMean(fields), tail)
    decreases fields, 0
  {
    var f, v := fields[0], fields[0].value;
    assert FieldOk(f);
    if |fields| == 1 {
      assert fields[1..] == [];
      AppendNone([Named(StringMeans(f.key), Means(v.tree))]);
      assert FieldsMean(fields) == [Named(StringMeans(f.key), Means(v.tree))];
      StopsAfter(v.after, [125] + tail);
      TreeRead(v.tree, v.after + ([125] + tail));
      LastField(f, Spell(v.tree, v.after + ([125] + tail)), Means(v.tree), tail);
    } else {
      var more := SpellFields(fields[1..], tail);
      FieldsRead(fields[1..], tail);
      StopsAfter(v.after, [COMMA] + more);
      TreeRead(v.tree, v.after + ([COMMA] + more));
      NextField(f, Spell(v.tree, v.after + ([COMMA] + more)), Means(v.tree), more, FieldsMean(fields[1..]), tail);
    }
  }

  lemma FieldRead(f: Field, u: bytes, j: Json, rest: bytes)
    requires Spacing(f.before) && GlyphsOk(f.key) && Spacing(f.colon) && Spacing(f.value.before) && Reads(u, j, rest)
    ensures var t := KeyText(f, f.value.before + u);
      && SkipWs(f.before + t) == t && t != [] && t[0] == QUOTE
      && Member(f.before + t) == Member(t) == Ok(Named(StringMeans(f.key), j), rest)
  {
    Indented(f.value.before, u);
    KeyRead(f, f.value.before + u);
  }

  lemma LastField(f: Field, u: bytes, j: Json, tail: bytes)
    requires Spacing(f.before) && GlyphsOk(f.key) && Spacing(f.colon)
    requires Spacing(f.value.before) && Spacing(f.value.after)
    requires Reads(u, j, f.value.after + ([125] + tail))
    ensures ReadsFields(f.before + KeyText(f, f.value.before + u), [Named(StringMeans(f.key), j)], tail)
  {
    var rest := f.value.after + ([125] + tail);
    FieldRead(f, u, j, rest);
    SeparatorRead(f.value.after, 125, tail, 125);
    var t, n := KeyText(f, f.value.before + u), Named(StringMeans(f.key), j);
    NoMoreFields(t, n, rest, tail);
    NoMoreFields(f.before + t, n, rest, tail);
  }

  lemma NextField(f: Field, u: bytes, j: Json, more: bytes, fs: seq<Named<Json>>, tail: bytes)
    requires Spacing(f.before) && GlyphsOk(f.key) && Spacing(f.colon)
    requires Spacing(f.value.before) && Spacing(f.value.after)
    requires Reads(u, j, f.value.after + ([COMMA] + more)) && Members(more) == Ok(fs, tail)
    ensures ReadsFields(f.before + KeyText(f, f.value.before + u), [Named(StringMeans(f.key), j)] + fs, tail)
  {
    var rest := f.value.after + ([COMMA] + more);
    FieldRead(f, u, j, rest);
    var t, n := KeyText(f, f.value.before + u), Named(StringMeans(f.key), j);
    BothContinue(f.before, t, n, f.value.after, more, fs, tail);
  }

  lemma BothContinue(before: bytes, t: bytes, n: Named<Json>, after: bytes, more: bytes, fs: seq<Named<Json>>,
                     tail: bytes)
    requires Spacing(after) && Members(more) == Ok(fs, tail)
    requires Member(before + t) == Member(t) == Ok(n, after + ([COMMA] + more))
    ensures Members(before + t) == Members(t) == Ok([n] + fs, tail)
  {
    SeparatorRead(after, COMMA, more, 125);
    MoreFields(t, n, after + ([COMMA] + more), more, fs, tail);
    MoreFields(before + t, n, after + ([COMMA] + more), more, fs, tail);
  }

  lemma NoMoreFields(t: bytes, f: Named<Json>, rest: bytes, tail: bytes)
    requires Member(t) == Ok(f, rest) && Separator(rest, 125) == Ok(false, tail)
    ensures Members(t) == Ok([f], tail)
  {
  }

  lemma MoreFields(t: bytes, f: Named<Json>, rest: bytes, more: bytes, fs: seq<Named<Json>>, tail: bytes)
    requires Member(t) == Ok(f, rest) && Separator(rest, 125) == Ok(true, more) && Members(more) == Ok(fs, tail)
    ensures Members(t) == Ok([f] + fs, tail)
  {
  }

  const MARK: bytes := [0xEF, 0xBB, 0xBF]

  lemma NoMark(ws: bytes, u: bytes)
    requires Spacing(ws) && u != [] && u[0] != 0xEF
    ensures ws + u != [] && (ws + u)[0] != 0xEF
  {
    if ws != [] { assert ws[0] in ws; }
  }

  /** A value never begins with a byte-order mark. */
  lemma FirstByte(t: Tree, tail: bytes)
    requires TreeOk(t)
    ensures Spell(t, tail) != [] && Spell(t, tail)[0] != 0xEF
  {
    if t.Num? && !t.negative { assert (t.digits + tail)[0] == t.digits[0] && IsDigit(t.digits[0]); }
  }

  /** A whole text, with or without a byte-order mark, parses to the value it spells. */
  lemma AnySpellingParses(v: Spaced, mark: bool)
    requires SpacedOk(v)
    ensures var text := v.before + Spell(v.tree, v.after);
      Parse(if mark then MARK + text else text) == Ok(Means(v.tree), [])
  {
    var u := Spell(v.tree, v.after);
    StopsAfter(v.after, []);
    assert v.after + [] == v.after;
    TreeRead(v.tree, v.after);
    Indented(v.before, u);
    SpacingSkipped(v.after, []);
    if mark {
      Consumed(MARK, v.before + u);
    } else {
      FirstByte(v.tree, v.after);
      NoMark(v.before, u);
    }
  }
}
