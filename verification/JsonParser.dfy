/** The recursive-descent parser with its cursor, against the grammar of
    `JsonText`.  A thrown parse error is `None`.
 */
module JsonParser {
  import opened Wrappers
  import opened ByteStrings
  import opened NamedItems
  import opened JsonValues
  import opened JsonText

  /** The result and the remaining text are those of the grammar. */
  ghost predicate Reads<T>(r: Parsed<T>, out: Option<T>, rest: bytes) {
    match r
    case Bad => out.None?
    case Ok(value, left) => out == Some(value) && rest == left
  }

  function After<T>(done: seq<T>, r: Parsed<seq<T>>): Parsed<seq<T>> {
    if r.Ok? then Ok(done + r.value, r.rest) else Bad
  }

  lemma AfterAfter<T>(a: seq<T>, b: seq<T>, r: Parsed<seq<T>>)
    ensures After(a, After(b, r)) == After(a + b, r)
  {
    if r.Ok? { assert a + (b + r.value) == (a + b) + r.value; }
  }

  class Parser {
    const s: bytes
    var i: nat

    ghost predicate Valid()
      reads this
    {
      i <= |s|
    }

    constructor (text: bytes)
      ensures s == text && Valid() && i == 0
    {
      s, i := text, 0;
    }

    method SkipSpace()
      requires Valid()
      modifies this`i
      ensures Valid() && i >= old(i) && s[i..] == SkipWs(s[old(i)..])
    {
      while i < |s| && IsSpace(s[i])
        invariant Valid() && i >= old(i) && SkipWs(s[i..]) == SkipWs(s[old(i)..])
      {
        Advance(s, i);
        i := i + 1;
      }
    }

    /** Whether the next character is `c`; past the end there is none. */
    predicate At(c: byte)
      reads this
    {
      i < |s| && s[i] == c
    }

    method ParseString() returns (out: Option<bytes>)
      requires Valid() && At(QUOTE)
      modifies this`i
      ensures Valid() && i > old(i) && Reads(StringRest(s[old(i)..][1..]), out, s[i..])
    {
      i := i + 1;
      Advance(s, old(i));
      ghost var start := s[i..];
      var done := [];
      BeforeNone(StringRest(start));
      while true
        invariant Valid() && i > old(i) && StringRest(start) == Before(done, StringRest(s[i..]))
        decreases |s| - i
      {
        if i >= |s| { return None; }
        if s[i] == QUOTE {
          Advance(s, i);
          i := i + 1;
          assert done + [] == done;
          return Some(done);
        }
        var piece := ParsePiece();
        if piece.None? { return None; }
        BeforeBefore(done, piece.value, StringRest(s[i..]));
        done := done + piece.value;
      }
    }

    /** One character of a string, or one escape. */
    method ParsePiece() returns (out: Option<bytes>)
      requires Valid() && i < |s| && s[i] != QUOTE
      modifies this`i
      ensures Valid() && i > old(i)
      ensures out.None? ==> StringRest(s[old(i)..]) == Bad
      ensures out.Some? ==> StringRest(s[old(i)..]) == Before(out.value, StringRest(s[i..]))
    {
      ghost var t := s[i..];
      var c := s[i];
      i := i + 1;
      Advance(s, i - 1);
      if c != BACKSLASH { return Some([c]); }
      if i >= |s| { return None; }
      var e := s[i];
      i := i + 1;
      assert t[1] == e && t[2..] == s[i..];
      if e == 117 {
        out := ParseHex(t);
        return;
      }
      if Unescape(e) < 0 { return None; }
      return Some([Unescape(e)]);
    }

    /** The four digits of a 'u' escape. */
    method ParseHex(ghost t: bytes) returns (out: Option<bytes>)
      requires Valid() && i >= 2 && t == s[i - 2..] && t[0] == BACKSLASH && t[1] == 117
      modifies this`i
      ensures Valid() && i >= old(i)
      ensures out.None? ==> StringRest(t) == Bad
      ensures out.Some? ==> StringRest(t) == Before(out.value, StringRest(s[i..]))
    {
      if i + 4 > |s| { return None; }
      var h := s[i..i + 4];
      assert t[6..] == s[i + 4..] && h == t[2..6];
      HexFour(h);
      HexEscape(t, h);
      var cp := 0;
      for k := 0 to 4
        invariant Valid() && i == old(i) + k && cp == HexFold(h, k) && cp >= 0
      {
        var digit := HexValue(s[i]);
        i := i + 1;
        if digit < 0 {
          HexStays(h, k + 1, 4);
          return None;
        }
        cp := cp * 16 + digit;
      }
      return Some(Utf8(cp));
    }

    method ParseNumber() returns (out: Option<Json>)
      requires Valid() && (At(45) || (i < |s| && IsDigit(s[i])))
      modifies this`i
      ensures Valid() && i >= old(i) && Reads(Number(s[old(i)..]), out, s[i..])
    {
      Advance(s, i);
      if s[i] == 45 {
        i := i + 1;
        out := ParseDigits(true);
      } else {
        out := ParseDigits(false);
      }
    }

    method ParseDigits(negative: bool) returns (out: Option<Json>)
      requires Valid()
      modifies this`i
      ensures Valid() && i >= old(i) && Reads(Unsigned(negative, s[old(i)..]), out, s[i..])
    {
      var start := i;
      ghost var t := s[i..];
      while i < |s| && IsDigit(s[i])
        invariant start <= i <= |s|
        invariant LeadingDigits(t) == (i - start) + LeadingDigits(s[i..])
      {
        Advance(s, i);
        i := i + 1;
      }
      var token := s[start..i];
      DigitsSplit(negative, t, token, s[i..]);
      if token == [] { return None; }
      if i < |s| && (s[i] == 46 || s[i] == 101 || s[i] == 69) { return None; }
      var value := if negative then 0 - DigitsValue(token) else DigitsValue(token);
      if -I64_LIMIT <= value < I64_LIMIT { return Some(JInt(value)); }
      return None;
    }

    method ParseWord(word: bytes, j: Json) returns (out: Option<Json>)
      requires Valid() && word != []
      modifies this`i
      ensures Valid() && i >= old(i) && Reads(Literal(s[old(i)..], word, j), out, s[i..])
    {
      if !(word <= s[i..]) { return None; }
      assert s[i..][|word|..] == s[i + |word|..];
      i := i + |word|;
      return Some(j);
    }

    method ParseValue() returns (out: Option<Json>)
      requires Valid()
      modifies this`i
      ensures Valid() && i >= old(i) && Reads(Value(s[old(i)..]), out, s[i..])
      ensures out.Some? ==> i > old(i)
      decreases |s| - i, 1
    {
      SkipSpace();
      if i >= |s| { return None; }
      ghost var u := s[i..];
      var c := s[i];
      if c == 123 {
        out := ParseObject();
      } else if c == 91 {
        out := ParseArray();
      } else if c == QUOTE {
        var str := ParseString();
        out := if str.None? then None else Some(JStr(str.value));
      } else if c == 116 || c == 102 {
        if TRUE_TEXT <= s[i..] {
          out := ParseWord(TRUE_TEXT, JBool(true));
        } else {
          out := ParseWord(FALSE_TEXT, JBool(false));
        }
      } else if c == 110 {
        out := ParseWord(NULL_TEXT, JNull);
      } else if c == 45 || IsDigit(c) {
        out := ParseNumber();
      } else {
        out := None;
      }
    }

    method ParseObject() returns (out: Option<Json>)
      requires Valid() && At(123)
      modifies this`i
      ensures Valid() && i >= old(i) && Reads(ObjectRest(s[old(i)..][1..]), out, s[i..])
      decreases |s| - i, 0
    {
      i := i + 1;
      Advance(s, old(i));
      SkipSpace();
      if At(125) {
        i := i + 1;
        Advance(s, i - 1);
        return Some(JObj([]));
      }
      var fields := ParseMembers();
      if fields.None? { return None; }
      return Some(JObj(fields.value));
    }

    method ParseMembers() returns (out: Option<seq<Named<Json>>>)
      requires Valid()
      modifies this`i
      ensures Valid() && i >= old(i) && Reads(Members(s[old(i)..]), out, s[i..])
      decreases |s| - i, 3
    {
      ghost var start := s[i..];
      var fields := [];
      AfterNone(Members(start));
      while true
        invariant Valid() && i >= old(i) && Members(start) == After(fields, Members(s[i..]))
        decreases |s| - i
      {
        ghost var t := s[i..];
        var f := ParseMember();
        if f.None? { return None; }
        MembersNext(start, fields, t, f.value, s[i..]);
        var more := ParseSeparator(125);
        if more.None? { return None; }
        fields := fields + [f.value];
        if !more.value { return Some(fields); }
      }
    }

    method ParseSeparator(close: byte) returns (more: Option<bool>)
      requires Valid()
      modifies this`i
      ensures Valid() && i >= old(i) && Reads(Separator(s[old(i)..], close), more, s[i..])
    {
      SkipSpace();
      if i >= |s| { return None; }
      Advance(s, i);
      var c := s[i];
      if c == COMMA {
        i := i + 1;
        return Some(true);
      }
      if c == close {
        i := i + 1;
        return Some(false);
      }
      return None;
    }

    method ParseMember() returns (out: Option<Named<Json>>)
      requires Valid()
      modifies this`i
      ensures Valid() && i >= old(i) && Reads(Member(s[old(i)..]), out, s[i..])
      ensures out.Some? ==> i > old(i)
      decreases |s| - i, 2
    {
      var key := ParseKey();
      if key.None? { return None; }
      var v := ParseValue();
      if v.None? { return None; }
      return Some(Named(key.value, v.value));
    }

    method ParseKey() returns (out: Option<bytes>)
      requires Valid()
      modifies this`i
      ensures Valid() && i >= old(i) && Reads(Key(s[old(i)..]), out, s[i..])
      ensures out.Some? ==> i > old(i)
    {
      SkipSpace();
      if !At(QUOTE) { return None; }
      out := ParseString();
      if out.None? { return None; }
      SkipSpace();
      if !At(COLON) { return None; }
      Advance(s, i);
      i := i + 1;
    }

    method ParseArray() returns (out: Option<Json>)
      requires Valid() && At(91)
      modifies this`i
      ensures Valid() && i >= old(i) && Reads(ArrayRest(s[old(i)..][1..]), out, s[i..])
      decreases |s| - i, 0
    {
      i := i + 1;
      Advance(s, old(i));
      SkipSpace();
      if At(93) {
        i := i + 1;
        Advance(s, i - 1);
        return Some(JArr([]));
      }
      var items := ParseItems();
      if items.None? { return None; }
      return Some(JArr(items.value));
    }

    method ParseItems() returns (out: Option<seq<Json>>)
      requires Valid()
      modifies this`i
      ensures Valid() && i >= old(i) && Reads(Items(s[old(i)..]), out, s[i..])
      decreases |s| - i, 3
    {
      ghost var start := s[i..];
      var items := [];
      AfterNone(Items(start));
      while true
        invariant Valid() && i >= old(i) && Items(start) == After(items, Items(s[i..]))
        decreases |s| - i
      {
        ghost var t := s[i..];
        var v := ParseValue();
        if v.None? { return None; }
        ItemsNext(start, items, t, v.value, s[i..]);
        var more := ParseSeparator(93);
        if more.None? { return None; }
        items := items + [v.value];
        if !more.value { return Some(items); }
      }
    }
  }

  lemma Advance(s: bytes, i: nat)
    requires i < |s|
    ensures s[i..][1..] == s[i + 1..]
  {
  }

  lemma DigitsSplit(negative: bool, t: bytes, token: bytes, after: bytes)
    requires t == token + after && LeadingDigits(t) == |token|
    ensures Unsigned(negative, t) ==
      if token == [] || (after != [] && (after[0] == 46 || after[0] == 101 || after[0] == 69)) then Bad
      else InRange(negative, DigitsValue(token), after)
  {
    assert t[..|token|] == token && t[|token|..] == after;
  }

  lemma BeforeNone(r: Parsed<bytes>)
    ensures Before([], r) == r
  {
    if r.Ok? { assert [] + r.value == r.value; }
  }

  lemma BeforeBefore(a: bytes, b: bytes, r: Parsed<bytes>)
    ensures Before(a, Before(b, r)) == Before(a + b, r)
  {
    if r.Ok? { assert a + (b + r.value) == (a + b) + r.value; }
  }

  lemma AfterNone<T>(r: Parsed<seq<T>>)
    ensures After([], r) == r
  {
    if r.Ok? { assert [] + r.value == r.value; }
  }

  lemma MembersNext(start: bytes, done: seq<Named<Json>>, t: bytes, f: Named<Json>, left: bytes)
    requires Members(start) == After(done, Members(t)) && Member(t) == Ok(f, left)
    ensures var sep := Separator(left, 125);
      Members(start) == if sep.Bad? then Bad else if sep.value then After(done + [f], Members(sep.rest))
                        else Ok(done + [f], sep.rest)
  {
    var sep := Separator(left, 125);
    if sep.Ok? && sep.value { AfterAfter(done, [f], Members(sep.rest)); }
  }

  lemma ItemsNext(start: bytes, done: seq<Json>, t: bytes, v: Json, left: bytes)
    requires Items(start) == After(done, Items(t)) && Value(t) == Ok(v, left)
    ensures var sep := Separator(left, 93);
      Items(start) == if sep.Bad? then Bad else if sep.value then After(done + [v], Items(sep.rest))
                      else Ok(done + [v], sep.rest)
  {
    var sep := Separator(left, 93);
    if sep.Ok? && sep.value { AfterAfter(done, [v], Items(sep.rest)); }
  }

  /** The value of the first `k` hex digits, or -1 once one is bad. */
  function HexFold(h: bytes, k: nat): (cp: int)
    requires k <= |h|
    ensures cp >= -1 && (k == 1 ==> cp < 16) && (k == 2 ==> cp < 256) && (k == 3 ==> cp < 4096)
    ensures (k == 4 ==> cp < 65536)
  {
    if k == 0 then 0 else
    var p, digit := HexFold(h, k - 1), HexValue(h[k - 1]);
    if p < 0 || digit < 0 then -1 else p * 16 + digit
  }

  lemma HexFour(h: bytes)
    requires |h| == 4
    ensures var a, b, c, d := HexValue(h[0]), HexValue(h[1]), HexValue(h[2]), HexValue(h[3]);
      HexFold(h, 4) == if a < 0 || b < 0 || c < 0 || d < 0 then -1 else ((a * 16 + b) * 16 + c) * 16 + d
  {
    assert HexFold(h, 1) == HexValue(h[0]);
    assert HexFold(h, 2) == if HexFold(h, 1) < 0 || HexValue(h[1]) < 0 then -1 else HexFold(h, 1) * 16 + HexValue(h[1]);
    assert HexFold(h, 3) == if HexFold(h, 2) < 0 || HexValue(h[2]) < 0 then -1 else HexFold(h, 2) * 16 + HexValue(h[2]);
  }

  lemma HexEscape(t: bytes, h: bytes)
    requires |t| >= 6 && t[0] == BACKSLASH && t[1] == 117 && h == t[2..6]
    ensures StringRest(t) == if HexFold(h, 4) < 0 then Bad else Before(Utf8(HexFold(h, 4)), StringRest(t[6..]))
  {
    HexFour(h);
  }

  lemma {:induction false} HexStays(h: bytes, k: nat, n: nat)
    requires k <= n <= |h| && HexFold(h, k) < 0
    ensures HexFold(h, n) < 0
    decreases n
  {
    if k < n { HexStays(h, k, n - 1); }
  }

  /** The whole of a text. */
  method ParseAll(text: bytes) returns (out: Option<Json>)
    ensures Reads(Parse(text), out, [])
  {
    var view := text;
    if |text| >= 3 && text[0] == 0xEF && text[1] == 0xBB && text[2] == 0xBF { view := text[3..]; }
    var p := new Parser(view);
    out := p.ParseValue();
    if out.None? { return; }
    p.SkipSpace();
    if p.i != |view| { return None; }
  }
}
