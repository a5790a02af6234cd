/** The printer that appends to an output, against the text of `JsonText`.
 */
module JsonPrinter {
  import opened Sequences
  import opened ByteStrings
  import opened NamedItems
  import opened JsonValues
  import opened JsonText

  method EscapeStringTo(out: bytes, s: bytes) returns (out': bytes)
    ensures out' == out + StringText(s)
  {
    out' := out + [QUOTE];
    for i := 0 to |s|
      invariant out' + Escaped(s[i..]) == out + [QUOTE] + Escaped(s)
    {
      assert s[i..][0] == s[i] && s[i..][1..] == s[i + 1..];
      AppendAssociates(out', EscapeByte(s[i]), Escaped(s[i + 1..]));
      out' := out' + EscapeByte(s[i]);
    }
    assert s[|s|..] == [] && out' + [] == out';
    AppendAssociates(out, [QUOTE], Escaped(s));
    AppendAssociates(out, [QUOTE] + Escaped(s), [QUOTE]);
    out' := out' + [QUOTE];
  }

  /** An item, after a comma unless it is the first. */
  function ItemPiece(items: seq<Json>, k: nat, canonical: bool): bytes
    requires k < |items|
  {
    (if k == 0 then [] else [COMMA]) + Text(items[k], canonical)
  }

  function FieldPiece(first: bool, f: Named<bytes>): bytes {
    (if first then [] else [COMMA]) + (StringText(f.name) + [COLON] + f.item)
  }

  /** What is still to be printed from item `k` on. */
  function ItemsLeft(items: seq<Json>, k: nat, canonical: bool): bytes
    requires k <= |items|
  {
    if k == |items| then [] else (if k == 0 then [] else [COMMA]) + ItemsText(items[k..], canonical)
  }

  function FieldsLeft(printed: seq<Named<bytes>>, k: nat): bytes
    requires k <= |printed|
  {
    if k == |printed| then [] else (if k == 0 then [] else [COMMA]) + Joined(printed[k..])
  }

  lemma ItemsLeftNext(items: seq<Json>, k: nat, canonical: bool)
    requires k < |items|
    ensures ItemsLeft(items, k, canonical) == ItemPiece(items, k, canonical) + ItemsLeft(items, k + 1, canonical)
  {
    var rest := items[k..];
    assert rest[0] == items[k] && rest[1..] == items[k + 1..];
    assert Text(items[k], canonical) + [] == Text(items[k], canonical);
  }

  lemma FieldsLeftNext(printed: seq<Named<bytes>>, k: nat)
    requires k < |printed|
    ensures FieldsLeft(printed, k) == FieldPiece(k == 0, printed[k]) + FieldsLeft(printed, k + 1)
  {
    var rest := printed[k..];
    assert rest[0] == printed[k] && rest[1..] == printed[k + 1..];
  }

  lemma {:induction false} FieldTextAt(fields: seq<Named<Json>>, canonical: bool, k: nat)
    requires k < |fields|
    ensures FieldTexts(fields, canonical)[k] == Named(fields[k].name, Text(fields[k].item, canonical))
  {
    if k > 0 { FieldTextAt(fields[1..], canonical, k - 1); }
  }

  method DumpTo(j: Json, canonical: bool, out: bytes) returns (out': bytes)
    ensures out' == out + Text(j, canonical)
    decreases j, 1
  {
    match j
    case JNull => out' := out + NULL_TEXT;
    case JBool(b) => out' := out + if b then TRUE_TEXT else FALSE_TEXT;
    case JInt(i) => out' := out + IntText(i);
    case JStr(s) => out' := EscapeStringTo(out, s);
    case JArr(items) =>
      out' := DumpItems(j, canonical, out + [91]);
      AppendAssociates(out, [91], ItemsText(items, canonical));
      AppendAssociates(out, [91] + ItemsText(items, canonical), [93]);
      out' := out' + [93];
    case JObj(fields) =>
      var sorted := if canonical then SortByName(fields) else fields;
      SortMembers(fields);
      SortTexts(fields, canonical);
      ghost var printed := FieldTexts(sorted, canonical);
      out' := DumpFields(j, sorted, canonical, out + [123]);
      AppendAssociates(out, [123], Joined(printed));
      AppendAssociates(out, [123] + Joined(printed), [125]);
      out' := out' + [125];
  }

  method DumpItems(j: Json, canonical: bool, out: bytes) returns (out': bytes)
    requires j.JArr?
    ensures out' == out + ItemsText(j.items, canonical)
    decreases j, 0
  {
    out' := out;
    assert j.items[0..] == j.items;
    for k := 0 to |j.items|
      invariant out' + ItemsLeft(j.items, k, canonical) == out + ItemsText(j.items, canonical)
    {
      ItemsLeftNext(j.items, k, canonical);
      AppendAssociates(out', ItemPiece(j.items, k, canonical), ItemsLeft(j.items, k + 1, canonical));
      out' := DumpItem(j.items, k, canonical, out');
    }
  }

  method DumpItem(items: seq<Json>, k: nat, canonical: bool, out: bytes) returns (out': bytes)
    requires k < |items|
    ensures out' == out + ItemPiece(items, k, canonical)
    decreases items[k], 2
  {
    out' := out;
    if k > 0 { out' := out' + [COMMA]; }
    out' := DumpTo(items[k], canonical, out');
  }

  method DumpFields(j: Json, sorted: seq<Named<Json>>, canonical: bool, out: bytes) returns (out': bytes)
    requires j.JObj? && multiset(sorted) == multiset(j.fields)
    ensures out' == out + Joined(FieldTexts(sorted, canonical))
    decreases j, 0
  {
    out' := out;
    ghost var printed := FieldTexts(sorted, canonical);
    assert printed[0..] == printed;
    for k := 0 to |sorted|
      invariant out' + FieldsLeft(printed, k) == out + Joined(printed)
    {
      assert sorted[k] in j.fields by { assert sorted[k] in multiset(sorted); }
      FieldsLeftNext(printed, k);
      AppendAssociates(out', FieldPiece(k == 0, printed[k]), FieldsLeft(printed, k + 1));
      FieldTextAt(sorted, canonical, k);
      out' := DumpField(sorted[k], k == 0, canonical, out');
    }
  }

  method DumpField(f: Named<Json>, first: bool, canonical: bool, out: bytes) returns (out': bytes)
    ensures out' == out + FieldPiece(first, Named(f.name, Text(f.item, canonical)))
    decreases f.item, 2
  {
    out' := DumpName(f.name, first, out);
    out' := DumpTo(f.item, canonical, out');
    FieldShape(out, if first then [] else [COMMA], StringText(f.name), Text(f.item, canonical));
  }

  method DumpName(name: bytes, first: bool, out: bytes) returns (out': bytes)
    ensures out' == out + (if first then [] else [COMMA]) + StringText(name) + [COLON]
  {
    out' := out;
    if !first { out' := out' + [COMMA]; }
    assert first ==> out + [] == out;
    out' := EscapeStringTo(out', name);
    out' := out' + [COLON];
  }

  lemma FieldShape(out: bytes, comma: bytes, name: bytes, text: bytes)
    ensures out + (comma + (name + [COLON] + text)) == out + comma + name + [COLON] + text
  {
  }
}
