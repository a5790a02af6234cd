/** JSON values without floating point. */
module JsonValues {
  import opened ByteStrings
  import opened NamedItems

  datatype Json =
    | JNull
    | JBool(b: bool)
    | JInt(i: i64)
    | JStr(s: bytes)
    | JArr(items: seq<Json>)
    | JObj(fields: seq<Named<Json>>)

  /** No object repeats a key. */
  predicate Keyed(j: Json) {
    match j
    case JArr(items) => forall x :: x in items ==> Keyed(x)
    case JObj(fields) => Distinct(fields) && forall f :: f in fields ==> Keyed(f.item)
    case _ => true
  }

  datatype Lookup<+T> = Absent | Found(value: T)

  /** The first item of that name. */
  function Find<T>(s: seq<Named<T>>, n: bytes): (r: Lookup<T>)
    ensures r.Found? ==> Named(n, r.value) in s
    ensures r.Absent? ==> forall e :: e in s ==> e.name != n
  {
    if s == [] then Absent
    else if s[0].name == n then Found(s[0].item)
    else Find(s[1..], n)
  }

  lemma FindMember<T>(s: seq<Named<T>>, e: Named<T>)
    requires Distinct(s) && e in s
    ensures Find(s, e.name) == Found(e.item)
  {
    var r := Find(s, e.name);
    var i :| 0 <= i < |s| && s[i] == e;
    var j :| 0 <= j < |s| && s[j] == Named(e.name, r.value);
  }

  predicate JsonEquals(a: Json, b: Json)
    decreases a, 1
  {
    match (a, b)
    case (JNull, JNull) => true
    case (JBool(x), JBool(y)) => x == y
    case (JInt(x), JInt(y)) => x == y
    case (JStr(x), JStr(y)) => x == y
    case (JArr(x), JArr(y)) => |x| == |y| && forall i :: 0 <= i < |x| ==> JsonEquals(x[i], y[i])
    case (JObj(x), JObj(y)) =>
      |x| == |y| && forall e :: e in x ==> Find(y, e.name).Found? && JsonEquals(e.item, Find(y, e.name).value)
    case _ => false
  }

  /** The key of field `i` occurred before. */
  predicate Repeats(fields: seq<Named<Json>>, i: nat)
    requires i < |fields|
  {
    fields[i].name in Names(fields[..i])
  }

  /** Every later value of a repeated key equals the first, at every depth. */
  predicate Consistent(j: Json) {
    match j
    case JArr(items) => forall x :: x in items ==> Consistent(x)
    case JObj(fields) =>
      forall i :: 0 <= i < |fields| ==>
        if Repeats(fields, i) then MatchesFirst(fields, fields[i]) else Consistent(fields[i].item)
    case _ => true
  }

  predicate MatchesFirst(fields: seq<Named<Json>>, f: Named<Json>) {
    Find(fields, f.name).Found? && JsonEquals(f.item, Find(fields, f.name).value)
  }

  lemma {:induction false} FindFirst(fields: seq<Named<Json>>, i: nat)
    requires i < |fields| && !Repeats(fields, i)
    ensures Find(fields, fields[i].name) == Found(fields[i].item)
    decreases i
  {
    if i > 0 {
      var before := fields[..i];
      assert before[0].name == fields[0].name;
      var rest := fields[1..][..i - 1];
      assert before == [fields[0]] + rest;
      forall h | 0 <= h < |rest| ensures rest[h].name in Names(before) {
        assert before[h + 1] == rest[h];
      }
      FindFirst(fields[1..], i - 1);
    }
  }

  /** The comparison looks every key up by its first occurrence, so a value is
      equal to itself exactly when no repeated key disagrees with its first. */
  lemma {:induction false} JsonEqualsReflexive(a: Json)
    ensures JsonEquals(a, a) <==> Consistent(a)
    decreases a
  {
    match a
    case JArr(items) =>
      forall i | 0 <= i < |items| ensures JsonEquals(items[i], items[i]) <==> Consistent(items[i]) {
        JsonEqualsReflexive(items[i]);
      }
    case JObj(fields) =>
      forall i | 0 <= i < |fields| && !Repeats(fields, i)
        ensures MatchesFirst(fields, fields[i]) <==> Consistent(fields[i].item)
      {
        FindFirst(fields, i);
        JsonEqualsReflexive(fields[i].item);
      }
      FieldwiseReflexive(fields);
    case _ =>
  }

  lemma FieldwiseReflexive(fields: seq<Named<Json>>)
    requires forall i :: 0 <= i < |fields| && !Repeats(fields, i) ==>
      (MatchesFirst(fields, fields[i]) <==> Consistent(fields[i].item))
    ensures JsonEquals(JObj(fields), JObj(fields)) <==> Consistent(JObj(fields))
  {
    if Consistent(JObj(fields)) {
      forall e | e in fields ensures MatchesFirst(fields, e) {
        var i :| 0 <= i < |fields| && fields[i] == e;
      }
    } else {
      var i :| 0 <= i < |fields| &&
        !(if Repeats(fields, i) then MatchesFirst(fields, fields[i]) else Consistent(fields[i].item));
      assert fields[i] in fields && !MatchesFirst(fields, fields[i]);
    }
  }

  /** Distinct keys are consistent. */
  lemma {:induction false} KeyedConsistent(j: Json)
    requires Keyed(j)
    ensures Consistent(j)
    decreases j
  {
    match j
    case JArr(items) =>
      forall x | x in items ensures Consistent(x) { KeyedConsistent(x); }
    case JObj(fields) =>
      forall i | 0 <= i < |fields| ensures !Repeats(fields, i) && Consistent(fields[i].item) {
        assert fields[i] in fields;
        KeyedConsistent(fields[i].item);
      }
    case _ =>
  }

  /** An object that repeats a key with two values is not even equal to itself. */
  lemma RepeatedKeyNotReflexive(k: bytes)
    ensures !JsonEquals(JObj([Named(k, JBool(true)), Named(k, JBool(false))]),
                        JObj([Named(k, JBool(true)), Named(k, JBool(false))]))
  {
    var o := [Named(k, JBool(true)), Named(k, JBool(false))];
    assert o[1] in o;
    assert Find(o, k) == Found(JBool(true));
  }
}
