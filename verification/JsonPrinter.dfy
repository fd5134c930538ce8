/**
 A printer that is lawful, to show that the assumption about `JSON.stringify` and `JSON.parse` can be met: every
 document prints to a text of its own. Its notation is not that of JSON.
*/
module JsonPrinter {
  import opened Options
  import opened OpenApiOrder
  import Decimal

  /** A text whose end can be told: a plus before every character. */
  function ShowText(s: string): string {
    if s == "" then "." else "+" + [s[0]] + ShowText(s[1..])
  }

  function Magnitude(n: Double): nat {
    if n < 0 then -n else n
  }

  function ShowNumber(n: Double): string {
    (if n < 0 then "-" else "#") + ShowText(Decimal.Format(Magnitude(n)))
  }

  function Show(j: Json): string
    decreases j, 1
  {
    match j
    case Null => "n"
    case Bool(truth) => if truth then "t" else "f"
    case Number(number) => ShowNumber(number)
    case Text(text) => "s" + ShowText(text)
    case Array(_) => "[" + ShowItems(j, 0)
    case Object(_, _) => "{" + ShowFields(j, 0)
  }

  function ShowItems(j: Json, k: nat): string
    requires j.Array? && k <= |j.items|
    decreases j, 0, |j.items| - k
  {
    if k == |j.items| then "." else "+" + (Show(j.items[k]) + ShowItems(j, k + 1))
  }

  function ShowFields(j: Json, k: nat): string
    requires j.Object? && k <= |j.keys|
    decreases j, 0, |j.keys| - k
  {
    if k == |j.keys| then "."
    else
      var key := j.keys[k];
      "+" + (ShowText(key) + ((if key in j.fields then Show(j.fields[key]) else "") + ShowFields(j, k + 1)))
  }

  lemma {:induction false} TextUnique(a: string, b: string, x: string, y: string)
    requires ShowText(a) + x == ShowText(b) + y
    ensures a == b && x == y
  {
    var s, t := ShowText(a) + x, ShowText(b) + y;
    assert s[0] == t[0];
    if a == "" {
      assert s[1..] == x && t[1..] == y;
    } else {
      assert s[1] == a[0] && t[1] == b[0];
      assert s[2..] == ShowText(a[1..]) + x && t[2..] == ShowText(b[1..]) + y;
      TextUnique(a[1..], b[1..], x, y);
      assert a == [a[0]] + a[1..] && b == [b[0]] + b[1..];
    }
  }

  lemma NumberUnique(m: Double, n: Double, x: string, y: string)
    requires ShowNumber(m) + x == ShowNumber(n) + y
    ensures m == n && x == y
  {
    var a, b := Decimal.Format(Magnitude(m)), Decimal.Format(Magnitude(n));
    Decimal.FormatRoundTrip(Magnitude(m));
    Decimal.FormatRoundTrip(Magnitude(n));
    hide ShowText, Decimal.Format, Magnitude;
    var s, t := ShowNumber(m) + x, ShowNumber(n) + y;
    assert s[0] == (if m < 0 then '-' else '#') && t[0] == if n < 0 then '-' else '#';
    assert s[1..] == ShowText(a) + x && t[1..] == ShowText(b) + y;
    TextUnique(a, b, x, y);
    SameNumber(m, n);
  }

  lemma SameNumber(m: Double, n: Double)
    requires Magnitude(m) == Magnitude(n) && (m < 0 <==> n < 0)
    ensures m == n
  {
  }

  lemma {:induction false} ShowUnique(a: Json, b: Json, x: string, y: string)
    requires Plain(a) && Plain(b) && Show(a) + x == Show(b) + y
    ensures a == b && x == y
    decreases a, 1
  {
    hide ShowText, ShowItems, ShowFields, Plain;
    var s, t := Show(a) + x, Show(b) + y;
    assert s[0] == t[0];
    match a
    case Number(n) =>
      NumberUnique(n, b.number, x, y);
    case Text(text) =>
      assert s[1..] == ShowText(text) + x && t[1..] == ShowText(b.text) + y;
      TextUnique(text, b.text, x, y);
    case Array(_) =>
      assert s[1..] == ShowItems(a, 0) + x && t[1..] == ShowItems(b, 0) + y;
      ItemsUnique(a, b, 0, x, y);
    case Object(_, _) =>
      assert s[1..] == ShowFields(a, 0) + x && t[1..] == ShowFields(b, 0) + y;
      FieldsUnique(a, b, 0, x, y);
    case _ =>
      assert s[1..] == x && t[1..] == y;
  }

  lemma {:induction false} ItemsUnique(a: Json, b: Json, k: nat, x: string, y: string)
    requires a.Array? && b.Array? && Plain(a) && Plain(b) && k <= |a.items| && k <= |b.items|
    requires a.items[..k] == b.items[..k] && ShowItems(a, k) + x == ShowItems(b, k) + y
    ensures a == b && x == y
    decreases a, 0, |a.items| - k
  {
    hide Show;
    var s, t := ShowItems(a, k) + x, ShowItems(b, k) + y;
    assert s[0] == t[0];
    if k == |a.items| {
      assert s[1..] == x && t[1..] == y;
      assert a.items == a.items[..k] && b.items == b.items[..k];
    } else {
      var u, v := ShowItems(a, k + 1) + x, ShowItems(b, k + 1) + y;
      assert s[1..] == Show(a.items[k]) + u && t[1..] == Show(b.items[k]) + v;
      ShowUnique(a.items[k], b.items[k], u, v);
      assert a.items[..k + 1] == a.items[..k] + [a.items[k]] && b.items[..k + 1] == b.items[..k] + [b.items[k]];
      ItemsUnique(a, b, k + 1, x, y);
    }
  }

  lemma {:induction false} FieldsUnique(a: Json, b: Json, k: nat, x: string, y: string)
    requires a.Object? && b.Object? && Plain(a) && Plain(b) && k <= |a.keys| && k <= |b.keys|
    requires a.keys[..k] == b.keys[..k] && forall i :: 0 <= i < k ==> a.fields[a.keys[i]] == b.fields[b.keys[i]]
    requires ShowFields(a, k) + x == ShowFields(b, k) + y
    ensures a == b && x == y
    decreases a, 0, |a.keys| - k
  {
    hide Show, ShowText, ShowFields, Plain;
    FieldsFrom(a, k, x);
    FieldsFrom(b, k, y);
    if k == |a.keys| {
      assert a.keys == a.keys[..k] && b.keys == b.keys[..k];
      SameFields(a, b);
    } else {
      var p, q := a.keys[k], b.keys[k];
      var u, v := ShowFields(a, k + 1) + x, ShowFields(b, k + 1) + y;
      TextUnique(p, q, Show(a.fields[p]) + u, Show(b.fields[q]) + v);
      ShowUnique(a.fields[p], b.fields[q], u, v);
      assert a.keys[..k + 1] == a.keys[..k] + [p] && b.keys[..k + 1] == b.keys[..k] + [q];
      FieldsUnique(a, b, k + 1, x, y);
    }
  }

  lemma FieldsFrom(j: Json, k: nat, x: string)
    requires j.Object? && Plain(j) && k <= |j.keys|
    ensures var s := ShowFields(j, k) + x;
      if k == |j.keys| then s[0] == '.' && s[1..] == x
      else
        var key := j.keys[k];
        && s[0] == '+' && key in j.fields && Plain(j.fields[key])
        && s[1..] == ShowText(key) + (Show(j.fields[key]) + (ShowFields(j, k + 1) + x))
  {
    assert k < |j.keys| ==> j.keys[k] in j.fields && Plain(j.fields[j.keys[k]]) by { KeyIsField(j, k); }
    hide Show, ShowText, Plain;
    if k < |j.keys| {
      var value := j.fields[j.keys[k]];
      Regroup(ShowText(j.keys[k]), Show(value), ShowFields(j, k + 1), x);
    }
  }

  lemma Regroup(a: string, b: string, c: string, x: string)
    ensures "+" + (a + (b + c)) + x == "+" + (a + (b + (c + x)))
  {
  }

  lemma KeyIsField(j: Json, k: nat)
    requires j.Object? && Plain(j)
    ensures k < |j.keys| ==> j.keys[k] in j.fields && Plain(j.fields[j.keys[k]])
  {
  }

  lemma SameFields(a: Json, b: Json)
    requires a.Object? && b.Object? && Plain(a) && Plain(b) && a.keys == b.keys
    requires forall i :: 0 <= i < |a.keys| ==> a.fields[a.keys[i]] == b.fields[b.keys[i]]
    ensures a == b
  {
    forall key | key in a.fields ensures a.fields[key] == b.fields[key] {
      var i :| 0 <= i < |a.keys| && a.keys[i] == key;
    }
    assert a.fields.Keys == b.fields.Keys;
    assert a.fields == b.fields;
  }

  ghost function ReadBack(text: string): Option<Json> {
    if j: Json :| Plain(j) && Show(j) == text then Some(j) else None
  }

  /** Some printer is lawful. */
  lemma LawfulExists() returns (json: JsonText)
    ensures json.Lawful()
  {
    json := JsonText(ReadBack, Show);
    forall j: Json | Plain(j) ensures ReadBack(Show(j)) == Some(j) {
      var k := ReadBack(Show(j)).value;
      ShowUnique(j, k, "", "");
    }
  }
}
