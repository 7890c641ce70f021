/** The values of call arguments, as Python's `or`, `+`, `<=` and dictionaries treat them. */
module Fields {
  import opened Prelude
  import opened KeyOrder
  import Decimal

  /** A JSON value, or `Null` where there is none; `true` and `false` are the numbers 1 and 0. */
  datatype Field =
    | Null
    | Number(value: real)
    | Str(text: string)
    | List(elements: seq<Field>)
    | Dict(entries: map<string, Field>)

  predicate Truthy(x: Field) {
    match x
    case Null => false
    case Number(value) => value != 0.0
    case Str(text) => text != ""
    case List(elements) => elements != []
    case Dict(entries) => entries != map[]
  }

  /** `x or y` */
  function Or(x: Field, y: Field): Field { if Truthy(x) then x else y }

  /** It can be the key of a dictionary. */
  predicate IsHashable(x: Field) { !x.List? && !x.Dict? }

  /** How an f-string prints a path, which is a string or a whole number. */
  function Printed(path: Field): string {
    match path
    case Str(text) => text
    case Number(value) => if value < 0.0 then "-" + Decimal.Show((-value).Floor) else Decimal.Show(value.Floor)
    case _ => ""
  }

  /** `x + y`; `None` where it raises `TypeError`. */
  function Plus(x: Field, y: Field): Option<Field> {
    match (x, y)
    case (Number(a), Number(b)) => Some(Number(a + b))
    case (Str(a), Str(b)) => Some(Str(a + b))
    case (List(a), List(b)) => Some(List(a + b))
    case _ => None
  }

  /** Numbers are added, strings and lists put one behind the other; nothing else can be added. */
  lemma PlusMeans(x: Field, y: Field)
    ensures Plus(x, y).Some? <==> (x.Number? && y.Number?) || (x.Str? && y.Str?) || (x.List? && y.List?)
    ensures x.Number? && y.Number? ==> Plus(x, y) == Some(Number(x.value + y.value))
    ensures x.Str? && y.Str? ==>
      Plus(x, y).value.Str? && x.text <= Plus(x, y).value.text && Plus(x, y).value.text[|x.text|..] == y.text
    ensures x.List? && y.List? ==>
      && Plus(x, y).value.List? && x.elements <= Plus(x, y).value.elements
      && Plus(x, y).value.elements[|x.elements|..] == y.elements
  {}

  /** `x <= y`, which is also `y >= x`; `None` where it raises `TypeError`. */
  function AtMost(x: Field, y: Field): Option<bool> {
    match (x, y)
    case (Number(a), Number(b)) => Some(a <= b)
    case (Str(a), Str(b)) => Some(a == b || Less(a, b))
    case (List(a), List(b)) => ListAtMost(a, b)
    case _ => None
  }

  /** Lists are compared where they first differ. */
  function ListAtMost(a: seq<Field>, b: seq<Field>): Option<bool> {
    if a == [] then Some(true)
    else if b == [] then Some(false)
    else if a[0] == b[0] then ListAtMost(a[1..], b[1..])
    else AtMost(a[0], b[0])
  }

  /** The place of the first difference of two lists, or the length of the shorter one. */
  function Difference(a: seq<Field>, b: seq<Field>): (k: nat)
    ensures k <= |a| && k <= |b| && a[..k] == b[..k]
    ensures k < |a| && k < |b| ==> a[k] != b[k]
  {
    if a == [] || b == [] || a[0] != b[0] then 0
    else
      var k := Difference(a[1..], b[1..]);
      assert a[..k + 1] == [a[0]] + a[1..][..k] && b[..k + 1] == [b[0]] + b[1..][..k];
      k + 1
  }

  /** Lists are compared by their first difference, a shorter one coming first; strings by code points. */
  lemma {:induction false} ListsByDifference(a: seq<Field>, b: seq<Field>)
    ensures AtMost(List(a), List(b))
         == (var k := Difference(a, b);
             if k == |a| then Some(true) else if k == |b| then Some(false) else AtMost(a[k], b[k]))
  {
    if a != [] && b != [] && a[0] == b[0] {
      ListsByDifference(a[1..], b[1..]);
    }
  }

  lemma StringsByDifference(a: string, b: string)
    ensures AtMost(Str(a), Str(b)) == Some(a == b || exists k: nat :: DivergesAt(a, b, k))
  {
    LessByDifference(a, b);
  }

  lemma {:induction false} AntiSymmetric(x: Field, y: Field)
    requires AtMost(x, y) == Some(true) && AtMost(y, x) == Some(true)
    ensures x == y
  {
    match (x, y)
    case (Number(_), Number(_)) =>
    case (Str(a), Str(b)) => LessTotal(a, b);
    case (List(a), List(b)) => ListAntiSymmetric(a, b);
  }

  lemma {:induction false} ListAntiSymmetric(a: seq<Field>, b: seq<Field>)
    requires ListAtMost(a, b) == Some(true) && ListAtMost(b, a) == Some(true)
    ensures a == b
  {
    if a != [] && b != [] {
      if a[0] == b[0] {
        ListAntiSymmetric(a[1..], b[1..]);
      } else {
        AntiSymmetric(a[0], b[0]);
      }
    }
  }

  /** Values that can be compared are ordered. */
  lemma {:induction false} AtMostTransitive(x: Field, y: Field, z: Field)
    requires AtMost(x, y) == Some(true) && AtMost(y, z) == Some(true)
    ensures AtMost(x, z) == Some(true)
  {
    match (x, y, z)
    case (Number(_), Number(_), Number(_)) =>
    case (Str(a), Str(b), Str(c)) =>
      if a != b && b != c {
        LessTransitive(a, b, c);
      }
    case (List(a), List(b), List(c)) => ListAtMostTransitive(a, b, c);
  }

  lemma {:induction false} ListAtMostTransitive(a: seq<Field>, b: seq<Field>, c: seq<Field>)
    requires ListAtMost(a, b) == Some(true) && ListAtMost(b, c) == Some(true)
    ensures ListAtMost(a, c) == Some(true)
  {
    if a != [] && c != [] {
      if a[0] == b[0] == c[0] {
        ListAtMostTransitive(a[1..], b[1..], c[1..]);
      } else if a[0] != b[0] && b[0] != c[0] {
        AtMostTransitive(a[0], b[0], c[0]);
        if a[0] == c[0] {
          AntiSymmetric(a[0], b[0]);
        }
      }
    }
  }
}
