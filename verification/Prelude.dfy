/** Small helpers that more than one component uses. */
module Prelude {

  /** A value that may be missing; stands for Python's `None`. */
  datatype Option<+T> = None | Some(value: T) {
    function GetOr(default: T): T {
      match this
      case Some(v) => v
      case None => default
    }
  }

  /** The characters that Python's `str.strip` and `str.isspace` treat as white space. */
  predicate IsSpace(c: char) {
    || '\t' <= c <= '\r'
    || '\U{1c}' <= c <= ' '
    || c == '\U{85}' || c == '\U{a0}' || c == '\U{1680}'
    || '\U{2000}' <= c <= '\U{200a}'
    || c == '\U{2028}' || c == '\U{2029}' || c == '\U{202f}' || c == '\U{205f}' || c == '\U{3000}'
  }

  /** `not text.strip()`: nothing but white space. */
  predicate IsBlank(text: string) {
    forall i :: 0 <= i < |text| ==> IsSpace(text[i])
  }

  lemma Reassociate<T>(a: seq<T>, b: seq<T>, c: seq<T>)
    ensures a + (b + c) == a + b + c
  {}
}

/** Decimal numerals, as Python's f-strings print a natural number. */
module Decimal {
  import opened Prelude

  predicate IsDigit(c: char) { '0' <= c <= '9' }

  predicate AllDigits(s: string) {
    forall i :: 0 <= i < |s| ==> IsDigit(s[i])
  }

  function Show(n: nat): (s: string)
    ensures s != [] && AllDigits(s)
  {
    if n < 10 then [('0' as int + n) as char] else Show(n / 10) + [('0' as int + n % 10) as char]
  }

  function Value(s: string): nat
    requires AllDigits(s)
  {
    if s == [] then 0 else 10 * Value(s[..|s| - 1]) + (s[|s| - 1] as int - '0' as int)
  }

  /** The longest run of digits at the front of `s`. */
  function LeadingDigits(s: string): (d: string)
    ensures d <= s && AllDigits(d)
    ensures |d| < |s| ==> !IsDigit(s[|d|])
  {
    if s == [] || !IsDigit(s[0]) then [] else [s[0]] + LeadingDigits(s[1..])
  }

  lemma {:induction false} ValueOfShow(n: nat)
    ensures Value(Show(n)) == n
  {
    if n >= 10 {
      ValueOfShow(n / 10);
      assert Show(n)[..|Show(n)| - 1] == Show(n / 10);
    }
  }

  /** A numeral followed by a non-digit is read back whole. */
  lemma LeadingDigitsOfShow(d: string, rest: string)
    requires AllDigits(d)
    requires rest == [] || !IsDigit(rest[0])
    ensures LeadingDigits(d + rest) == d
  {
    var l := LeadingDigits(d + rest);
    assert |l| == |d|;
    assert l == (d + rest)[..|d|] == d;
  }

  /** Reads `head`, a numeral and `tail` from the front of `s`; `None` when `s` has another shape. */
  function ReadNumber(head: string, tail: string, s: string): (r: Option<nat>)
    ensures r.Some? ==> head <= s
  {
    if head <= s then
      var d := LeadingDigits(s[|head|..]);
      if d != [] && tail <= s[|head| + |d|..] then Some(Value(d)) else None
    else None
  }

  lemma ReadNumberOfShow(head: string, tail: string, n: nat, rest: string)
    requires tail != [] && !IsDigit(tail[0])
    ensures ReadNumber(head, tail, head + Show(n) + tail + rest) == Some(n)
  {
    var d := Show(n);
    var s := head + d + tail + rest;
    assert s[|head|..] == d + (tail + rest);
    LeadingDigitsOfShow(d, tail + rest);
    assert s[|head| + |d|..] == tail + rest;
    ValueOfShow(n);
  }
}
