/** JSON texts as section 2 to 7 of RFC 8259 spell them: a concrete syntax tree and the text it stands for. */
module JsonText {
  import opened Prelude
  import opened Decimal

  datatype StringChar =
    | Unescaped(c: char)
    | Escaped(c: char)
    | Unicode(hex: string)

  datatype NumberText = NumberText(minus: bool, integer: string, fraction: Option<string>, exponent: Option<Exponent>)

  datatype Exponent = Exponent(letter: char, sign: string, digits: string)

  /** One value with the white space on both sides of it. */
  datatype Element = Element(before: string, value: Json, after: string)

  /** `before "key" middle : value` */
  datatype Member = Member(before: string, key: seq<StringChar>, middle: string, value: Element)

  datatype Json =
    | Literal(name: string)
    | Number(number: NumberText)
    | String(chars: seq<StringChar>)
    | Array(blank: string, elements: seq<Element>)
    | Object(blank: string, members: seq<Member>)

  /* ---------- Rendering ---------- */

  function RenderChar(c: StringChar): string {
    match c
    case Unescaped(c) => [c]
    case Escaped(c) => ['\\', c]
    case Unicode(hex) => "\\u" + hex
  }

  function RenderChars(cs: seq<StringChar>): string {
    if cs == [] then "" else RenderChar(cs[0]) + RenderChars(cs[1..])
  }

  function RenderString(cs: seq<StringChar>): string { "\"" + RenderChars(cs) + "\"" }

  function RenderNumber(n: NumberText): string {
    (if n.minus then "-" else "") + n.integer
    + (match n.fraction case None => "" case Some(digits) => "." + digits)
    + (match n.exponent case None => "" case Some(e) => [e.letter] + e.sign + e.digits)
  }

  function Render(v: Json): string
    decreases v, 1
  {
    match v
    case Literal(name) => name
    case Number(n) => RenderNumber(n)
    case String(cs) => RenderString(cs)
    case Array(blank, elements) => "[" + (if elements == [] then blank else RenderElements(elements)) + "]"
    case Object(blank, members) => "{" + (if members == [] then blank else RenderMembers(members)) + "}"
  }

  function RenderElement(e: Element): string
    decreases e, 2
  {
    e.before + Render(e.value) + e.after
  }

  function RenderMember(m: Member): string
    decreases m, 3
  {
    m.before + RenderString(m.key) + m.middle + ":" + RenderElement(m.value)
  }

  function RenderElements(es: seq<Element>): string
    decreases es, 0
  {
    if es == [] then ""
    else RenderElement(es[0]) + (if |es| == 1 then "" else "," + RenderElements(es[1..]))
  }

  function RenderMembers(ms: seq<Member>): string
    decreases ms, 0
  {
    if ms == [] then ""
    else RenderMember(ms[0]) + (if |ms| == 1 then "" else "," + RenderMembers(ms[1..]))
  }

  /* ---------- Which trees are JSON ---------- */

  /** Section 2: space, horizontal tab, line feed, carriage return. */
  predicate IsWs(s: string) { forall i :: 0 <= i < |s| ==> s[i] in " \t\n\r" }

  predicate IsHex(c: char) { IsDigit(c) || 'a' <= c <= 'f' || 'A' <= c <= 'F' }

  /** Section 7. */
  predicate IsStringChar(c: StringChar) {
    match c
    case Unescaped(c) => c >= ' ' && c != '"' && c != '\\'
    case Escaped(c) => c in "\"\\/bfnrt"
    case Unicode(hex) => |hex| == 4 && forall i :: 0 <= i < 4 ==> IsHex(hex[i])
  }

  predicate AreStringChars(cs: seq<StringChar>) { forall i :: 0 <= i < |cs| ==> IsStringChar(cs[i]) }

  /** Section 6. */
  predicate IsNumber(n: NumberText) {
    && n.integer != [] && AllDigits(n.integer) && (n.integer[0] == '0' ==> |n.integer| == 1)
    && (n.fraction.Some? ==> n.fraction.value != [] && AllDigits(n.fraction.value))
    && (n.exponent.Some? ==>
          var e := n.exponent.value;
          e.letter in "eE" && e.sign in ["", "+", "-"] && e.digits != [] && AllDigits(e.digits))
  }

  predicate IsJson(v: Json)
    decreases v, 1
  {
    match v
    case Literal(name) => name in ["true", "false", "null"]
    case Number(n) => IsNumber(n)
    case String(cs) => AreStringChars(cs)
    case Array(blank, elements) => IsWs(blank) && forall i :: 0 <= i < |elements| ==> IsElement(elements[i])
    case Object(blank, members) => IsWs(blank) && forall i :: 0 <= i < |members| ==> IsMember(members[i])
  }

  predicate IsElement(e: Element)
    decreases e, 2
  {
    IsWs(e.before) && IsJson(e.value) && IsWs(e.after)
  }

  predicate IsMember(m: Member)
    decreases m, 3
  {
    IsWs(m.before) && AreStringChars(m.key) && IsWs(m.middle) && IsElement(m.value)
  }
}
