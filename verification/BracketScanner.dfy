/**
 * The bracket scanner (`balanced_end.py`, the Python fallback): it counts one kind of bracket outside
 * strings and stops where the count returns to zero.
 */
module BracketScanner {
  import opened Prelude
  import opened JsonText
  import Decimal

  /** The three variables of the loop. */
  datatype Scan = Scan(depth: int, inString: bool, escapeNext: bool)

  predicate Opens(c: char) { c == '{' || c == '[' }

  function Closer(open: char): char { if open == '{' then '}' else ']' }

  /** One turn of the loop; reaching depth zero on a closing bracket ends the scan. */
  function Step(open: char, st: Scan, c: char): Scan {
    if st.escapeNext then st.(escapeNext := false)
    else if c == '\\' then st.(escapeNext := true)
    else if c == '"' then st.(inString := !st.inString)
    else if st.inString then st
    else if c == open then st.(depth := st.depth + 1)
    else if c == Closer(open) then st.(depth := st.depth - 1)
    else st
  }

  predicate Stops(open: char, st: Scan, c: char) {
    !st.escapeNext && !st.inString && c == Closer(open) && st.depth == 1
  }

  /** The state after reading all of `s`; `None` when the scan ends inside `s`. */
  function Read(open: char, st: Scan, s: string): Option<Scan>
    decreases |s|
  {
    if s == [] then Some(st)
    else if Stops(open, st, s[0]) then None
    else Read(open, Step(open, st, s[0]), s[1..])
  }

  /** Where the scan of `text[i..limit]` ends. */
  function ScanFrom(open: char, st: Scan, text: string, i: nat, limit: nat): Option<nat>
    requires i <= limit <= |text|
    decreases limit - i
  {
    if i == limit then None
    else if Stops(open, st, text[i]) then Some(i + 1)
    else ScanFrom(open, Step(open, st, text[i]), text, i + 1, limit)
  }

  const START: Scan := Scan(0, false, false)

  function Limit(text: string, start: nat, maxScan: nat): nat {
    if start + maxScan < |text| then start + maxScan else |text|
  }

  function BalancedEnd(text: string, start: nat, maxScan: nat): Option<nat> {
    if start >= |text| || !Opens(text[start]) then None
    else ScanFrom(text[start], START, text, start, Limit(text, start, maxScan))
  }

  lemma {:induction false} ScanInBounds(open: char, st: Scan, text: string, i: nat, limit: nat)
    requires i <= limit <= |text|
    ensures ScanFrom(open, st, text, i, limit).Some? ==> i < ScanFrom(open, st, text, i, limit).value <= limit
    decreases limit - i
  {
    if i < limit && !Stops(open, st, text[i]) {
      ScanInBounds(open, Step(open, st, text[i]), text, i + 1, limit);
    }
  }

  lemma EndInBounds(text: string, start: nat, maxScan: nat)
    ensures BalancedEnd(text, start, maxScan).Some? ==> start < BalancedEnd(text, start, maxScan).value <= |text|
  {
    if start < |text| && Opens(text[start]) {
      ScanInBounds(text[start], START, text, start, Limit(text, start, maxScan));
    }
  }

  /* ---------- The end by counting, for any text ---------- */

  /** How many backslashes stand right before position `j`, looking back to `start`. */
  function Backslashes(text: string, start: nat, j: nat): nat
    requires start <= j <= |text|
  {
    if j == start || text[j - 1] != '\\' then 0 else 1 + Backslashes(text, start, j - 1)
  }

  /** An odd number of backslashes makes the character behind them literal. */
  predicate IsEscaped(text: string, start: nat, j: nat)
    requires start <= j <= |text|
  {
    Backslashes(text, start, j) % 2 == 1
  }

  /** The quotes before `j` that are not escaped: between the first and the second there is a string, and so on. */
  function Quotes(text: string, start: nat, j: nat): nat
    requires start <= j <= |text|
  {
    if j == start then 0
    else Quotes(text, start, j - 1) + if text[j - 1] == '"' && !IsEscaped(text, start, j - 1) then 1 else 0
  }

  /** The character at `j` counts: it is neither escaped nor inside a string. */
  predicate IsLive(text: string, start: nat, j: nat)
    requires start <= j < |text|
  {
    !IsEscaped(text, start, j) && Quotes(text, start, j) % 2 == 0
  }

  /** How many brackets before `j` are open: live opening ones less live closing ones. */
  function Depth(text: string, start: nat, open: char, j: nat): int
    requires start <= j <= |text|
  {
    if j == start then 0
    else
      var c := text[j - 1];
      Depth(text, start, open, j - 1)
      + if !IsLive(text, start, j - 1) then 0 else if c == open then 1 else if c == Closer(open) then -1 else 0
  }

  /** Right before `end` a live closing bracket brings the depth back to zero. */
  predicate Closes(text: string, start: nat, open: char, end: nat)
    requires start <= |text|
  {
    && start < end <= |text| && text[end - 1] == Closer(open) && IsLive(text, start, end - 1)
    && Depth(text, start, open, end) == 0
  }

  function StateAt(text: string, start: nat, open: char, j: nat): Scan
    requires start <= j <= |text|
  {
    Scan(Depth(text, start, open, j), Quotes(text, start, j) % 2 == 1, IsEscaped(text, start, j))
  }

  lemma StateNext(text: string, start: nat, open: char, j: nat)
    requires start <= j < |text| && Opens(open)
    ensures StateAt(text, start, open, j + 1) == Step(open, StateAt(text, start, open, j), text[j])
    ensures Stops(open, StateAt(text, start, open, j), text[j]) <==>
      text[j] == Closer(open) && IsLive(text, start, j) && Depth(text, start, open, j) == 1
  {}

  lemma {:induction false} ScanByCounting(text: string, start: nat, open: char, j: nat, limit: nat)
    requires start <= j <= limit <= |text| && Opens(open)
    requires forall end: nat :: end <= j ==> !Closes(text, start, open, end)
    ensures var end := ScanFrom(open, StateAt(text, start, open, j), text, j, limit);
      if end.Some? then j < end.value <= limit && Closes(text, start, open, end.value)
                        && forall e: nat :: e < end.value ==> !Closes(text, start, open, e)
      else forall e: nat :: e <= limit ==> !Closes(text, start, open, e)
    decreases limit - j
  {
    if j < limit {
      StateNext(text, start, open, j);
      ClosesNext(text, start, open, j);
      if !Stops(open, StateAt(text, start, open, j), text[j]) {
        ScanByCounting(text, start, open, j + 1, limit);
      }
    }
  }

  lemma ClosesNext(text: string, start: nat, open: char, j: nat)
    requires start <= j < |text| && Opens(open)
    ensures Closes(text, start, open, j + 1) <==> Stops(open, StateAt(text, start, open, j), text[j])
  {
    StateNext(text, start, open, j);
  }

  /** For any text the scan ends behind the first live closing bracket that brings the depth back to zero. */
  lemma EndByCounting(text: string, start: nat, maxScan: nat)
    requires start < |text| && Opens(text[start])
    ensures var end, open, limit := BalancedEnd(text, start, maxScan), text[start], Limit(text, start, maxScan);
      if end.Some? then end.value <= limit && Closes(text, start, open, end.value)
                        && forall e: nat :: e < end.value ==> !Closes(text, start, open, e)
      else forall e: nat :: e <= limit ==> !Closes(text, start, open, e)
  {
    ScanByCounting(text, start, text[start], start, Limit(text, start, maxScan));
  }

  method FindBalancedEnd(text: string, start: nat, maxScan: nat) returns (end: Option<nat>)
    ensures end == BalancedEnd(text, start, maxScan)
    ensures end.Some? ==>
        start + 2 <= end.value <= Limit(text, start, maxScan) && text[end.value - 1] == Closer(text[start])
  {
    if start >= |text| {
      return None;
    }
    var open := text[start];
    if !Opens(open) {
      return None;
    }
    var close := Closer(open);
    var depth, inString, escapeNext := 0, false, false;
    var limit := Limit(text, start, maxScan);
    for i := start to limit
      invariant BalancedEnd(text, start, maxScan) == ScanFrom(open, Scan(depth, inString, escapeNext), text, i, limit)
      invariant i == start ==> depth == 0
    {
      var c := text[i];
      if escapeNext {
        escapeNext := false;
        continue;
      }
      if c == '\\' {
        escapeNext := true;
        continue;
      }
      if c == '"' {
        inString := !inString;
        continue;
      }
      if inString {
        continue;
      }
      if c == open {
        depth := depth + 1;
      } else if c == close {
        depth := depth - 1;
        if depth == 0 {
          return Some(i + 1);
        }
      }
    }
    return None;
  }

  /* ---------- Reading in pieces ---------- */

  lemma {:induction false} ReadAppend(open: char, st: Scan, a: string, b: string)
    ensures Read(open, st, a + b) ==
            match Read(open, st, a) case None => None case Some(mid) => Read(open, mid, b)
    decreases |a|
  {
    if a == [] {
      assert a + b == b;
    } else {
      assert (a + b)[0] == a[0] && (a + b)[1..] == a[1..] + b;
      if !Stops(open, st, a[0]) {
        ReadAppend(open, Step(open, st, a[0]), a[1..], b);
      }
    }
  }

  lemma ReadOne(open: char, st: Scan, c: char)
    ensures Read(open, st, [c]) == if Stops(open, st, c) then None else Some(Step(open, st, c))
  {
    assert [c][1..] == [];
  }

  /** What is read without stopping is skipped by the scan. */
  lemma {:induction false} ScanSkips(open: char, st: Scan, text: string, i: nat, limit: nat, s: string)
    requires i + |s| <= limit <= |text| && text[i..i + |s|] == s && Read(open, st, s).Some?
    ensures ScanFrom(open, st, text, i, limit) == ScanFrom(open, Read(open, st, s).value, text, i + |s|, limit)
    decreases |s|
  {
    if s != [] {
      assert text[i] == s[0] && text[i + 1..i + 1 + |s[1..]|] == s[1..];
      ScanSkips(open, Step(open, st, s[0]), text, i + 1, limit, s[1..]);
    }
  }

  /** Reading `s` at depth `depth` outside a string changes nothing. */
  predicate Passes(open: char, depth: int, s: string) {
    Read(open, Scan(depth, false, false), s) == Some(Scan(depth, false, false))
  }

  lemma PassesAppend(open: char, depth: int, a: string, b: string)
    requires Passes(open, depth, a) && Passes(open, depth, b)
    ensures Passes(open, depth, a + b)
  {
    ReadAppend(open, Scan(depth, false, false), a, b);
  }

  /** A character that means nothing to the scanner, in a string or outside. */
  predicate Inert(c: char) { c !in "\\\"{}[]" }

  lemma {:induction false} InertPasses(open: char, st: Scan, s: string)
    requires Opens(open) && !st.escapeNext
    requires forall i :: 0 <= i < |s| ==> Inert(s[i])
    ensures Read(open, st, s) == Some(st)
  {
    if s != [] {
      InertPasses(open, st, s[1..]);
    }
  }

  /* ---------- JSON values pass ---------- */

  lemma {:induction false} CharsPass(open: char, depth: int, cs: seq<StringChar>)
    requires Opens(open) && AreStringChars(cs)
    ensures Read(open, Scan(depth, true, false), RenderChars(cs)) == Some(Scan(depth, true, false))
  {
    if cs != [] {
      CharPasses(open, depth, cs[0]);
      CharsPass(open, depth, cs[1..]);
      ReadAppend(open, Scan(depth, true, false), RenderChar(cs[0]), RenderChars(cs[1..]));
    }
  }

  lemma EscapePasses(open: char, depth: int, c: char)
    ensures Read(open, Scan(depth, true, false), ['\\', c]) == Some(Scan(depth, true, false))
  {
    ReadOne(open, Scan(depth, true, false), '\\');
    ReadOne(open, Scan(depth, true, true), c);
    ReadAppend(open, Scan(depth, true, false), ['\\'], [c]);
  }

  lemma CharPasses(open: char, depth: int, c: StringChar)
    requires Opens(open) && IsStringChar(c)
    ensures Read(open, Scan(depth, true, false), RenderChar(c)) == Some(Scan(depth, true, false))
  {
    var st := Scan(depth, true, false);
    match c
    case Unescaped(c) => ReadOne(open, st, c);
    case Escaped(c) => EscapePasses(open, depth, c);
    case Unicode(hex) =>
      EscapePasses(open, depth, 'u');
      InertPasses(open, st, hex);
      ReadAppend(open, st, ['\\', 'u'], hex);
      assert RenderChar(c) == ['\\', 'u'] + hex;
  }

  lemma StringPasses(open: char, depth: int, cs: seq<StringChar>)
    requires Opens(open) && AreStringChars(cs)
    ensures Passes(open, depth, RenderString(cs))
  {
    var st := Scan(depth, false, false);
    CharsPass(open, depth, cs);
    ReadOne(open, st, '"');
    ReadOne(open, Scan(depth, true, false), '"');
    ReadAppend(open, st, "\"", RenderChars(cs));
    ReadAppend(open, st, "\"" + RenderChars(cs), "\"");
  }

  lemma NumberIsInert(n: NumberText, i: nat)
    requires IsNumber(n) && i < |RenderNumber(n)|
    ensures Inert(RenderNumber(n)[i])
  {
    var s := RenderNumber(n);
    assert s[i] in "-.eE+" || Decimal.IsDigit(s[i]);
  }

  lemma NumberPasses(open: char, depth: int, n: NumberText)
    requires Opens(open) && depth >= 1 && IsNumber(n)
    ensures Passes(open, depth, RenderNumber(n))
  {
    forall i | 0 <= i < |RenderNumber(n)| ensures Inert(RenderNumber(n)[i]) { NumberIsInert(n, i); }
    InertPasses(open, Scan(depth, false, false), RenderNumber(n));
  }

  /** A value read at depth one or more brings the scan back to the same depth. */
  lemma {:induction false} ValuePasses(open: char, depth: int, v: Json)
    requires Opens(open) && depth >= 1 && IsJson(v)
    ensures Passes(open, depth, Render(v))
    decreases v, 1
  {
    match v
    case Literal(name) => InertPasses(open, Scan(depth, false, false), name);
    case Number(n) => NumberPasses(open, depth, n);
    case String(cs) => StringPasses(open, depth, cs);
    case Array(_, _) =>
      BodyPasses(open, if open == '[' then depth + 1 else depth, v);
      BracketsPass(open, depth, '[', Body(v));
    case Object(_, _) =>
      BodyPasses(open, if open == '{' then depth + 1 else depth, v);
      BracketsPass(open, depth, '{', Body(v));
  }

  /** What stands between the brackets of an array or object. */
  function Body(v: Json): string
    requires v.Array? || v.Object?
  {
    if v.Array? then (if v.elements == [] then v.blank else RenderElements(v.elements))
    else (if v.members == [] then v.blank else RenderMembers(v.members))
  }

  lemma BracketsPass(open: char, depth: int, bracket: char, body: string)
    requires Opens(open) && Opens(bracket) && depth >= 1
    requires Passes(open, if open == bracket then depth + 1 else depth, body)
    ensures Passes(open, depth, [bracket] + body + [Closer(bracket)])
  {
    var st := Scan(depth, false, false);
    var inner := if open == bracket then depth + 1 else depth;
    ReadOne(open, st, bracket);
    ReadOne(open, Scan(inner, false, false), Closer(bracket));
    ReadAppend(open, st, [bracket], body);
    ReadAppend(open, st, [bracket] + body, [Closer(bracket)]);
  }

  lemma BodyPasses(open: char, depth: int, v: Json)
    requires Opens(open) && depth >= 1 && IsJson(v) && (v.Array? || v.Object?)
    ensures Passes(open, depth, Body(v))
    decreases v, 0
  {
    InertPasses(open, Scan(depth, false, false), v.blank);
    if v.Array? {
      ElementsPass(open, depth, v.elements);
    } else {
      MembersPass(open, depth, v.members);
    }
  }

  lemma ElementPasses(open: char, depth: int, e: Element)
    requires Opens(open) && depth >= 1 && IsElement(e)
    ensures Passes(open, depth, RenderElement(e))
    decreases e, 2
  {
    InertPasses(open, Scan(depth, false, false), e.before);
    InertPasses(open, Scan(depth, false, false), e.after);
    ValuePasses(open, depth, e.value);
    PassesAppend(open, depth, e.before, Render(e.value));
    PassesAppend(open, depth, e.before + Render(e.value), e.after);
  }

  lemma {:induction false} ElementsPass(open: char, depth: int, es: seq<Element>)
    requires Opens(open) && depth >= 1 && forall i :: 0 <= i < |es| ==> IsElement(es[i])
    ensures Passes(open, depth, RenderElements(es))
    decreases es, 0
  {
    if es != [] {
      ElementPasses(open, depth, es[0]);
      if |es| > 1 {
        InertPasses(open, Scan(depth, false, false), ",");
        ElementsPass(open, depth, es[1..]);
        PassesAppend(open, depth, ",", RenderElements(es[1..]));
        PassesAppend(open, depth, RenderElement(es[0]), "," + RenderElements(es[1..]));
      } else {
        assert RenderElements(es) == RenderElement(es[0]);
      }
    }
  }

  lemma MemberPasses(open: char, depth: int, m: Member)
    requires Opens(open) && depth >= 1 && IsMember(m)
    ensures Passes(open, depth, RenderMember(m))
    decreases m, 3
  {
    InertPasses(open, Scan(depth, false, false), m.before);
    InertPasses(open, Scan(depth, false, false), m.middle);
    InertPasses(open, Scan(depth, false, false), ":");
    StringPasses(open, depth, m.key);
    ElementPasses(open, depth, m.value);
    PassesAppend(open, depth, m.before, RenderString(m.key));
    PassesAppend(open, depth, m.before + RenderString(m.key), m.middle);
    PassesAppend(open, depth, m.before + RenderString(m.key) + m.middle, ":");
    PassesAppend(open, depth, m.before + RenderString(m.key) + m.middle + ":", RenderElement(m.value));
  }

  lemma {:induction false} MembersPass(open: char, depth: int, ms: seq<Member>)
    requires Opens(open) && depth >= 1 && forall i :: 0 <= i < |ms| ==> IsMember(ms[i])
    ensures Passes(open, depth, RenderMembers(ms))
    decreases ms, 0
  {
    if ms != [] {
      MemberPasses(open, depth, ms[0]);
      if |ms| > 1 {
        InertPasses(open, Scan(depth, false, false), ",");
        MembersPass(open, depth, ms[1..]);
        PassesAppend(open, depth, ",", RenderMembers(ms[1..]));
        PassesAppend(open, depth, RenderMember(ms[0]), "," + RenderMembers(ms[1..]));
      } else {
        assert RenderMembers(ms) == RenderMember(ms[0]);
      }
    }
  }

  /* ---------- Exactness ---------- */

  /** All but the last character of a container is read without stopping, and leaves depth one. */
  lemma ContainerReads(v: Json)
    requires IsJson(v) && (v.Array? || v.Object?)
    ensures var open := if v.Array? then '[' else '{';
            && Render(v) == [open] + Body(v) + [Closer(open)]
            && Read(open, START, [open] + Body(v)) == Some(Scan(1, false, false))
  {
    var open := if v.Array? then '[' else '{';
    BodyPasses(open, 1, v);
    ReadOne(open, START, open);
    ReadAppend(open, START, [open], Body(v));
  }

  /** A text read to depth one and followed by the closing bracket is where the scan ends, if it gets there. */
  lemma ScanEnds(open: char, text: string, start: nat, limit: nat, body: string)
    requires Opens(open) && Read(open, START, body) == Some(Scan(1, false, false))
    requires start + |body| < |text| && start <= limit <= |text|
    requires text[start..start + |body|] == body && text[start + |body|] == Closer(open)
    ensures ScanFrom(open, START, text, start, limit) ==
            if start + |body| < limit then Some(start + |body| + 1) else None
  {
    if start + |body| < limit {
      ScanSkips(open, START, text, start, limit, body);
    } else {
      var seen := body[..limit - start];
      assert body == seen + body[limit - start..];
      ReadAppend(open, START, seen, body[limit - start..]);
      assert text[start..start + |seen|] == seen;
      ScanSkips(open, START, text, start, limit, seen);
    }
  }

  lemma EndIsFound(open: char, text: string, start: nat, maxScan: nat, body: string)
    requires Opens(open) && body != [] && body[0] == open && Read(open, START, body) == Some(Scan(1, false, false))
    requires start + |body| < |text|
    requires text[start..start + |body|] == body && text[start + |body|] == Closer(open)
    ensures BalancedEnd(text, start, maxScan) == if |body| < maxScan then Some(start + |body| + 1) else None
  {
    assert text[start] == text[start..start + |body|][0] == open;
    ScanEnds(open, text, start, Limit(text, start, maxScan), body);
  }

  lemma PartOfText(before: string, body: string, closer: char, after: string, text: string)
    requires text == before + (body + [closer]) + after
    ensures |before| + |body| < |text|
    ensures text[|before|..|before| + |body|] == body && text[|before| + |body|] == closer
  {
    assert text == before + body + ([closer] + after);
  }

  lemma ScanOfRendered(open: char, body: string, rendered: string, before: string, after: string, maxScan: nat)
    requires Opens(open) && body != [] && body[0] == open && Read(open, START, body) == Some(Scan(1, false, false))
    requires rendered == body + [Closer(open)]
    ensures BalancedEnd(before + rendered + after, |before|, maxScan) ==
            if |rendered| <= maxScan then Some(|before| + |rendered|) else None
  {
    var text := before + rendered + after;
    PartOfText(before, body, Closer(open), after, text);
    EndIsFound(open, text, |before|, maxScan, body);
  }

  /**
   * For every JSON array or object, whatever follows it, the scan from its first bracket ends exactly
   * behind it when `maxScan` reaches that far, and finds nothing otherwise.
   */
  lemma ScanIsExact(v: Json, before: string, after: string, maxScan: nat)
    requires IsJson(v) && (v.Array? || v.Object?)
    ensures BalancedEnd(before + Render(v) + after, |before|, maxScan) ==
            if |Render(v)| <= maxScan then Some(|before| + |Render(v)|) else None
  {
    var open := if v.Array? then '[' else '{';
    ContainerReads(v);
    ScanOfRendered(open, [open] + Body(v), Render(v), before, after, maxScan);
  }
}
