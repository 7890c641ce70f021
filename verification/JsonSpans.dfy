/**
 * JSON embedded in text (`json_canonicalizer.py`, `recursive_json.py`): the scanner that collects spans,
 * and the two ways the spans are replaced, from the back with offsets and from the front with pieces.
 */
module JsonSpans {
  import opened Prelude
  import opened JsonText
  import opened BracketScanner

  datatype Span = Span(start: nat, end: nat)

  /** What the two copies of the finder differ in, and the foreign functions they call. */
  datatype Finder = Finder(maxScan: nat, minLength: nat, isLetter: char -> bool, parses: string -> bool)

  /** The end of the span that the finder accepts at position `p`, if it accepts one. */
  function HitAt(f: Finder, text: string, p: nat): (end: Option<nat>)
    requires p < |text|
    ensures end.Some? ==> p < end.value <= |text|
  {
    if text[p] !in "{}[" || (p > 0 && (f.isLetter(text[p - 1]) || text[p - 1] == '$')) then None
    else
      var end := BalancedEnd(text, p, f.maxScan);
      if end.Some? then
        EndInBounds(text, p, f.maxScan);
        if end.value - p >= f.minLength && f.parses(text[p..end.value]) then end else None
      else None
  }

  /** Non-empty, in bounds, in order and disjoint, none starting before `from`. */
  predicate AreSpans(text: string, spans: seq<Span>, from: nat) {
    && from <= |text|
    && (spans == [] || (from <= spans[0].start < spans[0].end <= |text| && AreSpans(text, spans[1..], spans[0].end)))
  }

  /** The leftmost disjoint hits from position `i` on. */
  function SpansFrom(f: Finder, text: string, i: nat): (spans: seq<Span>)
    requires i <= |text|
    ensures AreSpans(text, spans, i)
    decreases |text| - i
  {
    if i == |text| then []
    else
      match HitAt(f, text, i)
      case Some(end) => [Span(i, end)] + SpansFrom(f, text, end)
      case None => var rest := SpansFrom(f, text, i + 1); AreSpansWeaken(text, rest, i, i + 1); rest
  }

  lemma AreSpansWeaken(text: string, spans: seq<Span>, from: nat, to: nat)
    requires from <= to && AreSpans(text, spans, to)
    ensures AreSpans(text, spans, from)
  {}

  lemma {:induction false} AreSpansSuffix(text: string, spans: seq<Span>, from: nat, k: nat)
    requires AreSpans(text, spans, from) && k <= |spans|
    ensures AreSpans(text, spans[k..], from)
    ensures k < |spans| ==> spans[k].start < spans[k].end <= |text| && AreSpans(text, spans[k + 1..], spans[k].end)
    decreases k
  {
    if k == 0 {
      assert spans[0..] == spans;
    } else {
      AreSpansSuffix(text, spans[1..], spans[0].end, k - 1);
      assert spans[1..][k - 1..] == spans[k..];
      assert k < |spans| ==> spans[1..][k..] == spans[k + 1..];
      AreSpansWeaken(text, spans[k..], from, spans[0].end);
    }
  }

  /** A bracket right behind a letter or `$` belongs to code or a template. */
  predicate IsBehindCode(f: Finder, text: string, p: nat)
    requires p < |text|
  {
    p > 0 && (f.isLetter(text[p - 1]) || text[p - 1] == '$')
  }

  /** From `p` to `end` there is a long enough JSON text, as far as the decoder and the bracket scan can tell. */
  predicate IsJsonAt(f: Finder, text: string, p: nat, end: nat) {
    && p < end <= |text| && text[p] in "{[" && !IsBehindCode(f, text, p)
    && BalancedEnd(text, p, f.maxScan) == Some(end) && end - p >= f.minLength && f.parses(text[p..end])
  }

  lemma HitIsJson(f: Finder, text: string, p: nat)
    requires p < |text|
    ensures HitAt(f, text, p).Some? ==> IsJsonAt(f, text, p, HitAt(f, text, p).value)
    ensures forall end: nat :: IsJsonAt(f, text, p, end) ==> HitAt(f, text, p) == Some(end)
  {
    if HitAt(f, text, p).Some? {
      EndInBounds(text, p, f.maxScan);
    }
  }

  lemma SpansAreJson(f: Finder, text: string)
    ensures forall s :: s in SpansFrom(f, text, 0) ==> IsJsonAt(f, text, s.start, s.end)
  {
    var spans := SpansFrom(f, text, 0);
    forall k | 0 <= k < |spans| ensures IsJsonAt(f, text, spans[k].start, spans[k].end) {
      SpansAreHits(f, text, 0, k);
      HitIsJson(f, text, spans[k].start);
    }
  }

  /** A JSON text is a span unless an earlier span reaches over its start. */
  lemma {:induction false} JsonIsSpan(f: Finder, text: string, i: nat, p: nat, end: nat)
    requires i <= p < |text| && IsJsonAt(f, text, p, end)
    ensures Span(p, end) in SpansFrom(f, text, i)
         || exists s :: s in SpansFrom(f, text, i) && s.start < p < s.end
    decreases |text| - i
  {
    HitIsJson(f, text, p);
    var all, hit := SpansFrom(f, text, i), HitAt(f, text, i);
    if i == p {
      assert all[0] == Span(p, end);
    } else if hit.None? {
      JsonIsSpan(f, text, i + 1, p, end);
    } else if p < hit.value {
      assert all[0] == Span(i, hit.value);
    } else {
      var rest := SpansFrom(f, text, hit.value);
      assert all == [Span(i, hit.value)] + rest;
      JsonIsSpan(f, text, hit.value, p, end);
      assert forall s :: s in rest ==> s in all;
    }
  }

  /** Code: no bracket opens anything but right behind a letter or `$`. */
  predicate IsCode(f: Finder, text: string) {
    forall p :: 0 <= p < |text| && text[p] in "{[" ==> IsBehindCode(f, text, p)
  }

  lemma FirstSpanIsJson(f: Finder, text: string)
    ensures var spans := SpansFrom(f, text, 0);
      spans == [] || IsJsonAt(f, text, spans[0].start, spans[0].end)
  {
    SpansAreJson(f, text);
    assert forall spans: seq<Span> :: spans != [] ==> spans[0] in spans;
  }

  lemma CodeHasNoSpans(f: Finder, text: string)
    requires IsCode(f, text)
    ensures SpansFrom(f, text, 0) == []
  {
    FirstSpanIsJson(f, text);
  }

  method FindJsonSpans(f: Finder, text: string) returns (spans: seq<Span>)
    ensures spans == SpansFrom(f, text, 0)
    ensures AreSpans(text, spans, 0)
    ensures forall s :: s in spans ==> IsJsonAt(f, text, s.start, s.end)
  {
    SpansAreJson(f, text);
    spans := [];
    var i := 0;
    while i < |text|
      invariant i <= |text|
      invariant spans + SpansFrom(f, text, i) == SpansFrom(f, text, 0)
    {
      if text[i] in "{}[" {
        if i > 0 && (f.isLetter(text[i - 1]) || text[i - 1] == '$') {
          i := i + 1;
          continue;
        }
        var end := FindBalancedEnd(text, i, f.maxScan);
        if end.Some? {
          var span := text[i..end.value];
          if |span| >= f.minLength && f.parses(span) {
            assert HitAt(f, text, i) == end;
            assert spans + ([Span(i, end.value)] + SpansFrom(f, text, end.value))
                == spans + [Span(i, end.value)] + SpansFrom(f, text, end.value);
            spans := spans + [Span(i, end.value)];
            i := end.value;
            continue;
          }
        }
      }
      i := i + 1;
    }
  }

  predicate Covers(spans: seq<Span>, p: nat) {
    exists k :: 0 <= k < |spans| && spans[k].start <= p < spans[k].end
  }

  /** Nothing is invented: every span is a hit. */
  lemma {:induction false} SpansAreHits(f: Finder, text: string, i: nat, k: nat)
    requires i <= |text| && k < |SpansFrom(f, text, i)|
    ensures var s := SpansFrom(f, text, i)[k]; i <= s.start < |text| && HitAt(f, text, s.start) == Some(s.end)
    decreases |text| - i
  {
    if i < |text| {
      var hit := HitAt(f, text, i);
      if hit.None? {
        SpansAreHits(f, text, i + 1, k);
      } else if k > 0 {
        SpansAreHits(f, text, hit.value, k - 1);
      }
    }
  }

  /** Nothing is missed: every hit starts inside a span. */
  lemma {:induction false} HitsAreCovered(f: Finder, text: string, i: nat, p: nat)
    requires i <= p < |text| && HitAt(f, text, p).Some?
    ensures Covers(SpansFrom(f, text, i), p)
    decreases |text| - i
  {
    var all, hit := SpansFrom(f, text, i), HitAt(f, text, i);
    if hit.None? {
      HitsAreCovered(f, text, i + 1, p);
    } else if p < hit.value {
      assert all[0] == Span(i, hit.value);
    } else {
      HitsAreCovered(f, text, hit.value, p);
      var rest := SpansFrom(f, text, hit.value);
      var k :| 0 <= k < |rest| && rest[k].start <= p < rest[k].end;
      assert all[k + 1] == rest[k];
    }
  }

  /* ---------- Replacing spans ---------- */

  /** `text[from..]` with every span replaced by its rewrite, where it has one. */
  function Spliced(text: string, spans: seq<Span>, rewrite: string -> Option<string>, from: nat): string
    requires AreSpans(text, spans, from)
  {
    if spans == [] then text[from..]
    else
      var s := spans[0];
      var span := text[s.start..s.end];
      text[from..s.start] + rewrite(span).GetOr(span) + Spliced(text, spans[1..], rewrite, s.end)
  }

  /** Text before the first span is copied. */
  lemma SplicedFrom(text: string, spans: seq<Span>, rewrite: string -> Option<string>, from: nat, to: nat)
    requires from <= to && AreSpans(text, spans, to)
    ensures Spliced(text, spans, rewrite, from) == text[from..to] + Spliced(text, spans, rewrite, to)
  {
    if spans == [] {
      assert text[from..] == text[from..to] + text[to..];
    } else {
      var s := spans[0];
      var span := text[s.start..s.end];
      assert text[from..s.start] == text[from..to] + text[to..s.start];
      Regroup(text[from..to], text[to..s.start], rewrite(span).GetOr(span), Spliced(text, spans[1..], rewrite, s.end));
    }
  }

  lemma Regroup(a: string, b: string, c: string, d: string)
    ensures (a + b) + c + d == a + (b + c + d)
  {}

  function CountRewritten(text: string, spans: seq<Span>, rewrite: string -> Option<string>): nat
    requires AreSpans(text, spans, 0)
  {
    if spans == [] then 0
    else
      var s := spans[0];
      AreSpansWeaken(text, spans[1..], 0, s.end);
      (if rewrite(text[s.start..s.end]).Some? then 1 else 0) + CountRewritten(text, spans[1..], rewrite)
  }

  /** What the replacement of span `k` adds to the text with the later spans already replaced. */
  lemma BackStep(text: string, spans: seq<Span>, rewrite: string -> Option<string>, k: nat)
    requires AreSpans(text, spans, 0) && k < |spans|
    ensures spans[k].start < spans[k].end <= |text| && AreSpans(text, spans[k + 1..], spans[k].end)
    ensures AreSpans(text, spans[k..], 0) && AreSpans(text, spans[k + 1..], 0)
    ensures var (start, end) := (spans[k].start, spans[k].end);
            var span, tail := text[start..end], Spliced(text, spans[k + 1..], rewrite, end);
            && Spliced(text, spans[k + 1..], rewrite, 0) == text[..end] + tail
            && Spliced(text, spans[k..], rewrite, 0) == text[..start] + rewrite(span).GetOr(span) + tail
            && CountRewritten(text, spans[k..], rewrite)
               == (if rewrite(span).Some? then 1 else 0) + CountRewritten(text, spans[k + 1..], rewrite)
  {
    AreSpansSuffix(text, spans, 0, k);
    AreSpansWeaken(text, spans[k + 1..], 0, spans[k].end);
    SplicedFrom(text, spans[k + 1..], rewrite, 0, spans[k].end);
    assert spans[k..][1..] == spans[k + 1..];
  }

  lemma SpanIsThere(text: string, tail: string, start: nat, end: nat, result: string)
    requires start < end <= |text| && result == text[..end] + tail
    ensures result[start..end] == text[start..end] && result[..start] == text[..start] && result[end..] == tail
    ensures result == text[..start] + text[start..end] + tail
  {}

  /** `_canonicalize_text`: from the last span to the first, so that earlier offsets stay valid. */
  method SpliceBackToFront(text: string, spans: seq<Span>, rewrite: string -> Option<string>)
      returns (result: string, count: nat)
    requires AreSpans(text, spans, 0)
    ensures result == Spliced(text, spans, rewrite, 0)
    ensures count == CountRewritten(text, spans, rewrite)
  {
    result, count := text, 0;
    var k := |spans|;
    while k > 0
      invariant 0 <= k <= |spans| && AreSpans(text, spans[k..], 0)
      invariant result == Spliced(text, spans[k..], rewrite, 0)
      invariant count == CountRewritten(text, spans[k..], rewrite)
    {
      k := k - 1;
      var start, end := spans[k].start, spans[k].end;
      BackStep(text, spans, rewrite, k);
      SpanIsThere(text, Spliced(text, spans[k + 1..], rewrite, end), start, end, result);
      var span := result[start..end];
      var canonical := rewrite(span);
      if canonical.Some? {
        result := result[..start] + canonical.value + result[end..];
        count := count + 1;
      }
    }
  }

  /** `route_embedded_json` keeps a dispatch result that is not empty and not the span itself. */
  function Effective(dispatch: string -> Option<string>): string -> Option<string> {
    (span: string) => var r := dispatch(span); if r.Some? && r.value != "" && r.value != span then r else None
  }

  lemma FrontStep(text: string, spans: seq<Span>, rewrite: string -> Option<string>, from: nat)
    requires spans != [] && AreSpans(text, spans, from)
    ensures AreSpans(text, spans[1..], from)
    ensures var s := spans[0]; var r := rewrite(text[s.start..s.end]);
            && (r.Some? ==> Spliced(text, spans, rewrite, from) ==
                            text[from..s.start] + r.value + Spliced(text, spans[1..], rewrite, s.end))
            && (r.None? ==> Spliced(text, spans, rewrite, from) == Spliced(text, spans[1..], rewrite, from))
  {
    var s := spans[0];
    AreSpansWeaken(text, spans[1..], from, s.end);
    SplicedFrom(text, spans[1..], rewrite, from, s.end);
    assert text[from..s.end] == text[from..s.start] + text[s.start..s.end];
  }

  /** `route_embedded_json`: pieces from the front; a span without a rewrite stays in the pending text. */
  method SpliceFrontToBack(text: string, spans: seq<Span>, dispatch: string -> Option<string>)
      returns (result: Option<string>)
    requires AreSpans(text, spans, 0)
    ensures result == if CountRewritten(text, spans, Effective(dispatch)) > 0
                      then Some(Spliced(text, spans, Effective(dispatch), 0)) else None
  {
    ghost var rewrite := Effective(dispatch);
    var pieces, lastEnd, compressedAny := "", 0, false;
    for k := 0 to |spans|
      invariant AreSpans(text, spans[k..], lastEnd)
      invariant pieces + Spliced(text, spans[k..], rewrite, lastEnd) == Spliced(text, spans, rewrite, 0)
      invariant CountRewritten(text, spans, rewrite) > 0 <==>
          compressedAny || CountRewritten(text, spans[k..], rewrite) > 0
    {
      var start, end := spans[k].start, spans[k].end;
      assert spans[k..][1..] == spans[k + 1..];
      FrontStep(text, spans[k..], rewrite, lastEnd);
      var r := dispatch(text[start..end]);
      if r.Some? && r.value != "" && r.value != text[start..end] {
        Regroup(pieces, text[lastEnd..start], r.value, Spliced(text, spans[k + 1..], rewrite, end));
        pieces := pieces + text[lastEnd..start] + r.value;
        lastEnd := end;
        compressedAny := true;
      }
    }
    if !compressedAny {
      return None;
    }
    return Some(pieces + text[lastEnd..]);
  }

  function TextOf(text: string, s: Span): string {
    if s.start <= s.end <= |text| then text[s.start..s.end] else ""
  }

  lemma {:induction false} NoneRewritten(text: string, spans: seq<Span>, rewrite: string -> Option<string>)
    requires AreSpans(text, spans, 0)
    ensures (forall s :: s in spans ==> rewrite(TextOf(text, s)).None?) ==>
        CountRewritten(text, spans, rewrite) == 0
  {
    if spans != [] {
      AreSpansWeaken(text, spans[1..], 0, spans[0].end);
      NoneRewritten(text, spans[1..], rewrite);
      assert TextOf(text, spans[0]) == text[spans[0].start..spans[0].end] && spans[0] in spans;
      assert forall s :: s in spans <==> s == spans[0] || s in spans[1..];
    }
  }

  /** With nothing rewritten the text is unchanged. */
  lemma {:induction false} NothingRewritten(text: string, spans: seq<Span>, rewrite: string -> Option<string>,
      from: nat)
    requires AreSpans(text, spans, from) && CountRewritten(text, spans, rewrite) == 0
    ensures Spliced(text, spans, rewrite, from) == text[from..]
  {
    if spans != [] {
      var s := spans[0];
      NothingRewritten(text, spans[1..], rewrite, s.end);
      assert text[from..] == text[from..s.start] + text[s.start..s.end] + text[s.end..];
    }
  }

  /** The canonical text of a span, when it is small enough and parses. */
  function Canonicalizer(maxLength: nat, canonical: string -> Option<string>): string -> Option<string> {
    (span: string) => if |span| > maxLength then None else canonical(span)
  }

  /** `_canonicalize_text` */
  method CanonicalizeText(f: Finder, text: string, maxLength: nat, canonical: string -> Option<string>)
      returns (result: string, count: nat)
    ensures result == Spliced(text, SpansFrom(f, text, 0), Canonicalizer(maxLength, canonical), 0)
    ensures count == 0 ==> result == text
    ensures IsCode(f, text) ==> result == text && count == 0
    ensures (forall s :: s in SpansFrom(f, text, 0) ==>
              s.end - s.start > maxLength || canonical(TextOf(text, s)) == None) ==> result == text && count == 0
  {
    if IsCode(f, text) {
      CodeHasNoSpans(f, text);
    }
    var spans := FindJsonSpans(f, text);
    if spans == [] {
      return text, 0;
    }
    NoneRewritten(text, spans, Canonicalizer(maxLength, canonical));
    result, count := SpliceBackToFront(text, spans, Canonicalizer(maxLength, canonical));
    if count == 0 {
      NothingRewritten(text, spans, Canonicalizer(maxLength, canonical), 0);
    }
  }

  predicate Contains(text: string, part: string) {
    exists i :: 0 <= i <= |text| && part <= text[i..]
  }

  predicate HasCcrMarkers(text: string) { Contains(text, "[N items compressed") || Contains(text, "<<ccr:") }

  /** Texts with a marker in them are skipped. */
  lemma MarkersAreSeen(before: string, after: string)
    ensures HasCcrMarkers(before + "[N items compressed" + after) && HasCcrMarkers(before + "<<ccr:" + after)
  {
    assert (before + "[N items compressed" + after)[|before|..] == "[N items compressed" + after;
    assert (before + "<<ccr:" + after)[|before|..] == "<<ccr:" + after;
  }

  /** `route_embedded_json`: the rewritten text, or nothing when there is nothing to rewrite. */
  method RouteEmbeddedJson(f: Finder, text: string, dispatch: string -> Option<string>) returns (result: Option<string>)
    ensures text == "" || HasCcrMarkers(text) ==> result == None
    ensures text != "" && !HasCcrMarkers(text) ==>
              result.GetOr(text) == Spliced(text, SpansFrom(f, text, 0), Effective(dispatch), 0)
    ensures result.Some? ==> CountRewritten(text, SpansFrom(f, text, 0), Effective(dispatch)) > 0
    ensures IsCode(f, text) ==> result == None
    ensures (forall s :: s in SpansFrom(f, text, 0) ==>
              dispatch(TextOf(text, s)) in [None, Some(""), Some(TextOf(text, s))]) ==> result == None
  {
    if IsCode(f, text) {
      CodeHasNoSpans(f, text);
    }
    if text == "" || HasCcrMarkers(text) {
      return None;
    }
    var spans := FindJsonSpans(f, text);
    NoneRewritten(text, spans, Effective(dispatch));
    result := SpliceFrontToBack(text, spans, dispatch);
    if result.None? {
      NothingRewritten(text, spans, Effective(dispatch), 0);
    }
  }

  /* ---------- From a JSON value in text to its replacement ---------- */

  /** No hit, no span. */
  lemma {:induction false} NoHits(f: Finder, text: string, i: nat, j: nat)
    requires i <= j <= |text| && forall p :: i <= p < j ==> !Opens(text[p])
    ensures SpansFrom(f, text, i) == SpansFrom(f, text, j)
    decreases j - i
  {
    if i < j {
      NoHits(f, text, i + 1, j);
    }
  }

  /** Some text without an opening bracket, and the JSON value behind it. */
  datatype Piece = Piece(gap: string, value: Json)

  predicate HasNoBracket(text: string) { forall i :: 0 <= i < |text| ==> !Opens(text[i]) }

  /** The finder takes the value: an object or array of the right length with no letter or `$` before it. */
  predicate IsEmbedded(f: Finder, p: Piece) {
    && IsJson(p.value) && (p.value.Array? || p.value.Object?) && HasNoBracket(p.gap)
    && (p.gap != [] ==> !f.isLetter(p.gap[|p.gap| - 1]) && p.gap[|p.gap| - 1] != '$')
    && f.minLength <= |Render(p.value)| <= f.maxScan && f.parses(Render(p.value))
  }

  /** The pieces one after the other, and the text behind them. */
  function TextOfPieces(pieces: seq<Piece>, tail: string): string {
    if pieces == [] then tail
    else pieces[0].gap + Render(pieces[0].value) + TextOfPieces(pieces[1..], tail)
  }

  /** The same with every value rewritten. */
  function RewrittenPieces(pieces: seq<Piece>, tail: string, rewrite: string -> Option<string>): string {
    if pieces == [] then tail
    else
      var text := Render(pieces[0].value);
      pieces[0].gap + rewrite(text).GetOr(text) + RewrittenPieces(pieces[1..], tail, rewrite)
  }

  /** Where the values stand when the pieces start at `at`. */
  function SpansOfPieces(pieces: seq<Piece>, at: nat): seq<Span> {
    if pieces == [] then []
    else
      var start := at + |pieces[0].gap|;
      var end := start + |Render(pieces[0].value)|;
      [Span(start, end)] + SpansOfPieces(pieces[1..], end)
  }

  /** What may stand before a piece: nothing, or the end of a value. */
  predicate EndsLikeValue(f: Finder, before: string) {
    before != [] ==> !f.isLetter(before[|before| - 1]) && before[|before| - 1] in "]}"
  }

  /** `value` is the first hit behind `before`. */
  ghost predicate IsNextHit(f: Finder, before: string, gap: string, value: string, rest: string) {
    var text, start := before + gap + value + rest, |before + gap|;
    && value != [] && HitAt(f, text, start) == Some(start + |value|)
    && SpansFrom(f, text, |before|) == SpansFrom(f, text, start)
  }

  lemma PieceIsHit(f: Finder, before: string, p: Piece, after: string)
    requires IsEmbedded(f, p) && EndsLikeValue(f, before)
    ensures IsNextHit(f, before, p.gap, Render(p.value), after)
  {
    var text, start := before + p.gap + Render(p.value) + after, |before + p.gap|;
    ScanIsExact(p.value, before + p.gap, after, f.maxScan);
    assert text[start..start + |Render(p.value)|] == Render(p.value);
    assert start > 0 ==> text[start - 1] == (before + p.gap)[start - 1];
    NoHits(f, text, |before|, start);
  }

  lemma ValueEnds(f: Finder, before: string, v: Json)
    requires (v.Array? || v.Object?) && !f.isLetter(']') && !f.isLetter('}')
    ensures EndsLikeValue(f, before + Render(v))
  {
    var r := Render(v);
    assert r != [] && r[|r| - 1] in "]}";
    assert (before + r)[|before + r| - 1] == r[|r| - 1];
  }

  /** One hit: the span list and the spliced text go on behind it. */
  lemma HitStep(f: Finder, before: string, gap: string, value: string, rest: string, rewrite: string -> Option<string>)
    requires IsNextHit(f, before, gap, value, rest)
    ensures var text, start, end := before + gap + value + rest, |before + gap|, |before + gap + value|;
      && SpansFrom(f, text, |before|) == [Span(start, end)] + SpansFrom(f, text, end)
      && Spliced(text, SpansFrom(f, text, |before|), rewrite, |before|)
         == gap + rewrite(value).GetOr(value) + Spliced(text, SpansFrom(f, text, end), rewrite, end)
  {
    var text := before + gap + value + rest;
    assert text[|before|..|before + gap|] == gap;
    assert text[|before + gap|..|before + gap + value|] == value;
    assert SpansFrom(f, text, |before|)[1..] == SpansFrom(f, text, |before + gap + value|);
  }

  lemma TailHasNoSpans(f: Finder, before: string, tail: string, rewrite: string -> Option<string>)
    requires HasNoBracket(tail)
    ensures var text := before + tail;
      SpansFrom(f, text, |before|) == [] && Spliced(text, SpansFrom(f, text, |before|), rewrite, |before|) == tail
  {
    var text := before + tail;
    NoHits(f, text, |before|, |text|);
    assert text[|before|..] == tail;
  }

  /**
   * JSON objects and arrays between texts without opening brackets are found, each whole and alone, and replacing them
   * leaves those texts as they are.
   */
  lemma {:induction false} EmbeddedJsonIsReplaced(
      f: Finder, before: string, pieces: seq<Piece>, tail: string, rewrite: string -> Option<string>)
    requires EndsLikeValue(f, before) && !f.isLetter(']') && !f.isLetter('}')
    requires HasNoBracket(tail) && forall p :: p in pieces ==> IsEmbedded(f, p)
    ensures AreReplaced(f, before, pieces, tail, rewrite)
    decreases |pieces|
  {
    if pieces == [] {
      TailHasNoSpans(f, before, tail, rewrite);
    } else {
      var p := pieces[0];
      PieceIsHit(f, before, p, TextOfPieces(pieces[1..], tail));
      ValueEnds(f, before + p.gap, p.value);
      EmbeddedJsonIsReplaced(f, before + p.gap + Render(p.value), pieces[1..], tail, rewrite);
      PiecesStep(f, before, pieces, tail, rewrite, p.gap, Render(p.value));
    }
  }

  /** The pieces behind `before` are the spans, and splicing rewrites exactly them. */
  ghost predicate AreReplaced(f: Finder, before: string, pieces: seq<Piece>, tail: string,
      rewrite: string -> Option<string>) {
    var text := before + TextOfPieces(pieces, tail);
    && SpansFrom(f, text, |before|) == SpansOfPieces(pieces, |before|)
    && Spliced(text, SpansFrom(f, text, |before|), rewrite, |before|) == RewrittenPieces(pieces, tail, rewrite)
  }

  /** The three functions of the pieces, one step unfolded. */
  lemma FirstPiece(pieces: seq<Piece>, tail: string, rewrite: string -> Option<string>, at: nat, gap: string,
      value: string)
    requires pieces != [] && gap == pieces[0].gap && value == Render(pieces[0].value)
    ensures TextOfPieces(pieces, tail) == gap + value + TextOfPieces(pieces[1..], tail)
    ensures RewrittenPieces(pieces, tail, rewrite)
        == gap + rewrite(value).GetOr(value) + RewrittenPieces(pieces[1..], tail, rewrite)
    ensures SpansOfPieces(pieces, at)
        == [Span(at + |gap|, at + |gap| + |value|)] + SpansOfPieces(pieces[1..], at + |gap| + |value|)
  {}

  lemma PiecesStep(f: Finder, before: string, pieces: seq<Piece>, tail: string, rewrite: string -> Option<string>,
                   gap: string, value: string)
    requires pieces != [] && gap == pieces[0].gap && value == Render(pieces[0].value)
    requires IsNextHit(f, before, gap, value, TextOfPieces(pieces[1..], tail))
    requires AreReplaced(f, before + gap + value, pieces[1..], tail, rewrite)
    ensures AreReplaced(f, before, pieces, tail, rewrite)
  {
    var rest := TextOfPieces(pieces[1..], tail);
    FirstPiece(pieces, tail, rewrite, |before|, gap, value);
    HitStep(f, before, gap, value, rest, rewrite);
    Regroup(before, gap, value, rest);
  }

  /** In particular for a whole text. */
  lemma TextIsReplaced(f: Finder, pieces: seq<Piece>, tail: string, rewrite: string -> Option<string>)
    requires !f.isLetter(']') && !f.isLetter('}')
    requires HasNoBracket(tail) && forall p :: p in pieces ==> IsEmbedded(f, p)
    ensures var text := TextOfPieces(pieces, tail);
      && SpansFrom(f, text, 0) == SpansOfPieces(pieces, 0)
      && Spliced(text, SpansFrom(f, text, 0), rewrite, 0) == RewrittenPieces(pieces, tail, rewrite)
  {
    EmbeddedJsonIsReplaced(f, "", pieces, tail, rewrite);
    assert "" + TextOfPieces(pieces, tail) == TextOfPieces(pieces, tail);
  }
}
