/** Usage extraction from fragmented server-sent events (`StreamingUsageParser` of `provider_cache.py`). */
module UsageStream {
  import opened Prelude
  import opened KeyOrder
  import opened OrderedDict
  import opened CanonicalJson

  newtype byte = x: int | 0 <= x < 256

  type Bytes = seq<byte>

  const NEWLINE: byte := 10

  /** `json.loads`, which may raise. */
  type Decoder = Bytes -> Option<Value>

  /* ---------- Usage documents ---------- */

  datatype Usage = Usage(inputTokens: nat, cacheWriteTokens: nat, cachedTokens: nat)

  const NO_USAGE: Usage := Usage(0, 0, 0)

  /** `d.get(key)` */
  function Field(items: seq<Item<Value>>, key: string): Option<Value> {
    if Has(items, key) then Some(At(items, key)) else None
  }

  /** `d.get(first, d.get(second, default))` */
  function Either(items: seq<Item<Value>>, first: string, second: string, default: Value): Value {
    Field(items, first).GetOr(Field(items, second).GetOr(default))
  }

  /** `_integer`: non-negative integers, not booleans; everything else counts as zero. */
  function Integer(v: Value): nat {
    if v.Int? && v.n >= 0 then v.n else 0
  }

  /** `parse_cache_usage` */
  function ParseCacheUsage(document: seq<Item<Value>>): Usage {
    match Field(document, "usage")
    case Some(Dict(usage)) =>
      var details := Either(usage, "input_tokens_details", "prompt_tokens_details", Dict([]));
      UsageOf(Either(usage, "input_tokens", "prompt_tokens", Int(0)), if details.Dict? then details.items else [])
    case _ => NO_USAGE
  }

  function UsageOf(tokens: Value, parts: seq<Item<Value>>): Usage {
    Usage(Integer(tokens), Integer(Field(parts, "cache_write_tokens").GetOr(Int(0))),
          Integer(Field(parts, "cached_tokens").GetOr(Int(0))))
  }

  /** The dictionary maps the key to the value. */
  predicate Holds(items: seq<Item<Value>>, key: string, value: Value) { Entry(key, value) in items }

  lemma FieldHolds(items: seq<Item<Value>>, key: string, value: Value)
    requires Distinct(items)
    ensures Field(items, key) == Some(value) <==> Holds(items, key, value)
  {
    if Holds(items, key, value) {
      var i :| 0 <= i < |items| && items[i] == Entry(key, value);
      FindIs(items, key, i);
    }
  }

  /** The dictionary maps the key to the value, or lacks it. */
  predicate HoldsOrLacks(items: seq<Item<Value>>, key: string, value: Option<Value>) {
    match value
    case Some(v) => Holds(items, key, v)
    case None => !Has(items, key)
  }

  /** A count of tokens: a natural number, or zero for anything else. */
  function CountOf(v: Option<Value>): nat {
    match v
    case Some(Int(n)) => if n >= 0 then n else 0
    case _ => 0
  }

  lemma FieldIs(items: seq<Item<Value>>, key: string, value: Option<Value>)
    requires Distinct(items) && HoldsOrLacks(items, key, value)
    ensures Field(items, key) == value
  {
    if value.Some? {
      FieldHolds(items, key, value.value);
    }
  }

  /** Tokens and details under these two keys, each of which may be missing. */
  ghost predicate Reports(usage: seq<Item<Value>>, tokensKey: string, detailsKey: string, tokens: Option<Value>,
      details: Option<Value>) {
    HoldsOrLacks(usage, tokensKey, tokens) && HoldsOrLacks(usage, detailsKey, details)
  }

  /**
   * The usage of the Responses API, or of the Chat Completions API where the Responses fields are missing. A missing
   * field of the one is not supplied by the other.
   */
  ghost predicate ReportsUsage(usage: seq<Item<Value>>, tokens: Option<Value>, details: Option<Value>) {
    || (&& Reports(usage, "input_tokens", "input_tokens_details", tokens, details)
        && (tokens.None? ==> !Has(usage, "prompt_tokens")) && (details.None? ==> !Has(usage, "prompt_tokens_details")))
    || (&& Reports(usage, "prompt_tokens", "prompt_tokens_details", tokens, details)
        && !Has(usage, "input_tokens") && !Has(usage, "input_tokens_details"))
  }

  /**
   * Both protocols are normalized to the same usage, whatever else the dictionaries hold and in whatever order; a
   * missing field counts as zero, and so do the details when they are missing or not a dictionary.
   */
  lemma BothProtocolsAgree(document: seq<Item<Value>>, usage: seq<Item<Value>>, tokens: Option<Value>,
                           details: Option<Value>, parts: seq<Item<Value>>,
                           written: Option<Value>, cached: Option<Value>)
    requires Distinct(document) && Distinct(usage) && Distinct(parts)
    requires Holds(document, "usage", Dict(usage)) && ReportsUsage(usage, tokens, details)
    requires parts == if details.Some? && details.value.Dict? then details.value.items else []
    requires HoldsOrLacks(parts, "cache_write_tokens", written) && HoldsOrLacks(parts, "cached_tokens", cached)
    ensures ParseCacheUsage(document) == Usage(CountOf(tokens), CountOf(written), CountOf(cached))
  {
    FieldHolds(document, "usage", Dict(usage));
    PartsAgree(tokens, parts, written, cached);
    EitherIs(usage, "input_tokens", "prompt_tokens", Int(0), tokens);
    EitherIs(usage, "input_tokens_details", "prompt_tokens_details", Dict([]), details);
  }

  lemma PartsAgree(tokens: Option<Value>, parts: seq<Item<Value>>, written: Option<Value>, cached: Option<Value>)
    requires Distinct(parts)
    requires HoldsOrLacks(parts, "cache_write_tokens", written) && HoldsOrLacks(parts, "cached_tokens", cached)
    ensures UsageOf(tokens.GetOr(Int(0)), parts) == Usage(CountOf(tokens), CountOf(written), CountOf(cached))
  {
    FieldIs(parts, "cache_write_tokens", written);
    FieldIs(parts, "cached_tokens", cached);
  }

  lemma EitherIs(items: seq<Item<Value>>, first: string, second: string, default: Value, value: Option<Value>)
    requires Distinct(items)
    requires (HoldsOrLacks(items, first, value) && (value.None? ==> !Has(items, second)))
          || (HoldsOrLacks(items, second, value) && !Has(items, first))
    ensures Either(items, first, second, default) == value.GetOr(default)
  {
    if HoldsOrLacks(items, first, value) {
      FieldIs(items, first, value);
    }
    if HoldsOrLacks(items, second, value) {
      FieldIs(items, second, value);
    }
  }

  /* ---------- One line ---------- */

  predicate IsByteSpace(b: byte) { b == 32 || 9 <= b <= 13 }

  function StripLeft(s: Bytes): Bytes {
    if s != [] && IsByteSpace(s[0]) then StripLeft(s[1..]) else s
  }

  function StripRight(s: Bytes): Bytes {
    if s != [] && IsByteSpace(s[|s| - 1]) then StripRight(s[..|s| - 1]) else s
  }

  function Strip(s: Bytes): Bytes { StripRight(StripLeft(s)) }

  const DATA: Bytes := [100, 97, 116, 97, 58]

  const DONE: Bytes := [91, 68, 79, 78, 69, 93]

  /** The usage that a line reports, if it reports any. */
  function UsageOfLine(decode: Decoder, line: Bytes): Option<Usage> {
    var stripped := Strip(line);
    if !(DATA <= stripped) then None
    else
      var payload := Strip(stripped[5..]);
      if payload == [] || payload == DONE then None
      else
        match decode(payload)
        case Some(Dict(document)) =>
          (match Field(document, "response").GetOr(Dict(document))
           case Dict(candidate) =>
             var usage := ParseCacheUsage(candidate);
             if usage == NO_USAGE then None else Some(usage)
           case _ => None)
        case _ => None
  }

  /** What a line says about usage; the stream is read with any such function. */
  type Reader = Bytes -> Option<Usage>

  function ReaderOf(decode: Decoder): Reader { line => UsageOfLine(decode, line) }

  function AfterLines(read: Reader, usage: Usage, lines: seq<Bytes>): Usage {
    if lines == [] then usage
    else read(lines[|lines| - 1]).GetOr(AfterLines(read, usage, lines[..|lines| - 1]))
  }

  /* ---------- What a line reports ---------- */

  predicate AreSpaces(s: Bytes) { forall i :: 0 <= i < |s| ==> s[i] in {9, 10, 11, 12, 13, 32} }

  /** Not empty, and no white space at either end. */
  predicate IsTrimmed(s: Bytes) { s != [] && !AreSpaces(s[..1]) && !AreSpaces(s[|s| - 1..]) }

  lemma SpaceMeans(b: byte)
    ensures IsByteSpace(b) <==> AreSpaces([b])
  {
    assert [b][0] == b;
  }

  lemma {:induction false} StripLeftOf(gap: Bytes, s: Bytes)
    requires AreSpaces(gap) && s != [] && !AreSpaces(s[..1])
    ensures StripLeft(gap + s) == s
  {
    if gap == [] {
      assert gap + s == s && s[..1] == [s[0]];
      SpaceMeans(s[0]);
    } else {
      assert (gap + s)[0] == gap[0] && (gap + s)[1..] == gap[1..] + s;
      SpaceMeans(gap[0]);
      StripLeftOf(gap[1..], s);
    }
  }

  lemma {:induction false} StripRightOf(s: Bytes, gap: Bytes)
    requires AreSpaces(gap) && s != [] && !AreSpaces(s[|s| - 1..])
    ensures StripRight(s + gap) == s
  {
    if gap == [] {
      assert s + gap == s && s[|s| - 1..] == [s[|s| - 1]];
      SpaceMeans(s[|s| - 1]);
    } else {
      var n := |gap| - 1;
      assert (s + gap)[|s + gap| - 1] == gap[n] && (s + gap)[..|s + gap| - 1] == s + gap[..n];
      SpaceMeans(gap[n]);
      StripRightOf(s, gap[..n]);
    }
  }

  lemma StripOf(before: Bytes, s: Bytes, after: Bytes)
    requires AreSpaces(before) && AreSpaces(after) && IsTrimmed(s)
    ensures Strip(before + s + after) == s
  {
    assert before + s + after == before + (s + after) && (s + after)[..1] == s[..1];
    StripLeftOf(before, s + after);
    StripRightOf(s, after);
  }

  /** `data:` and a payload, with white space around both. */
  function DataLine(before: Bytes, gap: Bytes, payload: Bytes, after: Bytes): Bytes {
    before + (DATA + gap + payload) + after
  }

  /** What the payload of a line is worth: everything hangs on the decoded document. */
  function UsageOfPayload(decode: Decoder, payload: Bytes): Option<Usage> {
    match decode(payload)
    case Some(Dict(document)) =>
      (match Field(document, "response").GetOr(Dict(document))
       case Dict(candidate) =>
         var usage := ParseCacheUsage(candidate);
         if usage == NO_USAGE then None else Some(usage)
       case _ => None)
    case _ => None
  }

  lemma DataLineIsRead(decode: Decoder, before: Bytes, gap: Bytes, payload: Bytes, after: Bytes)
    requires AreSpaces(before) && AreSpaces(gap) && AreSpaces(after) && IsTrimmed(payload) && payload != DONE
    ensures UsageOfLine(decode, DataLine(before, gap, payload, after)) == UsageOfPayload(decode, payload)
  {
    var body := DATA + gap + payload;
    assert body[..1] == DATA[..1] == [100] && body[|body| - 1..] == payload[|payload| - 1..];
    assert !AreSpaces([100]) by { assert [100][0] == 100; }
    StripOf(before, body, after);
    assert DATA <= body && body[5..] == [] + gap + payload == gap + payload + [];
    StripOf(gap, payload, []);
  }

  /** The document that usage is looked for in: the response of an event that has one, or the event itself. */
  predicate IsCandidate(document: seq<Item<Value>>, candidate: seq<Item<Value>>) {
    || Holds(document, "response", Dict(candidate))
    || (!Has(document, "response") && candidate == document)
  }

  /**
   * A line with a payload that decodes to a dictionary reports the usage of its response, or its own when it has no
   * response, under the keys of either protocol; but not when all counts are zero.
   */
  lemma LineReports(decode: Decoder, before: Bytes, gap: Bytes, payload: Bytes, after: Bytes,
                    document: seq<Item<Value>>, candidate: seq<Item<Value>>, usage: seq<Item<Value>>,
                    tokens: Option<Value>, details: Option<Value>, parts: seq<Item<Value>>,
                    written: Option<Value>, cached: Option<Value>)
    requires AreSpaces(before) && AreSpaces(gap) && AreSpaces(after) && IsTrimmed(payload) && payload != DONE
    requires decode(payload) == Some(Dict(document)) && Distinct(document) && IsCandidate(document, candidate)
    requires Distinct(candidate) && Distinct(usage) && Distinct(parts)
    requires Holds(candidate, "usage", Dict(usage)) && ReportsUsage(usage, tokens, details)
    requires parts == if details.Some? && details.value.Dict? then details.value.items else []
    requires HoldsOrLacks(parts, "cache_write_tokens", written) && HoldsOrLacks(parts, "cached_tokens", cached)
    ensures UsageOfLine(decode, DataLine(before, gap, payload, after)) ==
      if CountOf(tokens) == 0 && CountOf(written) == 0 && CountOf(cached) == 0 then None
      else Some(Usage(CountOf(tokens), CountOf(written), CountOf(cached)))
  {
    DataLineIsRead(decode, before, gap, payload, after);
    CandidateCounts(decode, payload, document, candidate);
    BothProtocolsAgree(candidate, usage, tokens, details, parts, written, cached);
  }

  lemma CandidateCounts(decode: Decoder, payload: Bytes, document: seq<Item<Value>>, candidate: seq<Item<Value>>)
    requires decode(payload) == Some(Dict(document)) && Distinct(document) && IsCandidate(document, candidate)
    ensures UsageOfPayload(decode, payload)
         == if ParseCacheUsage(candidate) == NO_USAGE then None else Some(ParseCacheUsage(candidate))
  {
    if Holds(document, "response", Dict(candidate)) {
      FieldHolds(document, "response", Dict(candidate));
    }
  }

  /** A candidate without a usage dictionary. */
  predicate HasNoUsage(candidate: seq<Item<Value>>) {
    !Has(candidate, "usage") || !At(candidate, "usage").Dict?
  }

  /** No dictionary, a response that is something else, or no usage dictionary where it is looked for. */
  predicate IsUseless(found: Option<Value>) {
    match found
    case Some(Dict(document)) =>
      if !Has(document, "response") then HasNoUsage(document)
      else !At(document, "response").Dict? || HasNoUsage(At(document, "response").items)
    case _ => true
  }

  lemma LineReportsNothing(decode: Decoder, before: Bytes, gap: Bytes, payload: Bytes, after: Bytes)
    requires AreSpaces(before) && AreSpaces(gap) && AreSpaces(after) && IsTrimmed(payload)
    requires payload == DONE || IsUseless(decode(payload))
    ensures UsageOfLine(decode, DataLine(before, gap, payload, after)) == None
  {
    if payload != DONE {
      DataLineIsRead(decode, before, gap, payload, after);
    } else {
      DoneReportsNothing(decode, before, gap, after);
    }
  }

  lemma DoneReportsNothing(decode: Decoder, before: Bytes, gap: Bytes, after: Bytes)
    requires AreSpaces(before) && AreSpaces(gap) && AreSpaces(after)
    ensures UsageOfLine(decode, DataLine(before, gap, DONE, after)) == None
  {
    var body := DATA + gap + DONE;
    assert body[..1] == [100] && body[|body| - 1..] == [93] && DONE[..1] == [91] && DONE[5..] == [93];
    assert !AreSpaces([100]) && !AreSpaces([93]) && !AreSpaces([91]) by {
      assert [100][0] == 100 && [93][0] == 93 && [91][0] == 91;
    }
    StripOf(before, body, after);
    assert body[5..] == gap + DONE == gap + DONE + [];
    StripOf(gap, DONE, []);
  }

  /** Lines that do not start with `data:` behind their white space report nothing. */
  lemma OtherLineReportsNothing(decode: Decoder, before: Bytes, s: Bytes, after: Bytes)
    requires AreSpaces(before) && AreSpaces(after) && IsTrimmed(s) && !(DATA <= s)
    ensures UsageOfLine(decode, before + s + after) == None
  {
    StripOf(before, s, after);
  }

  /* ---------- The last line that reports ---------- */

  lemma {:induction false} NoReportKeeps(read: Reader, usage: Usage, lines: seq<Bytes>)
    requires forall k :: 0 <= k < |lines| ==> read(lines[k]).None?
    ensures AfterLines(read, usage, lines) == usage
  {
    if lines != [] {
      NoReportKeeps(read, usage, lines[..|lines| - 1]);
    }
  }

  /** The usage is what the last reporting line says. */
  lemma {:induction false} LastReportWins(read: Reader, usage: Usage, lines: seq<Bytes>, k: nat)
    requires k < |lines| && read(lines[k]).Some? && forall j :: k < j < |lines| ==> read(lines[j]).None?
    ensures AfterLines(read, usage, lines) == read(lines[k]).value
  {
    var n := |lines| - 1;
    if k < n {
      LastReportWins(read, usage, lines[..n], k);
    }
  }

  /* ---------- Splitting ---------- */

  datatype Split = Split(lines: seq<Bytes>, rest: Bytes)

  /** `s.split(b"\n")`, with the last piece apart. */
  function SplitLines(s: Bytes): Split {
    if s == [] then Split([], [])
    else
      var front := SplitLines(s[..|s| - 1]);
      var b := s[|s| - 1];
      if b == NEWLINE then Split(front.lines + [front.rest], []) else Split(front.lines, front.rest + [b])
  }

  /** The finished lines with their newlines, and the rest. */
  function Rejoined(lines: seq<Bytes>, rest: Bytes): Bytes {
    if lines == [] then rest else Rejoined(lines[..|lines| - 1], lines[|lines| - 1] + [NEWLINE] + rest)
  }

  lemma {:induction false} RejoinedGrows(lines: seq<Bytes>, rest: Bytes, b: byte)
    ensures Rejoined(lines, rest + [b]) == Rejoined(lines, rest) + [b]
    decreases |lines|
  {
    if lines != [] {
      var n := |lines| - 1;
      RejoinedGrows(lines[..n], lines[n] + [NEWLINE] + rest, b);
      assert lines[n] + [NEWLINE] + rest + [b] == lines[n] + [NEWLINE] + (rest + [b]);
    }
  }

  /** The pieces hold no newline, and put together again they are the stream. */
  lemma {:induction false} SplitIsExact(s: Bytes)
    ensures Rejoined(SplitLines(s).lines, SplitLines(s).rest) == s
    ensures NEWLINE !in SplitLines(s).rest && forall line :: line in SplitLines(s).lines ==> NEWLINE !in line
  {
    if s != [] {
      var front, b := SplitLines(s[..|s| - 1]), s[|s| - 1];
      SplitIsExact(s[..|s| - 1]);
      if b == NEWLINE {
        NewLineRejoined(front.lines, front.rest);
      } else {
        RejoinedGrows(front.lines, front.rest, b);
      }
      assert s == s[..|s| - 1] + [b];
    }
  }

  lemma NewLineRejoined(lines: seq<Bytes>, rest: Bytes)
    ensures Rejoined(lines + [rest], []) == Rejoined(lines, rest) + [NEWLINE]
  {
    var more := lines + [rest];
    assert more[..|more| - 1] == lines && rest + [NEWLINE] + [] == rest + [NEWLINE];
    RejoinedGrows(lines, rest, NEWLINE);
  }

  /** Splitting can stop anywhere and go on with the unfinished line. */
  lemma {:induction false} SplitAppend(a: Bytes, b: Bytes)
    ensures SplitLines(a + b).lines == SplitLines(a).lines + SplitLines(SplitLines(a).rest + b).lines
    ensures SplitLines(a + b).rest == SplitLines(SplitLines(a).rest + b).rest
  {
    var r := SplitLines(a).rest;
    if b == [] {
      assert a + b == a && r + b == r;
      RestHasNoLines(a);
    } else {
      var n := |b| - 1;
      SplitAppend(a, b[..n]);
      assert (a + b)[..|a + b| - 1] == a + b[..n];
      assert (r + b)[..|r + b| - 1] == r + b[..n];
    }
  }

  /** An unfinished line holds no newline, so splitting it again finds no line. */
  lemma {:induction false} RestHasNoLines(a: Bytes)
    ensures SplitLines(SplitLines(a).rest) == Split([], SplitLines(a).rest)
  {
    if a != [] {
      RestHasNoLines(a[..|a| - 1]);
      var r := SplitLines(a).rest;
      if a[|a| - 1] != NEWLINE {
        assert r[..|r| - 1] == SplitLines(a[..|a| - 1]).rest;
      }
    }
  }

  lemma {:induction false} AfterLinesAppend(read: Reader, usage: Usage, a: seq<Bytes>, b: seq<Bytes>)
    ensures AfterLines(read, usage, a + b) == AfterLines(read, AfterLines(read, usage, a), b)
  {
    if b == [] {
      assert a + b == a;
    } else {
      AfterLinesAppend(read, usage, a, b[..|b| - 1]);
      assert (a + b)[..|a + b| - 1] == a + b[..|b| - 1];
    }
  }

  /* ---------- The parser ---------- */

  datatype State = State(buffer: Bytes, usage: Usage)

  /** `s[-limit:]`, where `[-0:]` is everything. */
  function LastBytes(s: Bytes, limit: nat): Bytes {
    if |s| > limit > 0 then s[|s| - limit..] else s
  }

  /** One call of `feed`; a buffer over the limit loses its oldest bytes. */
  function Fed(read: Reader, limit: nat, st: State, chunk: Bytes): State {
    var split := SplitLines(LastBytes(st.buffer + chunk, limit));
    State(split.rest, AfterLines(read, st.usage, split.lines))
  }

  class StreamingUsageParser {
    const limit: nat
    const decode: Decoder
    var buffer: Bytes
    var usage: Usage

    constructor (limit: nat, decode: Decoder)
      ensures buffer == [] && usage == NO_USAGE && this.limit == limit && this.decode == decode
    {
      this.limit, this.decode, buffer, usage := limit, decode, [], NO_USAGE;
    }

    method Feed(chunk: Bytes)
      modifies this
      ensures State(buffer, usage) == Fed(ReaderOf(decode), limit, State(old(buffer), old(usage)), chunk)
    {
      buffer := buffer + chunk;
      if |buffer| > limit {
        buffer := LastBytes(buffer, limit);
      }
      var split := SplitLines(buffer);
      buffer := split.rest;
      usage := LastUsage(split.lines, usage);
    }

    /** The loop over the finished lines. */
    method LastUsage(lines: seq<Bytes>, given: Usage) returns (last: Usage)
      ensures last == AfterLines(ReaderOf(decode), given, lines)
    {
      last := given;
      var read := ReaderOf(decode);
      for k := 0 to |lines|
        invariant last == AfterLines(read, given, lines[..k])
      {
        assert lines[..k + 1][..k] == lines[..k];
        var found := read(lines[k]);
        if found.Some? {
          last := found.value;
        }
      }
      assert lines[..|lines|] == lines;
    }
  }

  /* ---------- Chunk independence ---------- */

  function FedAll(read: Reader, limit: nat, st: State, chunks: seq<Bytes>): State {
    if chunks == [] then st
    else Fed(read, limit, FedAll(read, limit, st, chunks[..|chunks| - 1]), chunks[|chunks| - 1])
  }

  function Concat(chunks: seq<Bytes>): Bytes {
    if chunks == [] then [] else Concat(chunks[..|chunks| - 1]) + chunks[|chunks| - 1]
  }

  const INITIAL: State := State([], NO_USAGE)

  /** The state is a function of the bytes alone: the last unfinished line, and the last usage in a finished one. */
  function Whole(read: Reader, stream: Bytes): State {
    State(SplitLines(stream).rest, AfterLines(read, NO_USAGE, SplitLines(stream).lines))
  }

  /** Each chunk fits behind the line that the bytes before it leave unfinished. */
  predicate Fits(limit: nat, chunks: seq<Bytes>) {
    forall n :: 0 <= n < |chunks| ==> ChunkFits(limit, chunks, n)
  }

  predicate ChunkFits(limit: nat, chunks: seq<Bytes>, n: nat)
    requires n < |chunks|
  {
    |SplitLines(Concat(chunks[..n])).rest| + |chunks[n]| <= limit
  }

  lemma FitsFront(limit: nat, chunks: seq<Bytes>)
    requires chunks != []
    ensures var n := |chunks| - 1;
      Fits(limit, chunks) <==> Fits(limit, chunks[..n]) && |SplitLines(Concat(chunks[..n])).rest| + |chunks[n]| <= limit
  {
    var front := chunks[..|chunks| - 1];
    forall n | 0 <= n < |front| ensures ChunkFits(limit, front, n) <==> ChunkFits(limit, chunks, n) {
      assert front[..n] == chunks[..n];
    }
    assert ChunkFits(limit, chunks, |front|) <==> |SplitLines(Concat(front)).rest| + |chunks[|front|]| <= limit;
  }

  lemma {:induction false} FedIsWhole(read: Reader, limit: nat, chunks: seq<Bytes>)
    requires Fits(limit, chunks)
    ensures FedAll(read, limit, INITIAL, chunks) == Whole(read, Concat(chunks))
  {
    if chunks != [] {
      var n := |chunks| - 1;
      FitsFront(limit, chunks);
      FedIsWhole(read, limit, chunks[..n]);
      var before := Concat(chunks[..n]);
      SplitAppend(before, chunks[n]);
      AfterLinesAppend(read, NO_USAGE, SplitLines(before).lines,
                       SplitLines(SplitLines(before).rest + chunks[n]).lines);
    }
  }

  /** No call of `feed` finds more than `limit` bytes in the buffer. */
  predicate NeverOverflows(read: Reader, limit: nat, chunks: seq<Bytes>) {
    chunks == [] ||
    (var n := |chunks| - 1;
     && NeverOverflows(read, limit, chunks[..n])
     && |FedAll(read, limit, INITIAL, chunks[..n]).buffer| + |chunks[n]| <= limit)
  }

  /** The condition on the cutting is exactly that the buffer never exceeds its limit. */
  lemma {:induction false} FitsIsNoOverflow(read: Reader, limit: nat, chunks: seq<Bytes>)
    ensures Fits(limit, chunks) <==> NeverOverflows(read, limit, chunks)
  {
    if chunks != [] {
      var n := |chunks| - 1;
      FitsFront(limit, chunks);
      FitsIsNoOverflow(read, limit, chunks[..n]);
      if Fits(limit, chunks[..n]) {
        FedIsWhole(read, limit, chunks[..n]);
      }
    }
  }

  /** How a stream is cut into chunks makes no difference, as long as the buffer stays within its limit. */
  lemma ChunksDoNotMatter(read: Reader, limit: nat, a: seq<Bytes>, b: seq<Bytes>)
    requires Concat(a) == Concat(b) && Fits(limit, a) && Fits(limit, b)
    ensures FedAll(read, limit, INITIAL, a) == FedAll(read, limit, INITIAL, b)
  {
    FedIsWhole(read, limit, a);
    FedIsWhole(read, limit, b);
  }

  /** The lines of a stream, the unfinished one included. */
  function Pieces(s: Bytes): seq<Bytes> { SplitLines(s).lines + [SplitLines(s).rest] }

  ghost predicate HasLongPiece(s: Bytes, n: nat) { exists l :: l in Pieces(s) && |l| >= n }

  /** An unfinished line only grows. */
  lemma {:induction false} LineGrows(a: Bytes, b: Bytes)
    ensures HasLongPiece(a + b, |SplitLines(a).rest|)
  {
    var n := |SplitLines(a).rest|;
    if b == [] {
      assert a + b == a;
      assert Pieces(a)[|SplitLines(a).lines|] == SplitLines(a).rest;
    } else {
      var m := |b| - 1;
      LineGrows(a, b[..m]);
      PieceGrows(a + b[..m], b[m], n);
      assert a + b == a + b[..m] + [b[m]];
    }
  }

  lemma PieceGrows(s: Bytes, b: byte, n: nat)
    requires HasLongPiece(s, n)
    ensures HasLongPiece(s + [b], n)
  {
    var l :| l in Pieces(s) && |l| >= n;
    assert (s + [b])[..|s|] == s;
    var split, next := SplitLines(s), SplitLines(s + [b]);
    if l in split.lines {
      assert forall x :: x in split.lines ==> x in next.lines;
      assert l in Pieces(s + [b]);
    } else {
      assert l == split.rest;
      var grown := if b == NEWLINE then l else next.rest;
      assert b == NEWLINE ==> next.lines[|split.lines|] == l;
      assert Pieces(s + [b])[|next.lines|] == next.rest;
      assert grown in Pieces(s + [b]);
    }
  }

  /** A stream of any length fits when its longest line and its longest chunk do. */
  lemma ShortLinesFit(limit: nat, chunks: seq<Bytes>)
    requires forall l, c :: l in Pieces(Concat(chunks)) && c in chunks ==> |l| + |c| <= limit
    ensures Fits(limit, chunks)
  {
    forall n | 0 <= n < |chunks| ensures ChunkFits(limit, chunks, n) {
      ConcatSplit(chunks, n);
      LineGrows(Concat(chunks[..n]), Concat(chunks[n..]));
      var l :| l in Pieces(Concat(chunks)) && |l| >= |SplitLines(Concat(chunks[..n])).rest|;
      assert chunks[n] in chunks;
    }
  }

  lemma {:induction false} ConcatSplit(chunks: seq<Bytes>, n: nat)
    requires n <= |chunks|
    ensures Concat(chunks) == Concat(chunks[..n]) + Concat(chunks[n..])
  {
    if n == |chunks| {
      assert chunks[..n] == chunks && Concat(chunks) + [] == Concat(chunks);
    } else {
      var front := chunks[..|chunks| - 1];
      ConcatSplit(front, n);
      assert front[..n] == chunks[..n] && front[n..] == chunks[n..][..|chunks| - 1 - n];
    }
  }

  lemma {:induction false} RestIsShort(s: Bytes)
    ensures |SplitLines(s).rest| <= |s|
  {
    if s != [] {
      RestIsShort(s[..|s| - 1]);
    }
  }

  /** A stream no longer than the limit fits however it is cut. */
  lemma {:induction false} ShortStreamsFit(limit: nat, chunks: seq<Bytes>)
    requires |Concat(chunks)| <= limit
    ensures Fits(limit, chunks)
  {
    if chunks != [] {
      FitsFront(limit, chunks);
      ShortStreamsFit(limit, chunks[..|chunks| - 1]);
      RestIsShort(Concat(chunks[..|chunks| - 1]));
    }
  }

  /* ---------- What the limit costs ---------- */

  lemma RestNext(s: Bytes, b: byte)
    ensures SplitLines(s + [b]).rest == if b == NEWLINE then [] else SplitLines(s).rest + [b]
  {
    assert (s + [b])[..|s|] == s;
  }

  lemma LastNext(s: Bytes, b: byte, n: nat)
    ensures LastUpTo(s + [b], n + 1) == LastUpTo(s, n) + [b]
  {}

  /** Dropping bytes from the front shortens the unfinished line at most. */
  lemma {:induction false} RestOfSuffix(gone: Bytes, kept: Bytes)
    ensures SplitLines(kept).rest == LastUpTo(SplitLines(gone + kept).rest, |kept|)
    decreases |kept|, 0
  {
    if kept != [] {
      var n := |kept| - 1;
      RestOfSuffixStep(gone, kept[..n], kept[n]);
      assert kept == kept[..n] + [kept[n]];
    }
  }

  lemma RestOfSuffixStep(gone: Bytes, kept: Bytes, b: byte)
    ensures SplitLines(kept + [b]).rest == LastUpTo(SplitLines(gone + (kept + [b])).rest, |kept| + 1)
    decreases |kept|, 1
  {
    RestOfSuffix(gone, kept);
    RestNext(kept, b);
    RestNext(gone + kept, b);
    LastNext(SplitLines(gone + kept).rest, b, |kept|);
    assert gone + (kept + [b]) == gone + kept + [b];
  }

  /** The last `n` bytes, or all of them if there are fewer. */
  function LastUpTo(s: Bytes, n: nat): Bytes {
    if |s| > n then s[|s| - n..] else s
  }

  lemma DropConcat(s: Bytes, b: Bytes, k: nat)
    requires k <= |s|
    ensures (s + b)[k..] == s[k..] + b
  {}

  lemma DropTwice(s: Bytes, j: nat, k: nat)
    requires j + k <= |s|
    ensures s[j..][k..] == s[j + k..]
  {}

  lemma LastIsDrop(s: Bytes, n: nat)
    requires |s| >= n
    ensures LastUpTo(s, n) == s[|s| - n..]
  {
    if |s| == n {
      assert s[0..] == s;
    }
  }

  lemma LongTwice(s: Bytes, b: Bytes, n: nat, tail: Bytes)
    requires |s| > n && tail == s[|s| - n..]
    ensures LastUpTo(tail + b, n) == LastUpTo(s + b, n)
  {
    LastIsDrop(tail + b, n);
    LastIsDrop(s + b, n);
    DropConcat(s, b, |s| - n);
    DropTwice(s + b, |s| - n, |b|);
  }

  lemma LastTwice(s: Bytes, b: Bytes, n: nat)
    ensures LastUpTo(LastUpTo(s, n) + b, n) == LastUpTo(s + b, n)
  {
    if |s| > n {
      LongTwice(s, b, n, s[|s| - n..]);
    }
  }

  lemma RestOfLast(s: Bytes, limit: nat)
    ensures SplitLines(LastUpTo(s, limit)).rest == LastUpTo(SplitLines(s).rest, limit)
  {
    RestIsShort(s);
    if |s| > limit {
      RestOfSuffix(s[..|s| - limit], s[|s| - limit..]);
      assert s == s[..|s| - limit] + s[|s| - limit..];
    }
  }

  lemma RestAfterChunk(a: Bytes, chunk: Bytes, limit: nat)
    requires limit > 0
    ensures SplitLines(LastBytes(LastUpTo(SplitLines(a).rest, limit) + chunk, limit)).rest
         == LastUpTo(SplitLines(a + chunk).rest, limit)
  {
    var r := SplitLines(a).rest;
    LastTwice(r, chunk, limit);
    RestOfLast(r + chunk, limit);
    SplitAppend(a, chunk);
  }

  /** Even over the limit the buffer depends on the bytes alone: it is the end of the unfinished line. */
  lemma {:induction false} BufferIsLineEnd(read: Reader, limit: nat, chunks: seq<Bytes>)
    requires limit > 0
    ensures FedAll(read, limit, INITIAL, chunks).buffer == LastUpTo(SplitLines(Concat(chunks)).rest, limit)
  {
    if chunks != [] {
      var n := |chunks| - 1;
      BufferIsLineEnd(read, limit, chunks[..n]);
      RestAfterChunk(Concat(chunks[..n]), chunks[n], limit);
    }
  }

  predicate NoNewline(s: Bytes) { forall i :: 0 <= i < |s| ==> s[i] != NEWLINE }

  lemma SplitNext(s: Bytes, b: byte)
    requires b != NEWLINE
    ensures SplitLines(s + [b]) == Split(SplitLines(s).lines, SplitLines(s).rest + [b])
  {
    assert (s + [b])[..|s|] == s;
  }

  lemma {:induction false} SplitNoLine(s: Bytes)
    requires NoNewline(s)
    ensures SplitLines(s) == Split([], s)
  {
    if s != [] {
      var n := |s| - 1;
      SplitNoLine(s[..n]);
      assert s[..n] + [s[n]] == s;
    }
  }

  lemma {:induction false} SplitOneLine(s: Bytes, rest: Bytes)
    requires NoNewline(s) && NoNewline(rest)
    ensures SplitLines(s + [NEWLINE] + rest) == Split([s], rest)
  {
    var all := s + [NEWLINE] + rest;
    if rest == [] {
      SplitNoLine(s);
      assert all[..|all| - 1] == s;
    } else {
      var n := |rest| - 1;
      SplitOneLine(s, rest[..n]);
      SplitNext(s + [NEWLINE] + rest[..n], rest[n]);
      assert rest == rest[..n] + [rest[n]] && all == s + [NEWLINE] + rest[..n] + [rest[n]];
    }
  }

  lemma AfterOneLine(read: Reader, line: Bytes)
    ensures AfterLines(read, NO_USAGE, [line]) == read(line).GetOr(NO_USAGE)
  {
    assert AfterLines(read, NO_USAGE, []) == NO_USAGE;
  }

  lemma OneLineState(read: Reader, line: Bytes, rest: Bytes, limit: nat)
    requires NoNewline(line) && NoNewline(rest) && |line| + 1 + |rest| <= limit
    ensures Fed(read, limit, INITIAL, line + [NEWLINE] + rest) == State(rest, read(line).GetOr(NO_USAGE))
  {
    SplitOneLine(line, rest);
    assert INITIAL.buffer + (line + [NEWLINE] + rest) == line + [NEWLINE] + rest;
    AfterOneLine(read, line);
  }

  /** A new parser that is fed one line of a stream, in one piece and within the limit, ends with what the line
   * reports. */
  lemma NewParserReads(decode: Decoder, limit: nat, line: Bytes)
    requires NoNewline(line) && |line| + 1 <= limit
    ensures Fed(ReaderOf(decode), limit, INITIAL, line + [NEWLINE])
         == State([], UsageOfLine(decode, line).GetOr(NO_USAGE))
  {
    OneLineState(ReaderOf(decode), line, [], limit);
    assert line + [NEWLINE] + [] == line + [NEWLINE];
  }

  /** Over the limit the usage does depend on the cutting: one byte decides whether the line is read. */
  lemma OverflowLosesLine(read: Reader, line: Bytes, b: byte)
    requires NoNewline(line) && b != NEWLINE && line != [] && read(line).Some? && read(line[1..]).None?
    ensures Concat([line + [NEWLINE], [b]]) == Concat([line + [NEWLINE] + [b]])
    ensures FedAll(read, |line| + 1, INITIAL, [line + [NEWLINE], [b]]).usage == read(line).value
    ensures FedAll(read, |line| + 1, INITIAL, [line + [NEWLINE] + [b]]).usage == NO_USAGE
  {
    ConcatOfTwo(line + [NEWLINE], [b]);
    LateByteKeepsUsage(read, line, b);
    EarlyByteLosesUsage(read, line, b);
  }

  /**
   * For every decoder and every line that reports usage, and would not without its first byte: the usage is lost when
   * one more byte arrives with the line in a buffer that just holds the line.
   */
  lemma OverflowLosesUsage(decode: Decoder, line: Bytes, b: byte)
    requires NoNewline(line) && b != NEWLINE && line != []
    requires UsageOfLine(decode, line).Some? && UsageOfLine(decode, line[1..]).None?
    ensures Concat([line + [NEWLINE], [b]]) == Concat([line + [NEWLINE] + [b]])
    ensures FedAll(ReaderOf(decode), |line| + 1, INITIAL, [line + [NEWLINE], [b]]).usage
        == UsageOfLine(decode, line).value
    ensures FedAll(ReaderOf(decode), |line| + 1, INITIAL, [line + [NEWLINE] + [b]]).usage == NO_USAGE
  {
    OverflowLosesLine(ReaderOf(decode), line, b);
  }

  /** Every line that starts with `data:` is of no use without its first byte. */
  lemma CutLineReportsNothing(decode: Decoder, line: Bytes)
    requires DATA <= line
    ensures UsageOfLine(decode, line[1..]) == None
  {
    var cut := line[1..];
    assert cut[0] == line[1] == 97;
    StripKeepsStart(cut);
  }

  lemma {:induction false} StripKeepsStart(s: Bytes)
    requires s != [] && !IsByteSpace(s[0])
    ensures Strip(s) != [] && Strip(s)[0] == s[0]
  {
    StripRightKeepsStart(s);
  }

  lemma {:induction false} StripRightKeepsStart(s: Bytes)
    requires s != [] && !IsByteSpace(s[0])
    ensures StripRight(s) != [] && StripRight(s)[0] == s[0]
  {
    if IsByteSpace(s[|s| - 1]) {
      StripRightKeepsStart(s[..|s| - 1]);
    }
  }

  lemma LateByteKeepsUsage(read: Reader, line: Bytes, b: byte)
    requires NoNewline(line) && b != NEWLINE && line != [] && read(line).Some?
    ensures FedAll(read, |line| + 1, INITIAL, [line + [NEWLINE], [b]]).usage == read(line).value
  {
    FinishedLine(read, line, |line| + 1);
    UnfinishedTail(read, |line| + 1, line + [NEWLINE], [b], read(line).value);
  }

  lemma FinishedLine(read: Reader, line: Bytes, limit: nat)
    requires NoNewline(line) && |line| + 1 <= limit
    ensures FedAll(read, limit, INITIAL, [line + [NEWLINE]]) == State([], read(line).GetOr(NO_USAGE))
  {
    OneLineState(read, line, [], limit);
    assert line + [NEWLINE] + [] == line + [NEWLINE];
    FedOnce(read, limit, line + [NEWLINE]);
  }

  lemma UnfinishedTail(read: Reader, limit: nat, a: Bytes, b: Bytes, usage: Usage)
    requires FedAll(read, limit, INITIAL, [a]) == State([], usage) && NoNewline(b) && |b| <= limit
    ensures FedAll(read, limit, INITIAL, [a, b]) == State(b, usage)
  {
    NoLineFed(read, limit, State([], usage), b);
    assert [a, b][..1] == [a];
  }

  lemma NoLineFed(read: Reader, limit: nat, st: State, chunk: Bytes)
    requires st.buffer == [] && NoNewline(chunk) && |chunk| <= limit
    ensures Fed(read, limit, st, chunk) == State(chunk, st.usage)
  {
    assert [] + chunk == chunk;
    SplitNoLine(chunk);
  }

  /** One byte too many: the first byte of the line is gone. */
  lemma OverfullLine(read: Reader, first: byte, line: Bytes, rest: Bytes)
    requires NoNewline(line) && NoNewline(rest)
    ensures Fed(read, |line| + 1 + |rest|, INITIAL, [first] + (line + [NEWLINE] + rest)).usage
         == read(line).GetOr(NO_USAGE)
  {
    var kept := line + [NEWLINE] + rest;
    assert INITIAL.buffer + ([first] + kept) == [first] + kept && ([first] + kept)[1..] == kept;
    SplitOneLine(line, rest);
    AfterOneLine(read, line);
  }

  lemma EarlyByteLosesUsage(read: Reader, line: Bytes, b: byte)
    requires NoNewline(line) && b != NEWLINE && line != [] && read(line[1..]).None?
    ensures FedAll(read, |line| + 1, INITIAL, [line + [NEWLINE] + [b]]).usage == NO_USAGE
  {
    var chunk, first, rest := line + [NEWLINE] + [b], line[0], line[1..];
    FedOnce(read, |line| + 1, chunk);
    OverfullLine(read, first, rest, [b]);
    FirstByteApart(line, [b], chunk);
  }

  lemma FirstByteApart(line: Bytes, rest: Bytes, chunk: Bytes)
    requires line != [] && chunk == line + [NEWLINE] + rest
    ensures chunk == [line[0]] + (line[1..] + [NEWLINE] + rest)
  {}

  lemma ConcatOfTwo(a: Bytes, b: Bytes)
    ensures Concat([a, b]) == Concat([a + b])
  {
    assert [a, b][..1] == [a] && Concat([]) + a == a && Concat([]) + (a + b) == a + b;
  }

  lemma FedOnce(read: Reader, limit: nat, chunk: Bytes)
    ensures FedAll(read, limit, INITIAL, [chunk]) == Fed(read, limit, INITIAL, chunk)
  {
    assert FedAll(read, limit, INITIAL, []) == INITIAL;
  }
}
