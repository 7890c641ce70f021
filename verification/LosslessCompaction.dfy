/** The two reversible line codings of `lossless_compaction.py`, on the lines of a text, with their decoders. */
module LosslessCompaction {
  import opened Prelude
  import Decimal

  type Lines = seq<string>

  /* ---------- Repeated lines ---------- */

  const MARKER_HEAD: string := "... (repeated "
  const MARKER_TAIL: string := " times)"

  function Marker(n: nat): string { MARKER_HEAD + Decimal.Show(n) + MARKER_TAIL }

  /** The count of a marker line. */
  function ReadMarker(line: string): Option<nat> {
    var n := Decimal.ReadNumber(MARKER_HEAD, MARKER_TAIL, line);
    if n.Some? && line == Marker(n.value) then n else None
  }

  lemma MarkerIsRead(n: nat)
    ensures ReadMarker(Marker(n)) == Some(n)
  {
    Decimal.ReadNumberOfShow(MARKER_HEAD, MARKER_TAIL, n, "");
    assert Marker(n) == MARKER_HEAD + Decimal.Show(n) + MARKER_TAIL + "";
  }

  /** How many lines at the front equal `x`. */
  function Leading(lines: Lines, x: string): (n: nat)
    ensures n <= |lines| && (forall k :: 0 <= k < n ==> lines[k] == x)
    ensures n < |lines| ==> lines[n] != x
  {
    if lines != [] && lines[0] == x then 1 + Leading(lines[1..], x) else 0
  }

  function Collapsed(lines: Lines, maxRepeats: nat): Lines {
    if lines == [] then []
    else
      var run := Leading(lines, lines[0]);
      if run > maxRepeats then [Marker(run), lines[0]] + Collapsed(lines[run..], maxRepeats)
      else [lines[0]] + Collapsed(lines[1..], maxRepeats)
  }

  /** The same coding by positions, as the loops compute it. */
  function RunEnd(lines: Lines, i: nat, x: string): (end: nat)
    requires i <= |lines|
    ensures i <= end <= |lines|
    decreases |lines| - i
  {
    if i < |lines| && lines[i] == x then RunEnd(lines, i + 1, x) else i
  }

  function CollapsedFrom(lines: Lines, i: nat, maxRepeats: nat): Lines
    requires i <= |lines|
    decreases |lines| - i
  {
    if i == |lines| then []
    else
      var run := RunEnd(lines, i, lines[i]) - i;
      if run > maxRepeats then [Marker(run), lines[i]] + CollapsedFrom(lines, i + run, maxRepeats)
      else [lines[i]] + CollapsedFrom(lines, i + 1, maxRepeats)
  }

  lemma {:induction false} RunEndIsLeading(lines: Lines, i: nat, x: string)
    requires i <= |lines|
    ensures RunEnd(lines, i, x) == i + Leading(lines[i..], x)
    decreases |lines| - i
  {
    if i < |lines| {
      RunEndIsLeading(lines, i + 1, x);
      assert lines[i..][1..] == lines[i + 1..];
    }
  }

  lemma {:induction false} FromIsCollapsed(lines: Lines, i: nat, maxRepeats: nat)
    requires i <= |lines|
    ensures CollapsedFrom(lines, i, maxRepeats) == Collapsed(lines[i..], maxRepeats)
    decreases |lines| - i
  {
    if i < |lines| {
      RunEndIsLeading(lines, i, lines[i]);
      var run := RunEnd(lines, i, lines[i]) - i;
      if run > maxRepeats {
        FromIsCollapsed(lines, i + run, maxRepeats);
        assert lines[i..][run..] == lines[i + run..];
      } else {
        FromIsCollapsed(lines, i + 1, maxRepeats);
        assert lines[i..][1..] == lines[i + 1..];
      }
    }
  }

  /** `_collapse_runs` */
  method CollapseRuns(lines: Lines, maxRepeats: nat) returns (result: Lines)
    ensures result == Collapsed(lines, maxRepeats)
  {
    result := [];
    var i := 0;
    while i < |lines|
      invariant i <= |lines|
      invariant result + CollapsedFrom(lines, i, maxRepeats) == CollapsedFrom(lines, 0, maxRepeats)
    {
      var line, run := lines[i], 1;
      while i + run < |lines| && lines[i + run] == line
        invariant 1 <= run <= |lines| - i && RunEnd(lines, i + run, line) == RunEnd(lines, i, line)
        decreases |lines| - i - run
      {
        run := run + 1;
      }
      if run > maxRepeats {
        Reassociate(result, [Marker(run), line], CollapsedFrom(lines, i + run, maxRepeats));
        result := result + [Marker(run), line];
        i := i + run;
      } else {
        Reassociate(result, [line], CollapsedFrom(lines, i + 1, maxRepeats));
        result := result + [line];
        i := i + 1;
      }
    }
    assert result + [] == result && lines[0..] == lines;
    FromIsCollapsed(lines, 0, maxRepeats);
  }

  function Repeat(line: string, n: nat): Lines { seq(n, _ => line) }

  /** The count of a marker that the coder can have written. */
  function LiveMarker(line: string, maxRepeats: nat): Option<nat> {
    var n := ReadMarker(line);
    if n.Some? && n.value > maxRepeats then n else None
  }

  /** The decoder: such a marker stands for that many copies of the next line. */
  function Expanded(coded: Lines, maxRepeats: nat): Lines {
    if coded == [] then []
    else
      var n := LiveMarker(coded[0], maxRepeats);
      if n.Some? && |coded| > 1 then Repeat(coded[1], n.value) + Expanded(coded[2..], maxRepeats)
      else [coded[0]] + Expanded(coded[1..], maxRepeats)
  }

  predicate NoMarkers(lines: Lines) { forall i :: 0 <= i < |lines| ==> ReadMarker(lines[i]).None? }

  /** Every run of a live marker in the input is itself long enough to be collapsed, or is the last line alone. */
  predicate MarkersAreCollapsed(lines: Lines, maxRepeats: nat) {
    lines == [] ||
    (var run := Leading(lines, lines[0]);
     && (LiveMarker(lines[0], maxRepeats).None? || run > maxRepeats || |lines| == 1)
     && MarkersAreCollapsed(lines[run..], maxRepeats))
  }

  lemma {:induction false} MarkerIsExpanded(n: nat, x: string, rest: Lines, maxRepeats: nat)
    requires n > maxRepeats
    ensures Expanded([Marker(n), x] + rest, maxRepeats) == Repeat(x, n) + Expanded(rest, maxRepeats)
  {
    MarkerIsRead(n);
    assert ([Marker(n), x] + rest)[2..] == rest;
  }

  lemma LineIsExpanded(x: string, rest: Lines, maxRepeats: nat)
    requires LiveMarker(x, maxRepeats).None? || rest == []
    ensures Expanded([x] + rest, maxRepeats) == [x] + Expanded(rest, maxRepeats)
  {
    assert ([x] + rest)[1..] == rest;
  }

  lemma RunIsSplitOff(lines: Lines)
    requires lines != []
    ensures var run := Leading(lines, lines[0]); lines == Repeat(lines[0], run) + lines[run..]
  {}

  /** Expanding restores the lines exactly when every run of a live marker was collapsed, or is the last line alone. */
  lemma {:induction false} CollapseRoundTrip(lines: Lines, maxRepeats: nat)
    ensures Expanded(Collapsed(lines, maxRepeats), maxRepeats) == lines <==> MarkersAreCollapsed(lines, maxRepeats)
  {
    if lines != [] {
      var x, run := lines[0], Leading(lines, lines[0]);
      if run > maxRepeats {
        CollapseRoundTrip(lines[run..], maxRepeats);
        MarkerIsExpanded(run, x, Collapsed(lines[run..], maxRepeats), maxRepeats);
        RunIsSplitOff(lines);
        SameTails(Repeat(x, run), Expanded(Collapsed(lines[run..], maxRepeats), maxRepeats), lines[run..]);
      } else if LiveMarker(x, maxRepeats).None? || |lines| == 1 {
        CollapseRoundTrip(lines[1..], maxRepeats);
        LineIsExpanded(x, Collapsed(lines[1..], maxRepeats), maxRepeats);
        assert lines == [x] + lines[1..];
        SameTails([x], Expanded(Collapsed(lines[1..], maxRepeats), maxRepeats), lines[1..]);
        ShortRunIsSkipped(lines, maxRepeats);
      } else {
        LiveMarkerIsMisread(lines, maxRepeats);
      }
    }
  }

  lemma SameTails(a: Lines, b: Lines, c: Lines)
    ensures a + b == a + c <==> b == c
  {
    assert (a + b)[|a|..] == b && (a + c)[|a|..] == c;
  }

  lemma ShortRunIsSkipped(lines: Lines, maxRepeats: nat)
    requires lines != [] && (LiveMarker(lines[0], maxRepeats).None? || |lines| == 1)
    ensures MarkersAreCollapsed(lines, maxRepeats) <==> MarkersAreCollapsed(lines[1..], maxRepeats)
  {
    var x, run := lines[0], Leading(lines, lines[0]);
    assert run == 1 + Leading(lines[1..], x);
    if run > 1 {
      assert lines[1..][0] == x && lines[1..][run - 1..] == lines[run..];
    }
  }

  /** Read as a marker, the line would stand for more copies of a line than its own run has. */
  lemma LiveMarkerIsMisread(lines: Lines, maxRepeats: nat)
    requires |lines| > 1 && LiveMarker(lines[0], maxRepeats).Some? && Leading(lines, lines[0]) <= maxRepeats
    ensures Expanded(Collapsed(lines, maxRepeats), maxRepeats) != lines
  {
    var coded, n := Collapsed(lines, maxRepeats), LiveMarker(lines[0], maxRepeats).value;
    assert coded == [lines[0]] + Collapsed(lines[1..], maxRepeats);
    var tail := Expanded(coded[2..], maxRepeats);
    assert Expanded(coded, maxRepeats) == Repeat(coded[1], n) + tail;
    RepeatLeads(coded[1], n, tail);
  }

  lemma {:induction false} RepeatLeads(x: string, n: nat, tail: Lines)
    ensures Leading(Repeat(x, n) + tail, x) >= n
    ensures n > 0 ==> (Repeat(x, n) + tail)[0] == x
  {
    if n > 0 {
      RepeatLeads(x, n - 1, tail);
      assert (Repeat(x, n) + tail)[1..] == Repeat(x, n - 1) + tail;
    }
  }

  /** In particular when no line is a marker. */
  lemma {:induction false} NoMarkersIsEnough(lines: Lines, maxRepeats: nat)
    requires NoMarkers(lines)
    ensures MarkersAreCollapsed(lines, maxRepeats)
  {
    if lines != [] {
      NoMarkersIsEnough(lines[Leading(lines, lines[0])..], maxRepeats);
    }
  }

  /** Coding never lengthens the run at the front. */
  lemma {:induction false} LeadingShrinks(lines: Lines, maxRepeats: nat, x: string)
    requires ReadMarker(x).None?
    ensures Leading(Collapsed(lines, maxRepeats), x) <= Leading(lines, x)
  {
    if lines != [] {
      var run := Leading(lines, lines[0]);
      if run > maxRepeats {
        MarkerIsRead(run);
      } else {
        LeadingShrinks(lines[1..], maxRepeats, x);
        assert Collapsed(lines, maxRepeats)[1..] == Collapsed(lines[1..], maxRepeats);
      }
    }
  }

  /** The run that starts at `k` is not too long. */
  predicate IsShortAt(coded: Lines, k: nat, maxRepeats: nat)
    requires k < |coded|
  {
    Leading(coded[k..], coded[k]) <= maxRepeats
  }

  lemma ShortInRest(head: Lines, rest: Lines, k: nat, maxRepeats: nat)
    requires k < |rest| && IsShortAt(rest, k, maxRepeats)
    ensures IsShortAt(head + rest, |head| + k, maxRepeats)
  {
    assert (head + rest)[|head| + k..] == rest[k..];
  }

  lemma LineIsShort(x: string, lines: Lines, maxRepeats: nat)
    requires maxRepeats >= 1 && ReadMarker(x).None? && Leading(lines, x) < maxRepeats
    ensures IsShortAt([x] + Collapsed(lines, maxRepeats), 0, maxRepeats)
  {
    var coded := [x] + Collapsed(lines, maxRepeats);
    LeadingShrinks(lines, maxRepeats, x);
    assert coded[0..] == coded && coded[1..] == Collapsed(lines, maxRepeats);
  }

  lemma MarkerIsShort(n: nat, x: string, rest: Lines, maxRepeats: nat)
    requires maxRepeats >= 1 && ReadMarker(x).None?
    ensures IsShortAt([Marker(n)] + ([x] + rest), 0, maxRepeats)
  {
    MarkerIsRead(n);
    var coded := [Marker(n)] + ([x] + rest);
    assert coded[0..] == coded && coded[1..] == [x] + rest;
  }

  /** No run longer than `maxRepeats` is left, starting anywhere. */
  lemma {:induction false} NoLongRuns(lines: Lines, maxRepeats: nat, k: nat)
    requires NoMarkers(lines) && maxRepeats >= 1 && k < |Collapsed(lines, maxRepeats)|
    ensures IsShortAt(Collapsed(lines, maxRepeats), k, maxRepeats)
  {
    var x, run := lines[0], Leading(lines, lines[0]);
    if run > maxRepeats {
      var rest := Collapsed(lines[run..], maxRepeats);
      assert Collapsed(lines, maxRepeats) == [Marker(run)] + ([x] + rest) == [Marker(run), x] + rest;
      if k >= 2 {
        NoLongRuns(lines[run..], maxRepeats, k - 2);
        ShortInRest([Marker(run), x], rest, k - 2, maxRepeats);
      } else if k == 1 {
        LineIsShort(x, lines[run..], maxRepeats);
        ShortInRest([Marker(run)], [x] + rest, 0, maxRepeats);
      } else {
        MarkerIsShort(run, x, rest, maxRepeats);
      }
    } else if k >= 1 {
      NoLongRuns(lines[1..], maxRepeats, k - 1);
      ShortInRest([x], Collapsed(lines[1..], maxRepeats), k - 1, maxRepeats);
    } else {
      LineIsShort(x, lines[1..], maxRepeats);
    }
  }

  lemma {:induction false} LeadingOfRepeat(x: string, n: nat)
    ensures Leading(Repeat(x, n), x) == n
  {
    if n > 0 {
      LeadingOfRepeat(x, n - 1);
      assert Repeat(x, n)[1..] == Repeat(x, n - 1);
    }
  }

  /** Without that condition no decoder exists: a marker in the input is coded like the run it describes. */
  lemma MarkersCollide(x: string, n: nat, maxRepeats: nat)
    requires n > maxRepeats >= 1 && ReadMarker(x).None?
    ensures Collapsed(Repeat(x, n), maxRepeats) == Collapsed([Marker(n), x], maxRepeats)
    ensures Repeat(x, n) != [Marker(n), x]
  {
    MarkerIsRead(n);
    LeadingOfRepeat(x, n);
    assert Repeat(x, n)[0] == x && Repeat(x, n)[n..] == [];
    assert [Marker(n), x][1..] == [x] && [x][1..] == [];
    assert Leading([x], x) == 1 && Leading([Marker(n), x], Marker(n)) == 1;
    assert Collapsed([x], maxRepeats) == [x];
  }

  /* ---------- File headings ---------- */

  /** A search result `path:number:content`. */
  datatype Hit = Hit(path: string, number: string, content: string)

  function RenderHit(h: Hit): string { h.path + ":" + h.number + ":" + h.content }

  predicate IsPath(s: string) { s != [] && forall i :: 0 <= i < |s| ==> !IsSpace(s[i]) }

  /** The match of `^(\\S+):(\\d+):(.*)` whose path ends at `k`. */
  function HitAt(line: string, k: nat): (h: Option<Hit>)
    ensures h.Some? ==> RenderHit(h.value) == line && IsPath(h.value.path) && |h.value.path| == k
    ensures h.Some? ==> h.value.number != [] && Decimal.AllDigits(h.value.number)
  {
    if k < |line| && line[k] == ':' && IsPath(line[..k]) then
      var digits := Decimal.LeadingDigits(line[k + 1..]);
      var e := k + 1 + |digits|;
      if digits != [] && e < |line| && line[e] == ':' then
        assert line == line[..k] + ":" + digits + ":" + line[e + 1..];
        Some(Hit(line[..k], digits, line[e + 1..]))
      else None
    else None
  }

  /** The last of the first `k` options that is there. */
  function LastSome(hits: seq<Option<Hit>>, k: nat): (h: Option<Hit>)
    requires k <= |hits|
    ensures h.Some? ==> h in hits
  {
    if k == 0 then None else if hits[k - 1].Some? then hits[k - 1] else LastSome(hits, k - 1)
  }

  lemma {:induction false} LastSomeIsLast(hits: seq<Option<Hit>>, j: nat, k: nat) returns (m: nat)
    requires j < k <= |hits| && hits[j].Some?
    ensures j <= m < k && hits[m].Some? && LastSome(hits, k) == hits[m]
  {
    if hits[k - 1].Some? {
      m := k - 1;
    } else {
      m := LastSomeIsLast(hits, j, k - 1);
    }
  }

  /** The matches of a line, by the end of the path. */
  function HitsOf(line: string): (hits: seq<Option<Hit>>)
    ensures |hits| == |line|
  {
    seq(|line|, k requires 0 <= k < |line| => HitAt(line, k))
  }

  /** The regular expression is greedy: the longest path wins. */
  function ParseHit(line: string): (h: Option<Hit>)
    ensures h.Some? ==> RenderHit(h.value) == line && IsPath(h.value.path)
    ensures h.Some? ==> h.value.number != [] && Decimal.AllDigits(h.value.number)
  {
    LastSome(HitsOf(line), |line|)
  }

  lemma HitIsThere(path: string, number: string, content: string)
    requires IsPath(path) && number != [] && Decimal.AllDigits(number)
    ensures HitAt(path + ":" + number + ":" + content, |path|) == Some(Hit(path, number, content))
  {
    var line := path + ":" + number + ":" + content;
    assert line[|path| + 1..] == number + (":" + content) && line[..|path|] == path;
    Decimal.LeadingDigitsOfShow(number, ":" + content);
    assert line[|path| + 1 + |number| + 1..] == content;
  }

  /** Every way to read a line as path, number and content is found, or one with a longer path. */
  lemma LongestPathIsRead(path: string, number: string, content: string)
    requires IsPath(path) && number != [] && Decimal.AllDigits(number)
    ensures var h := ParseHit(path + ":" + number + ":" + content);
      h.Some? && |h.value.path| >= |path| && (|h.value.path| == |path| ==> h.value == Hit(path, number, content))
  {
    var line := path + ":" + number + ":" + content;
    HitIsThere(path, number, content);
    FoundHitIsLongest(line, HitsOf(line), Hit(path, number, content));
  }

  lemma FoundHitIsLongest(line: string, hits: seq<Option<Hit>>, h: Hit)
    requires hits == HitsOf(line) && |h.path| < |line| && HitAt(line, |h.path|) == Some(h)
    ensures var r := ParseHit(line);
      r.Some? && |r.value.path| >= |h.path| && (|r.value.path| == |h.path| ==> r.value == h)
  {
    var m := LastSomeIsLast(hits, |h.path|, |line|);
    assert hits[m] == HitAt(line, m);
  }

  function EntryLine(h: Hit): string { "  " + h.number + ": " + h.content }

  /** The number and content of an indented entry. */
  function ReadEntry(line: string): Option<(string, string)> {
    if "  " <= line then
      var digits := Decimal.LeadingDigits(line[2..]);
      if digits != [] && ": " <= line[2 + |digits|..] then Some((digits, line[4 + |digits|..])) else None
    else None
  }

  lemma EntryIsRead(h: Hit)
    requires h.number != [] && Decimal.AllDigits(h.number)
    ensures ReadEntry(EntryLine(h)) == Some((h.number, h.content))
  {
    var line := EntryLine(h);
    assert line[2..] == h.number + (": " + h.content);
    Decimal.LeadingDigitsOfShow(h.number, ": " + h.content);
    assert line[2 + |h.number|..] == ": " + h.content;
    assert line[4 + |h.number|..] == h.content;
  }

  predicate IsHitOf(line: string, path: string) { ParseHit(line).Some? && ParseHit(line).value.path == path }

  /** The entries of the leading hits in one file. */
  function GroupEntries(lines: Lines, path: string): Lines {
    if lines != [] && IsHitOf(lines[0], path) then
        [EntryLine(ParseHit(lines[0]).value)] + GroupEntries(lines[1..], path) else []
  }

  function AfterGroup(lines: Lines, path: string): (rest: Lines)
    ensures |rest| <= |lines|
    ensures lines != [] && IsHitOf(lines[0], path) ==> |rest| < |lines|
    ensures forall l :: l in rest ==> l in lines
  {
    if lines != [] && IsHitOf(lines[0], path) then AfterGroup(lines[1..], path) else lines
  }

  /** One heading for each maximal group of hits in the same file; other lines as they are. */
  function Headed(lines: Lines): Lines
    decreases |lines|
  {
    if lines == [] then []
    else
      match ParseHit(lines[0])
      case None => [lines[0]] + Headed(lines[1..])
      case Some(h) => [h.path] + GroupEntries(lines, h.path) + Headed(AfterGroup(lines, h.path))
  }

  /** What is still to come when the group `file`, with the entries collected so far, is open. */
  function Pending(file: Option<string>, entries: Lines, lines: Lines): Lines {
    match file
    case None => Headed(lines)
    case Some(path) => [path] + (entries + GroupEntries(lines, path)) + Headed(AfterGroup(lines, path))
  }

  /** `_compress_search_headings` */
  method CompressSearchHeadings(lines: Lines) returns (result: Lines)
    ensures result == Headed(lines)
  {
    result := [];
    var file: Option<string>, entries: Lines := None, [];
    for i := 0 to |lines|
      invariant result + Pending(file, entries, lines[i..]) == Headed(lines)
      invariant file.None? ==> entries == []
    {
      assert lines[i..][1..] == lines[i + 1..];
      var hit := ParseHit(lines[i]);
      if hit.Some? {
        if file != Some(hit.value.path) {
          PendingNewFile(result, file, entries, lines[i..], hit.value);
          result := result + Flushed(file, entries);
          file, entries := Some(hit.value.path), [EntryLine(hit.value)];
        } else {
          PendingSameFile(entries, lines[i..], hit.value);
          entries := entries + [EntryLine(hit.value)];
        }
      } else {
        PendingPlain(result, file, entries, lines[i..]);
        result := result + Flushed(file, entries) + [lines[i]];
        file, entries := None, [];
      }
    }
    PendingEnd(file, entries);
    assert lines[|lines|..] == [];
    result := result + Flushed(file, entries);
  }

  function Flushed(file: Option<string>, entries: Lines): Lines {
    match file
    case None => []
    case Some(path) => [path] + entries
  }

  lemma PendingNewFile(result: Lines, file: Option<string>, entries: Lines, lines: Lines, h: Hit)
    requires lines != [] && ParseHit(lines[0]) == Some(h) && file != Some(h.path)
    ensures result + Pending(file, entries, lines)
         == result + Flushed(file, entries) + Pending(Some(h.path), [EntryLine(h)], lines[1..])
  {
    assert Headed(lines) == Pending(Some(h.path), [EntryLine(h)], lines[1..]);
    if file.Some? {
      assert [file.value] + (entries + []) == Flushed(file, entries);
    }
    Reassociate(result, Flushed(file, entries), Headed(lines));
    assert result + [] == result;
  }

  lemma PendingSameFile(entries: Lines, lines: Lines, h: Hit)
    requires lines != [] && ParseHit(lines[0]) == Some(h)
    ensures Pending(Some(h.path), entries, lines) == Pending(Some(h.path), entries + [EntryLine(h)], lines[1..])
  {
    Reassociate(entries, [EntryLine(h)], GroupEntries(lines[1..], h.path));
  }

  lemma PendingPlain(result: Lines, file: Option<string>, entries: Lines, lines: Lines)
    requires lines != [] && ParseHit(lines[0]) == None
    ensures result + Pending(file, entries, lines)
         == result + Flushed(file, entries) + [lines[0]] + Pending(None, [], lines[1..])
  {
    if file.Some? {
      assert [file.value] + (entries + []) == Flushed(file, entries);
    }
    Reassociate(result, Flushed(file, entries), Headed(lines));
    Reassociate(result + Flushed(file, entries), [lines[0]], Headed(lines[1..]));
    assert result + [] == result;
  }

  lemma PendingEnd(file: Option<string>, entries: Lines)
    ensures Pending(file, entries, []) == Flushed(file, entries)
  {
    if file.Some? {
      assert [file.value] + (entries + []) + [] == Flushed(file, entries);
    }
  }

  /** The decoder: a line followed by an indented entry is a heading, and entries belong to the last heading. */
  function ExpandedHeadings(coded: Lines, heading: Option<string>): Lines {
    if coded == [] then []
    else if heading.Some? && ReadEntry(coded[0]).Some? then
      var (number, content) := ReadEntry(coded[0]).value;
      [RenderHit(Hit(heading.value, number, content))] + ExpandedHeadings(coded[1..], heading)
    else if |coded| > 1 && ReadEntry(coded[1]).Some? then ExpandedHeadings(coded[1..], Some(coded[0]))
    else [coded[0]] + ExpandedHeadings(coded[1..], None)
  }

  /** A plain line that looks like an indented entry. */
  predicate IsLookalike(line: string) { ParseHit(line).None? && ReadEntry(line).Some? }

  /** Only the first line may look like an entry without being a search result. */
  predicate NoLookalikeAfterFirst(lines: Lines) { forall i :: 1 <= i < |lines| ==> !IsLookalike(lines[i]) }

  lemma FirstIsEntry(lines: Lines)
    requires lines != []
    ensures Headed(lines) != [] && (ReadEntry(Headed(lines)[0]).Some? <==> IsLookalike(lines[0]))
  {
    if ParseHit(lines[0]).Some? {
      var path := ParseHit(lines[0]).value.path;
      assert !IsSpace(path[0]);
    }
  }

  /** The lines of the leading hits in one file. */
  function GroupLines(lines: Lines, path: string): (group: Lines)
    ensures lines == group + AfterGroup(lines, path)
  {
    if lines != [] && IsHitOf(lines[0], path) then [lines[0]] + GroupLines(lines[1..], path) else []
  }

  /** The entries of an open group are decoded to its lines. */
  lemma {:induction false} GroupRoundTrip(lines: Lines, path: string, tail: Lines)
    ensures ExpandedHeadings(GroupEntries(lines, path) + tail, Some(path))
         == GroupLines(lines, path) + ExpandedHeadings(tail, Some(path))
  {
    if lines != [] && IsHitOf(lines[0], path) {
      var h := ParseHit(lines[0]).value;
      Reassociate([EntryLine(h)], GroupEntries(lines[1..], path), tail);
      EntryIsDecoded(h, GroupEntries(lines[1..], path) + tail);
      GroupRoundTrip(lines[1..], path, tail);
      Reassociate([lines[0]], GroupLines(lines[1..], path), ExpandedHeadings(tail, Some(path)));
    } else {
      assert GroupEntries(lines, path) + tail == tail;
    }
  }

  lemma EntryIsDecoded(h: Hit, coded: Lines)
    requires h.number != [] && Decimal.AllDigits(h.number)
    ensures ExpandedHeadings([EntryLine(h)] + coded, Some(h.path))
        == [RenderHit(h)] + ExpandedHeadings(coded, Some(h.path))
  {
    EntryIsRead(h);
    assert ([EntryLine(h)] + coded)[1..] == coded;
  }

  /** Expanding the headings restores every line exactly when no plain line but the first looks like an entry. */
  lemma {:induction false} HeadingsRoundTrip(lines: Lines)
    ensures ExpandedHeadings(Headed(lines), None) == lines <==> NoLookalikeAfterFirst(lines)
    decreases |lines|
  {
    if lines != [] {
      var hit := ParseHit(lines[0]);
      if hit.None? {
        HeadingsRoundTrip(lines[1..]);
        PlainRoundTrip(lines);
      } else {
        HeadingsRoundTrip(AfterGroup(lines, hit.value.path));
        HeadingRoundTrip(lines, hit.value);
      }
    }
  }

  /** A heading does not matter to a line that is no entry. */
  lemma HeadingIsDropped(coded: Lines, path: string)
    requires coded != [] ==> ReadEntry(coded[0]).None?
    ensures ExpandedHeadings(coded, Some(path)) == ExpandedHeadings(coded, None)
  {}

  /** An entry under a heading is decoded to a search result. */
  lemma EntryIsTaken(coded: Lines, path: string)
    requires coded != [] && ReadEntry(coded[0]).Some?
    ensures ExpandedHeadings(coded, Some(path)) != [] && path + ":" <= ExpandedHeadings(coded, Some(path))[0]
  {}

  lemma PlainRoundTrip(lines: Lines)
    requires lines != [] && ParseHit(lines[0]).None?
    requires ExpandedHeadings(Headed(lines[1..]), None) == lines[1..] <==> NoLookalikeAfterFirst(lines[1..])
    ensures ExpandedHeadings(Headed(lines), None) == lines <==> NoLookalikeAfterFirst(lines)
  {
    var x, rest := lines[0], lines[1..];
    var coded := Headed(rest);
    assert Headed(lines) == [x] + coded && ([x] + coded)[1..] == coded && lines == [x] + rest;
    if rest != [] {
      FirstIsEntry(rest);
      assert lines[1] == rest[0];
      if IsLookalike(rest[0]) {
        EntryIsTaken(coded, x);
      } else {
        SameTails([x], ExpandedHeadings(coded, None), rest);
        LookalikesShift(lines);
      }
    }
  }

  lemma LookalikesShift(lines: Lines)
    requires |lines| > 1 && !IsLookalike(lines[1])
    ensures NoLookalikeAfterFirst(lines) <==> NoLookalikeAfterFirst(lines[1..])
  {
    assert forall i :: 1 <= i < |lines[1..]| ==> lines[1..][i] == lines[i + 1];
    assert forall i :: 2 <= i < |lines| ==> lines[i] == lines[1..][i - 1];
  }

  lemma {:induction false} GroupHasNoLookalike(lines: Lines, path: string)
    ensures forall l :: l in GroupLines(lines, path) ==> !IsLookalike(l)
  {
    if lines != [] && IsHitOf(lines[0], path) {
      GroupHasNoLookalike(lines[1..], path);
    }
  }

  lemma HeadingRoundTrip(lines: Lines, h: Hit)
    requires lines != [] && ParseHit(lines[0]) == Some(h)
    requires var after := AfterGroup(lines, h.path);
      ExpandedHeadings(Headed(after), None) == after <==> NoLookalikeAfterFirst(after)
    ensures ExpandedHeadings(Headed(lines), None) == lines <==> NoLookalikeAfterFirst(lines)
  {
    var group, after := GroupLines(lines, h.path), AfterGroup(lines, h.path);
    HeadedGroupIsDecoded(lines, h);
    SameTails(group, ExpandedHeadings(Headed(after), Some(h.path)), after);
    GroupHasNoLookalike(lines, h.path);
    LookalikesAfterGroup(lines, group, after);
    if after != [] {
      FirstIsEntry(after);
      if IsLookalike(after[0]) {
        EntryIsTaken(Headed(after), h.path);
        PathIsNoLookalike(h.path, after[0]);
      } else {
        HeadingIsDropped(Headed(after), h.path);
      }
    }
  }

  lemma HeadedGroupIsDecoded(lines: Lines, h: Hit)
    requires lines != [] && ParseHit(lines[0]) == Some(h)
    ensures ExpandedHeadings(Headed(lines), None)
         == GroupLines(lines, h.path) + ExpandedHeadings(Headed(AfterGroup(lines, h.path)), Some(h.path))
    ensures GroupLines(lines, h.path) != []
  {
    var group, tail := GroupEntries(lines, h.path), Headed(AfterGroup(lines, h.path));
    GroupRoundTrip(lines, h.path, tail);
    Reassociate([h.path], group, tail);
    EntryIsRead(h);
    HeadingIsOpened(h.path, group + tail);
  }

  lemma LookalikesAfterGroup(lines: Lines, group: Lines, after: Lines)
    requires group != [] && lines == group + after && forall l :: l in group ==> !IsLookalike(l)
    ensures NoLookalikeAfterFirst(lines) <==> NoLookalikeAfterFirst(after) && (after != [] ==> !IsLookalike(after[0]))
  {
    assert forall i :: 0 <= i < |after| ==> lines[|group| + i] == after[i];
    assert forall i :: 0 <= i < |group| ==> lines[i] in group;
    assert forall i :: |group| <= i < |lines| ==> lines[i] == after[i - |group|];
  }

  /** What starts with a path does not start with the indentation of an entry. */
  lemma PathIsNoLookalike(path: string, line: string)
    requires IsPath(path) && IsLookalike(line)
    ensures !(path + ":" <= line)
  {
    assert !IsSpace(path[0]) && IsSpace("  "[0]);
    assert line[0] == "  "[0];
    OtherStart(path + ":", line);
  }

  lemma OtherStart(a: string, b: string)
    requires a != [] && b != [] && a[0] != b[0]
    ensures !(a <= b)
  {
  }

  lemma HeadingIsOpened(path: string, coded: Lines)
    requires coded != [] && ReadEntry(coded[0]).Some?
    ensures ExpandedHeadings([path] + coded, None) == ExpandedHeadings(coded, Some(path))
  {
    assert ([path] + coded)[1..] == coded;
  }

  lemma RenderedStart(h: Hit)
    requires IsPath(h.path)
    ensures !IsSpace(RenderHit(h)[0])
  {
    assert RenderHit(h)[0] == h.path[0];
  }

  lemma EntryIsNoHit(h: Hit)
    ensures ParseHit(EntryLine(h)) == None
  {
    var line := EntryLine(h);
    assert IsSpace(line[0]);
    if ParseHit(line).Some? {
      RenderedStart(ParseHit(line).value);
    }
  }

  lemma OneMoreHit(line: string, rest: Lines, path: string, h: Hit)
    requires ParseHit(line) == Some(h) && h.path == path
    ensures GroupEntries([line] + rest, path) == [EntryLine(h)] + GroupEntries(rest, path)
    ensures AfterGroup([line] + rest, path) == AfterGroup(rest, path)
  {
    assert ([line] + rest)[0] == line && ([line] + rest)[1..] == rest;
  }

  lemma FirstGroup(line: string, rest: Lines, h: Hit)
    requires ParseHit(line) == Some(h)
    ensures Headed([line] + rest)
         == [h.path] + ([EntryLine(h)] + GroupEntries(rest, h.path)) + Headed(AfterGroup(rest, h.path))
  {
    OneMoreHit(line, rest, h.path, h);
    assert ([line] + rest)[0] == line;
  }

  lemma HeadedHits(a: string, b: string, h: Hit, g: Hit)
    requires ParseHit(a) == Some(h) && ParseHit(b) == Some(g) && h.path == g.path
    ensures Headed([a] + [b]) == [h.path] + ([EntryLine(h)] + ([EntryLine(g)] + [])) + []
  {
    FirstGroup(a, [b], h);
    OneMoreHit(b, [], h.path, g);
    assert [b] + [] == [b];
    assert GroupEntries([], h.path) == [] && AfterGroup([], h.path) == [] && Headed([]) == [];
  }

  lemma HeadedHitAndPlain(a: string, plain: string, h: Hit)
    requires ParseHit(a) == Some(h) && ParseHit(plain) == None
    ensures Headed([a] + [plain]) == [h.path] + ([EntryLine(h)] + []) + [plain]
  {
    FirstGroup(a, [plain], h);
    assert GroupEntries([plain], h.path) == [] && AfterGroup([plain], h.path) == [plain];
    assert [plain][1..] == [] && Headed([plain]) == [plain];
  }

  /** Without that condition no decoder exists: an indented entry in the input is coded like the hit it describes. */
  lemma HeadingsCollide(a: string, b: string)
    requires ParseHit(a).Some? && ParseHit(b).Some? && ParseHit(a).value.path == ParseHit(b).value.path
    ensures Headed([a, b]) == Headed([a, EntryLine(ParseHit(b).value)])
    ensures [a, b] != [a, EntryLine(ParseHit(b).value)]
  {
    var h, g := ParseHit(a).value, ParseHit(b).value;
    EntryIsNoHit(g);
    HeadedHits(a, b, h, g);
    HeadedHitAndPlain(a, EntryLine(g), h);
    assert [a] + [b] == [a, b] && [a] + [EntryLine(g)] == [a, EntryLine(g)];
    assert [a, b][1] == b && [a, EntryLine(g)][1] == EntryLine(g);
  }
}
