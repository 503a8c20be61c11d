/**
 * The diff service: parses unified-diff text into chunks of classified,
 * numbered lines, renders that structure as fixed-width rows, wraps the
 * result in a fenced markdown block, and checks file paths for safety.
 */
module DiffService {
  import opened Wrappers
  import opened JsText

  // ---------------------------------------------------------------------
  // Data model
  // ---------------------------------------------------------------------

  /** A line's `type`: `'context'`, `'added'` or `'removed'`. */
  datatype LineType = Context | Added | Removed

  /** One recorded diff line: its type, its raw text (marker included) and
      its old/new line numbers (`null` when absent). */
  datatype DiffLine = DiffLine(kind: LineType, content: string, oldLineNum: Option<int>, newLineNum: Option<int>)

  /** One hunk: the header line verbatim and the lines recorded under it. */
  datatype Chunk = Chunk(header: string, lines: seq<DiffLine>)

  datatype ParsedDiff = ParsedDiff(chunks: seq<Chunk>)

  // ---------------------------------------------------------------------
  // The hunk-header pattern /@@ -(\d+)(?:,\d+)? \+(\d+)(?:,\d+)? @@/
  // ---------------------------------------------------------------------

  /** The pieces of one textual instance of the pattern: the two captured
      start numbers and the two optional counts, as digit texts. */
  datatype HunkFields = HunkFields(oldStart: string, oldCount: Option<string>, newStart: string, newCount: Option<string>)

  predicate WellFormedFields(h: HunkFields)
  {
    && IsDigits(h.oldStart) && (h.oldCount.Some? ==> IsDigits(h.oldCount.value))
    && IsDigits(h.newStart) && (h.newCount.Some? ==> IsDigits(h.newCount.value))
  }

  function CountText(count: Option<string>): string
  {
    match count
    case None => ""
    case Some(d) => "," + d
  }

  /** The text the pattern matches for the given pieces. */
  function HunkText(h: HunkFields): string
  {
    "@@ -" + (h.oldStart + (CountText(h.oldCount) + (" +" + (h.newStart + (CountText(h.newCount) + " @@")))))
  }

  /** Length of the longest run of digits at the front of `t` (what a greedy `\d+` takes). */
  function DigitRun(t: string): (n: nat)
    ensures n <= |t|
    decreases |t|
  {
    if |t| > 0 && IsDigit(t[0]) then 1 + DigitRun(t[1..]) else 0
  }

  lemma {:induction false} DigitRunFacts(t: string)
    ensures forall i :: 0 <= i < DigitRun(t) ==> IsDigit(t[i])
    ensures DigitRun(t) < |t| ==> !IsDigit(t[DigitRun(t)])
    decreases |t|
  {
    if |t| > 0 && IsDigit(t[0]) {
      DigitRunFacts(t[1..]);
    }
  }

  lemma SplitAt(t: string, n: nat)
    requires n <= |t|
    ensures t == t[..n] + t[n..]
  {
  }

  lemma PrefixExtend(a: string, x: string, y: string)
    requires x <= y
    ensures a + x <= a + y
  {
    assert forall i :: |a| <= i < |a + x| ==> (a + x)[i] == x[i - |a|] && (a + y)[i] == y[i - |a|];
  }

  lemma PrefixSplit(p: string, t: string)
    requires p <= t
    ensures t == p + t[|p|..]
  {
    assert t[..|p|] == p;
    SplitAt(t, |p|);
  }

  lemma Assoc(a: string, b: string, c: string)
    ensures (a + b) + c == a + (b + c)
  {
  }

  /** `\d+(?:,\d+)?` at the front of `t`: the digits, the optional count and what follows. */
  function NumberPart(t: string): Option<(string, Option<string>, string)>
  {
    var n := DigitRun(t);
    if n == 0 then None
    else
      var after := t[n..];
      if |after| > 0 && after[0] == ',' && DigitRun(after[1..]) > 0 then
        var m := DigitRun(after[1..]);
        Some((t[..n], Some(after[1..1 + m]), after[1 + m..]))
      else
        Some((t[..n], None, after))
  }

  lemma NumberPartSound(t: string)
    ensures var r := NumberPart(t);
            r.Some? ==> && IsDigits(r.value.0) && (r.value.1.Some? ==> IsDigits(r.value.1.value))
                        && t == r.value.0 + (CountText(r.value.1) + r.value.2)
  {
    var n := DigitRun(t);
    if n > 0 {
      DigitsPrefix(t);
      var after := t[n..];
      if |after| > 0 && after[0] == ',' && DigitRun(after[1..]) > 0 {
        CountSound(after);
      }
    }
  }

  /** The greedy digit run is a digit text, and the rest follows it. */
  lemma DigitsPrefix(t: string)
    requires DigitRun(t) > 0
    ensures IsDigits(t[..DigitRun(t)]) && t == t[..DigitRun(t)] + t[DigitRun(t)..]
  {
    var n := DigitRun(t);
    DigitRunFacts(t);
    assert forall i :: 0 <= i < n ==> t[..n][i] == t[i];
    SplitAt(t, n);
  }

  /** The optional `,\d+` group: a comma and at least one digit. */
  lemma CountSound(after: string)
    requires |after| > 0 && after[0] == ',' && DigitRun(after[1..]) > 0
    ensures var m := DigitRun(after[1..]);
            IsDigits(after[1..1 + m]) && after == CountText(Some(after[1..1 + m])) + after[1 + m..]
  {
    var m := DigitRun(after[1..]);
    DigitRunFacts(after[1..]);
    assert forall i :: 0 <= i < m ==> after[1..1 + m][i] == after[1..][i];
    assert after == [','] + after[1..];
    SplitAt(after[1..], m);
    Assoc(",", after[1..][..m], after[1..][m..]);
    assert after[1..][..m] == after[1..1 + m] && after[1..][m..] == after[1 + m..];
  }

  /** The pattern tried at the front of `t`, as the regular-expression
      engine does: the digit runs are greedy and, since the character after
      each must be `,` or a blank, giving digits back never helps. */
  function MatchAt(t: string): Option<HunkFields>
  {
    if !("@@ -" <= t) then None
    else
      match NumberPart(t[4..])
      case None => None
      case Some((d1, c1, r1)) =>
        if !(" +" <= r1) then None
        else
          match NumberPart(r1[2..])
          case None => None
          case Some((d2, c2, r2)) =>
            if !(" @@" <= r2) then None
            else Some(HunkFields(d1, c1, d2, c2))
  }

  lemma MatchSoundParts(t: string, d1: string, c1: Option<string>, r1: string, d2: string, c2: Option<string>, r2: string)
    requires "@@ -" <= t && t[4..] == d1 + (CountText(c1) + r1)
    requires " +" <= r1 && r1[2..] == d2 + (CountText(c2) + r2)
    requires " @@" <= r2
    ensures HunkText(HunkFields(d1, c1, d2, c2)) <= t
  {
    PrefixExtend(CountText(c2), " @@", r2);
    PrefixExtend(d2, CountText(c2) + " @@", CountText(c2) + r2);
    PrefixSplit(" +", r1);
    PrefixExtend(" +", d2 + (CountText(c2) + " @@"), r1[2..]);
    PrefixExtend(CountText(c1), " +" + (d2 + (CountText(c2) + " @@")), r1);
    PrefixExtend(d1, CountText(c1) + (" +" + (d2 + (CountText(c2) + " @@"))), CountText(c1) + r1);
    PrefixSplit("@@ -", t);
    PrefixExtend("@@ -", d1 + (CountText(c1) + (" +" + (d2 + (CountText(c2) + " @@")))), t[4..]);
  }

  /** What the matcher returns is a genuine instance of the pattern at the front of `t`. */
  lemma MatchAtSound(t: string)
    ensures MatchAt(t).Some? ==> WellFormedFields(MatchAt(t).value) && HunkText(MatchAt(t).value) <= t
  {
    if MatchAt(t).Some? {
      var p1 := NumberPart(t[4..]).value;
      var r1 := p1.2;
      var p2 := NumberPart(r1[2..]).value;
      assert MatchAt(t).value == HunkFields(p1.0, p1.1, p2.0, p2.1);
      NumberPartSound(t[4..]);
      NumberPartSound(r1[2..]);
      MatchSoundParts(t, p1.0, p1.1, r1, p2.0, p2.1, p2.2);
    }
  }

  lemma {:induction false} DigitRunOf(d: string, rest: string)
    requires forall i :: 0 <= i < |d| ==> IsDigit(d[i])
    requires rest != [] ==> !IsDigit(rest[0])
    ensures DigitRun(d + rest) == |d|
    decreases |d|
  {
    var t := d + rest;
    if |d| > 0 {
      assert t[0] == d[0];
      assert t[1..] == d[1..] + rest;
      DigitRunOf(d[1..], rest);
    } else {
      assert t == rest;
    }
  }

  lemma NumberPartOf(d: string, count: Option<string>, rest: string)
    requires IsDigits(d) && (count.Some? ==> IsDigits(count.value))
    requires |rest| > 0 && rest[0] == ' '
    ensures NumberPart(d + (CountText(count) + rest)) == Some((d, count, rest))
  {
    var after := CountText(count) + rest;
    var t := d + after;
    assert after[0] == ',' || after[0] == ' ';
    DigitRunOf(d, after);
    assert t[..|d|] == d && t[|d|..] == after;
    match count
    case None =>
      assert after == rest;
    case Some(c) =>
      Assoc(",", c, rest);
      assert after == [','] + (c + rest);
      assert after[1..] == c + rest;
      DigitRunOf(c, rest);
      assert after[1..1 + |c|] == c;
      assert after[1 + |c|..] == rest;
  }

  /** A text that starts with an instance of the pattern, spelled piece by piece. */
  lemma HunkTextThen(h: HunkFields, t: string)
    requires HunkText(h) <= t
    ensures var tail := t[|HunkText(h)|..];
            t == "@@ -" + (h.oldStart + (CountText(h.oldCount) + (" +" + (h.newStart + (CountText(h.newCount) + (" @@" + tail))))))
  {
    var tail := t[|HunkText(h)|..];
    PrefixSplit(HunkText(h), t);
    var x5 := CountText(h.newCount) + " @@";
    var x4 := h.newStart + x5;
    var x3 := " +" + x4;
    var x2 := CountText(h.oldCount) + x3;
    var x1 := h.oldStart + x2;
    Assoc(CountText(h.newCount), " @@", tail);
    Assoc(h.newStart, x5, tail);
    Assoc(" +", x4, tail);
    Assoc(CountText(h.oldCount), x3, tail);
    Assoc(h.oldStart, x2, tail);
    Assoc("@@ -", x1, tail);
  }

  lemma MatchAtOfParts(h: HunkFields, tail: string)
    requires WellFormedFields(h)
    ensures MatchAt("@@ -" + (h.oldStart + (CountText(h.oldCount) + (" +" + (h.newStart + (CountText(h.newCount) + (" @@" + tail))))))) == Some(h)
  {
    var r2 := " @@" + tail;
    var r1 := " +" + (h.newStart + (CountText(h.newCount) + r2));
    var t := "@@ -" + (h.oldStart + (CountText(h.oldCount) + r1));
    assert "@@ -" <= t;
    assert t[4..] == h.oldStart + (CountText(h.oldCount) + r1);
    NumberPartOf(h.oldStart, h.oldCount, r1);
    assert " +" <= r1;
    assert r1[2..] == h.newStart + (CountText(h.newCount) + r2);
    NumberPartOf(h.newStart, h.newCount, r2);
    assert " @@" <= r2;
  }

  /** The matcher finds every textual instance of the pattern, with exactly its pieces. */
  lemma MatchAtComplete(h: HunkFields, t: string)
    requires WellFormedFields(h) && HunkText(h) <= t
    ensures MatchAt(t) == Some(h)
  {
    HunkTextThen(h, t);
    MatchAtOfParts(h, t[|HunkText(h)|..]);
  }

  /** A match of the pattern inside a line: where it starts and its pieces. */
  datatype HeaderMatch = HeaderMatch(index: nat, fields: HunkFields)

  /** The leftmost match at or after index `p`, as the unanchored `match` finds it. */
  function MatchFrom(line: string, p: nat): (r: Option<HeaderMatch>)
    requires p <= |line|
    ensures r.Some? ==> p <= r.value.index <= |line|
    decreases |line| - p
  {
    match MatchAt(line[p..])
    case Some(h) => Some(HeaderMatch(p, h))
    case None => if p == |line| then None else MatchFrom(line, p + 1)
  }

  /** A match found is the pattern at its index, and no index before it matches. */
  lemma {:induction false} MatchFromFound(line: string, p: nat)
    requires p <= |line|
    ensures var r := MatchFrom(line, p);
            r.Some? ==> && MatchAt(line[r.value.index..]) == Some(r.value.fields)
                        && forall q {:trigger MatchAt(line[q..])} :: p <= q < r.value.index ==> MatchAt(line[q..]).None?
    decreases |line| - p
  {
    var here := MatchAt(line[p..]);
    if here.None? && p < |line| {
      assert MatchFrom(line, p) == MatchFrom(line, p + 1);
      MatchFromFound(line, p + 1);
      var r := MatchFrom(line, p + 1);
      if r.Some? {
        forall q | p <= q < r.value.index
          ensures MatchAt(line[q..]).None?
        {
          if q == p {
            assert MatchAt(line[q..]) == here;
          }
        }
      }
    }
  }

  /** Wherever the pattern matches at or after `p`, a match is found at or before it. */
  lemma {:induction false} MatchFromLeftmost(line: string, p: nat, q: nat)
    requires p <= q <= |line| && MatchAt(line[q..]).Some?
    ensures MatchFrom(line, p).Some? && MatchFrom(line, p).value.index <= q
    decreases q - p
  {
    var here := MatchAt(line[p..]);
    if here.None? {
      assert p != q;
      assert MatchFrom(line, p) == MatchFrom(line, p + 1);
      MatchFromLeftmost(line, p + 1, q);
    }
  }

  function MatchHeader(line: string): Option<HeaderMatch>
  {
    MatchFrom(line, 0)
  }

  /** `line.match(...)`: the match it reports is the pattern at that index,
      with the pieces the pattern spells there, and it is the leftmost one. */
  lemma MatchHeaderSound(line: string)
    ensures var r := MatchHeader(line);
            r.Some? ==> && WellFormedFields(r.value.fields) && HunkText(r.value.fields) <= line[r.value.index..]
                        && forall q {:trigger MatchAt(line[q..])} :: 0 <= q < r.value.index ==> MatchAt(line[q..]).None?
  {
    MatchFromFound(line, 0);
    if MatchHeader(line).Some? {
      MatchAtSound(line[MatchHeader(line).value.index..]);
    }
  }

  /** Every textual instance of the pattern in a line is found, at or before where it sits. */
  lemma MatchHeaderFinds(line: string, q: nat, h: HunkFields)
    requires q <= |line| && WellFormedFields(h) && HunkText(h) <= line[q..]
    ensures MatchHeader(line).Some? && MatchHeader(line).value.index <= q
  {
    MatchAtComplete(h, line[q..]);
    MatchFromLeftmost(line, 0, q);
  }

  /** A line that starts with a header gives exactly that header's start numbers. */
  lemma HeaderStartsOfLeadingHeader(h: HunkFields, rest: string)
    requires WellFormedFields(h)
    ensures HeaderStarts(HunkText(h) + rest) == Some((DigitsValue(h.oldStart), DigitsValue(h.newStart)))
  {
    var line := HunkText(h) + rest;
    assert line[0..] == line;
    MatchAtComplete(h, line);
    assert MatchHeader(line) == Some(HeaderMatch(0, h));
    assert line[..2] == "@@";
  }

  /** `parseInt` of the two captured start numbers, for a line that starts
      with `@@` and in which the pattern matches. */
  function HeaderStarts(line: string): Option<(int, int)>
  {
    if !StartsWith(line, "@@") then None
    else
      match MatchHeader(line)
      case None => None
      case Some(m) =>
        MatchHeaderSound(line);
        Some((DigitsValue(m.fields.oldStart), DigitsValue(m.fields.newStart)))
  }

  /** A line that opens a chunk. */
  predicate IsHunkHeader(line: string)
  {
    HeaderStarts(line).Some?
  }

  // ---------------------------------------------------------------------
  // parseDiff
  // ---------------------------------------------------------------------

  /** Classification by first character. */
  function Classify(line: string): LineType
  {
    if StartsWith(line, "+") then Added
    else if StartsWith(line, "-") then Removed
    else Context
  }

  /** The state of the scan: the chunks so far (the last is the open chunk
      once there is one) and the two line counters. */
  datatype ParseState = ParseState(chunks: seq<Chunk>, oldLineNum: int, newLineNum: int)

  /** What the loop body does with one line. */
  function Step(st: ParseState, line: string): ParseState
  {
    if StartsWith(line, "@@") then
      match HeaderStarts(line)
      case None => st
      case Some(starts) => ParseState(st.chunks + [Chunk(line, [])], starts.0, starts.1)
    else if |st.chunks| > 0 && !StartsWith(line, "---") && !StartsWith(line, "+++") then
      var current := st.chunks[|st.chunks| - 1];
      var kind := Classify(line);
      var l := DiffLine(kind, line,
                        if kind == Added then None else Some(st.oldLineNum),
                        if kind == Removed then None else Some(st.newLineNum));
      ParseState(st.chunks[..|st.chunks| - 1] + [current.(lines := current.lines + [l])],
                 if kind == Added then st.oldLineNum else st.oldLineNum + 1,
                 if kind == Removed then st.newLineNum else st.newLineNum + 1)
    else st
  }

  /** An `@@` line that the pattern rejects changes nothing: no chunk, no
      recorded line, the same counters. */
  lemma MalformedHeaderIgnored(st: ParseState, line: string)
    requires StartsWith(line, "@@") && !IsHunkHeader(line)
    ensures Step(st, line) == st
  {
    assert HeaderStarts(line).None?;
  }

  /** The type of a line is decided by its first character alone. */
  lemma ClassifyByFirstChar(line: string)
    ensures Classify(line) == Added <==> |line| > 0 && line[0] == '+'
    ensures Classify(line) == Removed <==> |line| > 0 && line[0] == '-'
    ensures Classify(line) == Context <==> line == "" || (line[0] != '+' && line[0] != '-')
  {
    if |line| > 0 {
      assert StartsWith(line, "+") <==> line[0] == '+';
      assert StartsWith(line, "-") <==> line[0] == '-';
    }
  }

  /** The scan over a sequence of lines, from the initial state. */
  function ParseLines(lines: seq<string>): ParseState
    decreases |lines|
  {
    if |lines| == 0 then ParseState([], 0, 0)
    else Step(ParseLines(lines[..|lines| - 1]), lines[|lines| - 1])
  }

  /** What `parseDiff` returns for an argument. */
  function Parsed(diff: JsValue): ParsedDiff
  {
    if !IsNonEmptyString(diff) then ParsedDiff([])
    else ParsedDiff(ParseLines(Split(diff.s)).chunks)
  }

  /** `DiffService.parseDiff`. */
  method ParseDiff(diff: JsValue) returns (result: ParsedDiff)
    ensures result == Parsed(diff)
  {
    if !IsNonEmptyString(diff) {
      return ParsedDiff([]);
    }
    var lines := Split(diff.s);
    var chunks: seq<Chunk> := [];
    var oldLineNum, newLineNum := 0, 0;
    for i := 0 to |lines|
      invariant ParseLines(lines[..i]) == ParseState(chunks, oldLineNum, newLineNum)
    {
      var line := lines[i];
      assert lines[..i + 1][..i] == lines[..i];
      if StartsWith(line, "@@") {
        var starts := HeaderStarts(line);
        if starts.Some? {
          oldLineNum := starts.value.0;
          newLineNum := starts.value.1;
          chunks := chunks + [Chunk(line, [])];
        }
      } else if |chunks| > 0 && !StartsWith(line, "---") && !StartsWith(line, "+++") {
        var kind: LineType;
        var oldNum: Option<int> := None;
        var newNum: Option<int> := None;
        if StartsWith(line, "+") {
          kind := Added;
          newNum := Some(newLineNum);
          newLineNum := newLineNum + 1;
        } else if StartsWith(line, "-") {
          kind := Removed;
          oldNum := Some(oldLineNum);
          oldLineNum := oldLineNum + 1;
        } else {
          kind := Context;
          oldNum := Some(oldLineNum);
          newNum := Some(newLineNum);
          oldLineNum := oldLineNum + 1;
          newLineNum := newLineNum + 1;
        }
        var current := chunks[|chunks| - 1];
        chunks := chunks[..|chunks| - 1] + [current.(lines := current.lines + [DiffLine(kind, line, oldNum, newNum)])];
      }
    }
    assert lines[..|lines|] == lines;
    return ParsedDiff(chunks);
  }

  /** Empty, `null`, `undefined` and non-string arguments give no chunks. */
  lemma ParsedOfNoText(diff: JsValue)
    requires diff == Str("") || diff == Null || diff == Undefined || diff.Other?
    ensures Parsed(diff) == ParsedDiff([])
  {
  }

  // --- Chunk headers ---------------------------------------------------

  /** The lines that open a chunk, in order. */
  function HunkHeaderLines(lines: seq<string>): seq<string>
    decreases |lines|
  {
    if |lines| == 0 then []
    else HunkHeaderLines(lines[..|lines| - 1]) + (if IsHunkHeader(lines[|lines| - 1]) then [lines[|lines| - 1]] else [])
  }

  /** The headers of a chunk sequence. */
  function ChunkHeaders(chunks: seq<Chunk>): (r: seq<string>)
    ensures |r| == |chunks| && forall k :: 0 <= k < |chunks| ==> r[k] == chunks[k].header
    decreases |chunks|
  {
    if |chunks| == 0 then [] else ChunkHeaders(chunks[..|chunks| - 1]) + [chunks[|chunks| - 1].header]
  }

  /** One chunk per valid header line, in order, each headed by that line verbatim. */
  lemma {:induction false} ChunkHeadersAreHeaderLines(lines: seq<string>)
    ensures ChunkHeaders(ParseLines(lines).chunks) == HunkHeaderLines(lines)
    decreases |lines|
  {
    if |lines| > 0 {
      var init, line := lines[..|lines| - 1], lines[|lines| - 1];
      ChunkHeadersAreHeaderLines(init);
      ChunkHeadersStep(ParseLines(init), line);
    }
  }

  /** One line adds its own text to the headers exactly when it is a valid header line. */
  lemma ChunkHeadersStep(st: ParseState, line: string)
    ensures ChunkHeaders(Step(st, line).chunks) == ChunkHeaders(st.chunks) + (if IsHunkHeader(line) then [line] else [])
  {
    if IsHunkHeader(line) {
      assert Step(st, line).chunks == st.chunks + [Chunk(line, [])];
    } else if StartsWith(line, "@@") {
      assert Step(st, line) == st;
    } else if |st.chunks| > 0 && !StartsWith(line, "---") && !StartsWith(line, "+++") {
      var st' := Step(st, line);
      assert |st'.chunks| == |st.chunks|;
      assert forall k :: 0 <= k < |st.chunks| ==> st'.chunks[k].header == st.chunks[k].header;
    } else {
      assert Step(st, line) == st;
    }
  }

  /** The chunk count is the number of valid header lines, and chunk `k` is headed by the `k`-th. */
  lemma ParsedChunkHeaders(text: string)
    ensures |Parsed(Str(text)).chunks| == |HunkHeaderLines(Split(text))|
    ensures forall k :: 0 <= k < |Parsed(Str(text)).chunks| ==>
              Parsed(Str(text)).chunks[k].header == HunkHeaderLines(Split(text))[k]
  {
    if text == "" {
      assert Split(text) == [""];
      assert !StartsWith("", "@@");
      assert HunkHeaderLines([""]) == HunkHeaderLines([]) + [];
    } else {
      ChunkHeadersAreHeaderLines(Split(text));
    }
  }

  // --- Which lines are recorded, and where ----------------------------

  /** The scan as a stream of events: a chunk header, or a recorded line's text. */
  datatype Event = HeaderEvent(text: string) | LineEvent(text: string)

  function LineEvents(ls: seq<DiffLine>): seq<Event>
    decreases |ls|
  {
    if |ls| == 0 then [] else LineEvents(ls[..|ls| - 1]) + [LineEvent(ls[|ls| - 1].content)]
  }

  function ChunkEvents(c: Chunk): seq<Event>
  {
    [HeaderEvent(c.header)] + LineEvents(c.lines)
  }

  /** The events of a chunk sequence, chunk by chunk. */
  function Trace(chunks: seq<Chunk>): seq<Event>
    decreases |chunks|
  {
    if |chunks| == 0 then [] else Trace(chunks[..|chunks| - 1]) + ChunkEvents(chunks[|chunks| - 1])
  }

  /** Each line on its own: a valid header is a header event, an `@@` line
      that fails the pattern and a `---`/`+++` file marker are nothing, and
      every other line is a line event. */
  function EventOf(line: string): seq<Event>
  {
    if StartsWith(line, "@@") then (if IsHunkHeader(line) then [HeaderEvent(line)] else [])
    else if StartsWith(line, "---") || StartsWith(line, "+++") then []
    else [LineEvent(line)]
  }

  function EventsOf(lines: seq<string>): seq<Event>
    decreases |lines|
  {
    if |lines| == 0 then [] else EventsOf(lines[..|lines| - 1]) + EventOf(lines[|lines| - 1])
  }

  /** Drops the line events that come before the first header event. */
  function DropUntilHeader(es: seq<Event>): seq<Event>
    decreases |es|
  {
    if |es| == 0 then []
    else if es[0].HeaderEvent? then es
    else DropUntilHeader(es[1..])
  }

  lemma {:induction false} DropUntilHeaderAppend(a: seq<Event>, b: seq<Event>)
    ensures DropUntilHeader(a + b) == if DropUntilHeader(a) == [] then DropUntilHeader(b) else DropUntilHeader(a) + b
    decreases |a|
  {
    if |a| == 0 {
      assert a + b == b;
    } else if !a[0].HeaderEvent? {
      assert (a + b)[1..] == a[1..] + b;
      DropUntilHeaderAppend(a[1..], b);
    }
  }

  lemma TraceEmpty(chunks: seq<Chunk>)
    ensures Trace(chunks) == [] <==> chunks == []
  {
    if |chunks| > 0 {
      assert ChunkEvents(chunks[|chunks| - 1])[0].HeaderEvent?;
    }
  }

  lemma TraceSnoc(init: seq<Chunk>, c: Chunk)
    ensures Trace(init + [c]) == Trace(init) + ChunkEvents(c)
  {
    assert (init + [c])[..|init|] == init;
  }

  lemma LineEventsSnoc(ls: seq<DiffLine>, l: DiffLine)
    ensures LineEvents(ls + [l]) == LineEvents(ls) + [LineEvent(l.content)]
  {
    assert (ls + [l])[..|ls|] == ls;
  }

  /** Adding a line to the open chunk adds its event at the end of the trace. */
  lemma TraceAppendLine(init: seq<Chunk>, current: Chunk, l: DiffLine)
    ensures Trace(init + [current.(lines := current.lines + [l])]) == Trace(init + [current]) + [LineEvent(l.content)]
  {
    TraceSnoc(init, current.(lines := current.lines + [l]));
    TraceSnoc(init, current);
    LineEventsSnoc(current.lines, l);
  }

  /** The recorded structure is the line-by-line classification with
      everything before the first valid header dropped: chunks in source
      order, each holding exactly the recordable lines up to the next valid
      header, in order and verbatim. */
  lemma {:induction false} TraceOfParse(lines: seq<string>)
    ensures Trace(ParseLines(lines).chunks) == DropUntilHeader(EventsOf(lines))
    decreases |lines|
  {
    if |lines| > 0 {
      var init, line := lines[..|lines| - 1], lines[|lines| - 1];
      TraceOfParse(init);
      TraceStep(ParseLines(init), line, EventsOf(init));
    }
  }

  /** One step of the scan extends the trace as the line's own event dictates. */
  lemma TraceStep(st: ParseState, line: string, es: seq<Event>)
    requires Trace(st.chunks) == DropUntilHeader(es)
    ensures Trace(Step(st, line).chunks) == DropUntilHeader(es + EventOf(line))
  {
    DropUntilHeaderAppend(es, EventOf(line));
    TraceEmpty(st.chunks);
    if IsHunkHeader(line) {
      TraceStepHeader(st, line);
    } else if Recordable(line) && |st.chunks| > 0 {
      TraceStepRecord(st, line);
    }
  }

  lemma TraceStepHeader(st: ParseState, line: string)
    requires IsHunkHeader(line)
    ensures EventOf(line) == [HeaderEvent(line)]
    ensures Trace(Step(st, line).chunks) == Trace(st.chunks) + [HeaderEvent(line)]
  {
    TraceSnoc(st.chunks, Chunk(line, []));
    assert LineEvents([]) == [];
  }

  lemma TraceStepRecord(st: ParseState, line: string)
    requires Recordable(line) && |st.chunks| > 0
    ensures EventOf(line) == [LineEvent(line)]
    ensures Trace(Step(st, line).chunks) == Trace(st.chunks) + [LineEvent(line)]
  {
    var kind := Classify(line);
    var cs := st.chunks;
    assert cs == cs[..|cs| - 1] + [cs[|cs| - 1]];
    TraceAppendLine(cs[..|cs| - 1], cs[|cs| - 1], DiffLine(kind, line,
                    if kind == Added then None else Some(st.oldLineNum),
                    if kind == Removed then None else Some(st.newLineNum)));
  }

  /** No valid header line means no chunks, and the converse. */
  lemma ParsedEmptyIff(diff: JsValue)
    ensures Parsed(diff).chunks == [] <==> (!IsNonEmptyString(diff) || HunkHeaderLines(Split(diff.s)) == [])
  {
    if IsNonEmptyString(diff) {
      ChunkHeadersAreHeaderLines(Split(diff.s));
    }
  }

  // --- Line numbers -----------------------------------------------------

  /** Lines that took an old number (all but added lines). */
  function OldTaken(ls: seq<DiffLine>): nat
    decreases |ls|
  {
    if |ls| == 0 then 0 else OldTaken(ls[..|ls| - 1]) + (if ls[|ls| - 1].kind == Added then 0 else 1)
  }

  /** Lines that took a new number (all but removed lines). */
  function NewTaken(ls: seq<DiffLine>): nat
    decreases |ls|
  {
    if |ls| == 0 then 0 else NewTaken(ls[..|ls| - 1]) + (if ls[|ls| - 1].kind == Removed then 0 else 1)
  }

  /** A line that the scan can record: not a header and not a file marker. */
  predicate Recordable(line: string)
  {
    !StartsWith(line, "@@") && !StartsWith(line, "---") && !StartsWith(line, "+++")
  }

  /** Line `i` of a chunk whose header starts the old side at `a` and the new
      side at `b`: typed by its first character, an added line has only a
      new number, a removed line only an old one, a context line both, and
      each number is the side's start plus the lines before it that took a
      number on that side. */
  predicate NumberedAt(ls: seq<DiffLine>, i: nat, a: int, b: int)
    requires i < |ls|
  {
    var l := ls[i];
    && l.kind == Classify(l.content)
    && Recordable(l.content)
    && l.oldLineNum == (if l.kind == Added then None else Some(a + OldTaken(ls[..i])))
    && l.newLineNum == (if l.kind == Removed then None else Some(b + NewTaken(ls[..i])))
  }

  predicate NumberedFrom(ls: seq<DiffLine>, a: int, b: int)
  {
    forall i: nat :: i < |ls| ==> NumberedAt(ls, i, a, b)
  }

  /** A chunk whose header is valid and whose lines are numbered from its start numbers. */
  predicate WellNumbered(c: Chunk)
  {
    HeaderStarts(c.header).Some? && NumberedFrom(c.lines, HeaderStarts(c.header).value.0, HeaderStarts(c.header).value.1)
  }

  /** What the scan keeps true: every chunk is well numbered and the
      counters are the next numbers of the open chunk. */
  predicate ScanInvariant(st: ParseState)
  {
    && (forall k :: 0 <= k < |st.chunks| ==> WellNumbered(st.chunks[k]))
    && (|st.chunks| > 0 ==>
          var c := st.chunks[|st.chunks| - 1];
          var starts := HeaderStarts(c.header).value;
          st.oldLineNum == starts.0 + OldTaken(c.lines) && st.newLineNum == starts.1 + NewTaken(c.lines))
  }

  /** Appending a line correctly numbered after the others keeps the chunk numbered. */
  lemma NumberedFromAppend(ls: seq<DiffLine>, l: DiffLine, a: int, b: int)
    requires NumberedFrom(ls, a, b)
    requires l.kind == Classify(l.content) && Recordable(l.content)
    requires l.oldLineNum == (if l.kind == Added then None else Some(a + OldTaken(ls)))
    requires l.newLineNum == (if l.kind == Removed then None else Some(b + NewTaken(ls)))
    ensures NumberedFrom(ls + [l], a, b)
  {
    forall i: nat | i < |ls| + 1
      ensures NumberedAt(ls + [l], i, a, b)
    {
      if i < |ls| {
        NumberedAtAppend(ls, l, a, b, i);
      } else {
        assert (ls + [l])[..i] == ls;
      }
    }
  }

  lemma NumberedAtAppend(ls: seq<DiffLine>, l: DiffLine, a: int, b: int, i: nat)
    requires i < |ls| && NumberedAt(ls, i, a, b)
    ensures NumberedAt(ls + [l], i, a, b)
  {
    assert (ls + [l])[..i] == ls[..i];
    assert (ls + [l])[i] == ls[i];
  }

  lemma StepKeepsInvariant(st: ParseState, line: string)
    requires ScanInvariant(st)
    ensures ScanInvariant(Step(st, line))
  {
    if StartsWith(line, "@@") {
      if HeaderStarts(line).Some? {
        OpenChunkKeepsInvariant(st, line);
      }
    } else if |st.chunks| > 0 && !StartsWith(line, "---") && !StartsWith(line, "+++") {
      RecordLineKeepsInvariant(st, line);
    }
  }

  lemma OpenChunkKeepsInvariant(st: ParseState, line: string)
    requires ScanInvariant(st) && StartsWith(line, "@@") && HeaderStarts(line).Some?
    ensures ScanInvariant(Step(st, line))
  {
    var starts := HeaderStarts(line).value;
    assert Step(st, line) == ParseState(st.chunks + [Chunk(line, [])], starts.0, starts.1);
    assert WellNumbered(Chunk(line, []));
    InvariantOfLast(st.chunks, Chunk(line, []), starts.0, starts.1);
  }

  /** The invariant for a state whose open chunk is `c`, given it for the closed chunks. */
  lemma InvariantOfLast(closed: seq<Chunk>, c: Chunk, o: int, n: int)
    requires forall k :: 0 <= k < |closed| ==> WellNumbered(closed[k])
    requires WellNumbered(c)
    requires o == HeaderStarts(c.header).value.0 + OldTaken(c.lines)
    requires n == HeaderStarts(c.header).value.1 + NewTaken(c.lines)
    ensures ScanInvariant(ParseState(closed + [c], o, n))
  {
    var cs := closed + [c];
    forall k | 0 <= k < |cs|
      ensures WellNumbered(cs[k])
    {
      if k < |closed| {
        assert cs[k] == closed[k];
      }
    }
  }

  lemma RecordLineKeepsInvariant(st: ParseState, line: string)
    requires ScanInvariant(st) && Recordable(line) && |st.chunks| > 0
    ensures ScanInvariant(Step(st, line))
  {
    var n := |st.chunks|;
    var closed := st.chunks[..n - 1];
    var current := st.chunks[n - 1];
    var starts := HeaderStarts(current.header).value;
    var kind := Classify(line);
    var l := DiffLine(kind, line,
                      if kind == Added then None else Some(st.oldLineNum),
                      if kind == Removed then None else Some(st.newLineNum));
    var extended := current.(lines := current.lines + [l]);
    var st' := Step(st, line);
    assert st'.chunks == closed + [extended];
    assert WellNumbered(current);
    NumberedFromAppend(current.lines, l, starts.0, starts.1);
    TakenAppend(current.lines, l);
    assert WellNumbered(extended);
    assert forall k :: 0 <= k < |closed| ==> closed[k] == st.chunks[k];
    InvariantOfLast(closed, extended, st'.oldLineNum, st'.newLineNum);
  }

  lemma TakenAppend(ls: seq<DiffLine>, l: DiffLine)
    ensures OldTaken(ls + [l]) == OldTaken(ls) + (if l.kind == Added then 0 else 1)
    ensures NewTaken(ls + [l]) == NewTaken(ls) + (if l.kind == Removed then 0 else 1)
  {
    assert (ls + [l])[..|ls|] == ls;
  }

  lemma {:induction false} ParseLinesInvariant(lines: seq<string>)
    ensures ScanInvariant(ParseLines(lines))
    decreases |lines|
  {
    if |lines| > 0 {
      ParseLinesInvariant(lines[..|lines| - 1]);
      StepKeepsInvariant(ParseLines(lines[..|lines| - 1]), lines[|lines| - 1]);
    }
  }

  /** Every chunk `parseDiff` returns is well numbered. */
  lemma ParsedWellNumbered(diff: JsValue)
    ensures forall k :: 0 <= k < |Parsed(diff).chunks| ==> WellNumbered(Parsed(diff).chunks[k])
  {
    if IsNonEmptyString(diff) {
      ParseLinesInvariant(Split(diff.s));
    }
  }

  /** The old numbers handed out in a chunk, in order. */
  function OldNumbers(ls: seq<DiffLine>): seq<int>
    decreases |ls|
  {
    if |ls| == 0 then []
    else OldNumbers(ls[..|ls| - 1]) + (match ls[|ls| - 1].oldLineNum case None => [] case Some(v) => [v])
  }

  /** The new numbers handed out in a chunk, in order. */
  function NewNumbers(ls: seq<DiffLine>): seq<int>
    decreases |ls|
  {
    if |ls| == 0 then []
    else NewNumbers(ls[..|ls| - 1]) + (match ls[|ls| - 1].newLineNum case None => [] case Some(v) => [v])
  }

  /** `start, start + 1, ..., start + count - 1`. */
  function Consecutive(start: int, count: nat): (r: seq<int>)
    ensures |r| == count && forall j :: 0 <= j < count ==> r[j] == start + j
  {
    seq(count, j => start + j)
  }

  /** Within a chunk the old numbers run consecutively from the header's old
      start, and the new numbers from its new start. */
  lemma {:induction false} NumbersConsecutive(ls: seq<DiffLine>, a: int, b: int)
    requires NumberedFrom(ls, a, b)
    ensures OldNumbers(ls) == Consecutive(a, OldTaken(ls))
    ensures NewNumbers(ls) == Consecutive(b, NewTaken(ls))
    decreases |ls|
  {
    if |ls| > 0 {
      var init := ls[..|ls| - 1];
      forall i: nat | i < |init|
        ensures NumberedAt(init, i, a, b)
      {
        assert init[..i] == ls[..i];
        assert NumberedAt(ls, i, a, b);
      }
      NumbersConsecutive(init, a, b);
      assert NumberedAt(ls, |ls| - 1, a, b);
    }
  }

  // ---------------------------------------------------------------------
  // formatEnhancedDiff
  // ---------------------------------------------------------------------

  /** A number column: the number right-justified in three characters when
      it is truthy (present and not 0), three blanks otherwise; wider numbers
      are not cut. */
  function NumberField(n: Option<int>): string
  {
    match n
    case Some(v) => if v != 0 then PadStart(IntToString(v), 3, ' ') else "   "
    case None => "   "
  }

  /** The row for one line; the content loses its first (marker) character. */
  function RowText(l: DiffLine): string
  {
    var rest := Substring(l.content, 1);
    match l.kind
    case Added => "    " + NumberField(l.newLineNum) + " +" + rest
    case Removed => NumberField(l.oldLineNum) + "     -" + rest
    case Context => NumberField(l.oldLineNum) + " " + NumberField(l.newLineNum) + "  " + rest
  }

  /** A removed line numbered 2 renders as `  2     -` and its text. */
  lemma RemovedRowExample()
    ensures RowText(DiffLine(Removed, "-old line", Some(2), None)) == "  2" + "     -" + "old line"
  {
    var l := DiffLine(Removed, "-old line", Some(2), None);
    assert RowText(l) == NumberField(Some(2)) + "     -" + Substring("-old line", 1);
    NumberFieldOfSmall(2);
    assert DigitChar(2) == '2';
    assert Substring("-old line", 1) == "old line";
  }

  lemma NumberFieldOfSmall(d: nat)
    requires 1 <= d < 10
    ensures NumberField(Some(d)) == [' ', ' ', DigitChar(d)]
  {
    assert NatToString(d) == [DigitChar(d)];
  }

  /** The rows of a chunk's lines, in order. */
  function Rows(ls: seq<DiffLine>): (r: seq<string>)
    ensures |r| == |ls|
    decreases |ls|
  {
    if |ls| == 0 then [] else Rows(ls[..|ls| - 1]) + [RowText(ls[|ls| - 1])]
  }

  /** Row `i` is the row of line `i`. */
  lemma {:induction false} RowsAt(ls: seq<DiffLine>, i: nat)
    requires i < |ls|
    ensures Rows(ls)[i] == RowText(ls[i])
    decreases |ls|
  {
    if i < |ls| - 1 {
      RowsAt(ls[..|ls| - 1], i);
    }
  }

  /** The output lines of a chunk sequence: each header, then its rows. */
  function RenderedLines(chunks: seq<Chunk>): seq<string>
    decreases |chunks|
  {
    if |chunks| == 0 then []
    else RenderedLines(chunks[..|chunks| - 1]) + [chunks[|chunks| - 1].header] + Rows(chunks[|chunks| - 1].lines)
  }

  /** Each text followed by a newline, all concatenated. */
  function Terminated(xs: seq<string>): string
    decreases |xs|
  {
    if |xs| == 0 then "" else Terminated(xs[..|xs| - 1]) + xs[|xs| - 1] + "\n"
  }

  lemma {:induction false} TerminatedAppend(xs: seq<string>, ys: seq<string>)
    ensures Terminated(xs + ys) == Terminated(xs) + Terminated(ys)
    decreases |ys|
  {
    if |ys| == 0 {
      assert xs + ys == xs;
    } else {
      var init := ys[..|ys| - 1];
      assert (xs + ys)[..|xs + ys| - 1] == xs + init;
      TerminatedAppend(xs, init);
    }
  }

  /** What `formatEnhancedDiff` returns; `None` stands for an absent argument or an absent `chunks`. */
  function Formatted(parsedDiff: Option<ParsedDiff>): string
  {
    if parsedDiff.None? || |parsedDiff.value.chunks| == 0 then ""
    else Terminated(RenderedLines(parsedDiff.value.chunks))
  }

  /** `DiffService.formatEnhancedDiff`. */
  method FormatEnhancedDiff(parsedDiff: Option<ParsedDiff>) returns (formatted: string)
    ensures formatted == Formatted(parsedDiff)
  {
    if parsedDiff.None? || |parsedDiff.value.chunks| == 0 {
      return "";
    }
    var chunks := parsedDiff.value.chunks;
    formatted := "";
    for k := 0 to |chunks|
      invariant formatted == Terminated(RenderedLines(chunks[..k]))
    {
      var chunk := chunks[k];
      ghost var head := RenderedLines(chunks[..k]) + [chunk.header];
      TerminatedSnoc(RenderedLines(chunks[..k]), chunk.header);
      formatted := formatted + chunk.header + "\n";
      assert formatted == Terminated(head);
      assert chunk.lines[..0] == [];
      assert head + Rows(chunk.lines[..0]) == head;
      for j := 0 to |chunk.lines|
        invariant formatted == Terminated(head + Rows(chunk.lines[..j]))
      {
        var line := chunk.lines[j];
        var oldNum := NumberField(line.oldLineNum);
        var newNum := NumberField(line.newLineNum);
        var rest := Substring(line.content, 1);
        var row;
        if line.kind == Added {
          row := "    " + newNum + " +" + rest;
        } else if line.kind == Removed {
          row := oldNum + "     -" + rest;
        } else {
          row := oldNum + " " + newNum + "  " + rest;
        }
        assert row == RowText(line);
        RowStep(head, chunk.lines, j, formatted);
        formatted := formatted + row + "\n";
      }
      assert chunk.lines[..|chunk.lines|] == chunk.lines;
      RenderedLinesSnoc(chunks, k);
    }
    assert chunks[..|chunks|] == chunks;
  }

  lemma TerminatedSnoc(xs: seq<string>, x: string)
    ensures Terminated(xs + [x]) == Terminated(xs) + x + "\n"
  {
    assert (xs + [x])[..|xs|] == xs;
  }

  /** Emitting row `j` keeps the output equal to the rows so far. */
  lemma RowStep(head: seq<string>, ls: seq<DiffLine>, j: nat, formatted: string)
    requires j < |ls| && formatted == Terminated(head + Rows(ls[..j]))
    ensures formatted + RowText(ls[j]) + "\n" == Terminated(head + Rows(ls[..j + 1]))
  {
    RowsSnoc(head, ls, j);
    TerminatedSnoc(head + Rows(ls[..j]), RowText(ls[j]));
  }

  lemma RowsSnoc(head: seq<string>, ls: seq<DiffLine>, j: nat)
    requires j < |ls|
    ensures head + Rows(ls[..j + 1]) == (head + Rows(ls[..j])) + [RowText(ls[j])]
  {
    assert ls[..j + 1][..j] == ls[..j];
  }

  lemma RenderedLinesSnoc(chunks: seq<Chunk>, k: nat)
    requires k < |chunks|
    ensures RenderedLines(chunks[..k + 1]) == RenderedLines(chunks[..k]) + [chunks[k].header] + Rows(chunks[k].lines)
  {
    assert chunks[..k + 1][..k] == chunks[..k];
    assert chunks[k].lines[..|chunks[k].lines|] == chunks[k].lines;
  }

  /** The output is empty exactly when there are no chunks. */
  lemma FormattedEmptyIff(parsedDiff: Option<ParsedDiff>)
    ensures Formatted(parsedDiff) == "" <==> parsedDiff.None? || parsedDiff.value.chunks == []
  {
    if parsedDiff.Some? && |parsedDiff.value.chunks| > 0 {
      var cs := parsedDiff.value.chunks;
      assert |Terminated(RenderedLines(cs))| > 0;
    }
  }

  /** One output line per header and per recorded line. */
  lemma {:induction false} RenderedLinesCount(chunks: seq<Chunk>)
    ensures |RenderedLines(chunks)| == |chunks| + |Flatten(chunks)|
    decreases |chunks|
  {
    if |chunks| > 0 {
      RenderedLinesCount(chunks[..|chunks| - 1]);
    }
  }

  /** All recorded lines of a chunk sequence, in order. */
  function Flatten(chunks: seq<Chunk>): seq<DiffLine>
    decreases |chunks|
  {
    if |chunks| == 0 then [] else Flatten(chunks[..|chunks| - 1]) + chunks[|chunks| - 1].lines
  }

  lemma {:induction false} TerminatedSplit(xs: seq<string>)
    requires forall k :: 0 <= k < |xs| ==> '\n' !in xs[k]
    ensures Split(Terminated(xs)) == xs + [""]
    decreases |xs|
  {
    TerminatedIsJoin(xs);
    SplitJoin(xs + [""]);
  }

  lemma {:induction false} TerminatedIsJoin(xs: seq<string>)
    ensures Terminated(xs) == Join(xs + [""], "\n")
    decreases |xs|
  {
    if |xs| > 0 {
      var init := xs[..|xs| - 1];
      TerminatedIsJoin(init);
      JoinSnoc(init, xs[|xs| - 1]);
      assert xs == init + [xs[|xs| - 1]];
    }
  }

  lemma {:induction false} JoinSnoc(xs: seq<string>, x: string)
    ensures Join(xs + [x] + [""], "\n") == Join(xs + [""], "\n") + x + "\n"
    decreases |xs|
  {
    if |xs| == 0 {
      assert [x] + [""] == [x, ""];
      assert [x, ""][1..] == [""];
    } else {
      JoinSnoc(xs[1..], x);
      assert (xs + [x] + [""])[1..] == xs[1..] + [x] + [""];
      assert (xs + [""])[1..] == xs[1..] + [""];
    }
  }

  predicate NoNewline(s: string)
  {
    '\n' !in s
  }

  lemma NumberFieldNoNewline(n: Option<int>)
    ensures NoNewline(NumberField(n))
  {
    match n
    case None =>
    case Some(v) =>
      if v != 0 {
        var s := IntToString(v);
        var t := PadStart(s, 3, ' ');
        assert forall i :: 0 <= i < |s| ==> s[i] != '\n';
        forall i | 0 <= i < |t|
          ensures t[i] != '\n'
        {
          if i >= |t| - |s| {
            assert t[i] == t[|t| - |s|..][i - (|t| - |s|)];
          }
        }
      }
  }

  lemma NoNewlineConcat(x: string, y: string)
    requires NoNewline(x) && NoNewline(y)
    ensures NoNewline(x + y)
  {
  }

  lemma SubstringNoNewline(s: string, from: nat)
    requires NoNewline(s)
    ensures NoNewline(Substring(s, from))
  {
    if from < |s| {
      assert forall i :: 0 <= i < |s| - from ==> s[from..][i] == s[from + i];
    }
  }

  lemma RowNoNewline(l: DiffLine)
    requires NoNewline(l.content)
    ensures NoNewline(RowText(l))
  {
    var o, n := NumberField(l.oldLineNum), NumberField(l.newLineNum);
    var rest := Substring(l.content, 1);
    NumberFieldNoNewline(l.oldLineNum);
    NumberFieldNoNewline(l.newLineNum);
    SubstringNoNewline(l.content, 1);
    match l.kind
    case Added =>
      NoNewlineConcat("    ", n);
      NoNewlineConcat("    " + n, " +");
      NoNewlineConcat("    " + n + " +", rest);
    case Removed =>
      NoNewlineConcat(o, "     -");
      NoNewlineConcat(o + "     -", rest);
    case Context =>
      NoNewlineConcat(o, " ");
      NoNewlineConcat(o + " ", n);
      NoNewlineConcat(o + " " + n, "  ");
      NoNewlineConcat(o + " " + n + "  ", rest);
  }

  /** Read back with `split('\n')`, the formatted text of a diff's chunks is
      exactly its headers and rows, one per line, followed by the empty text
      after the final newline. */
  lemma FormattedLines(diff: JsValue)
    requires Parsed(diff).chunks != []
    ensures Split(Formatted(Some(Parsed(diff)))) == RenderedLines(Parsed(diff).chunks) + [""]
    ensures |RenderedLines(Parsed(diff).chunks)| == |Parsed(diff).chunks| + |Flatten(Parsed(diff).chunks)|
  {
    var cs := Parsed(diff).chunks;
    var lines := Split(diff.s);
    ParsedNewlineFree(lines);
    RenderedNoNewline(cs);
    TerminatedSplit(RenderedLines(cs));
    RenderedLinesCount(cs);
  }

  /** Every recorded line's text is free of newlines. */
  predicate ChunksNewlineFree(chunks: seq<Chunk>)
  {
    forall k, i :: 0 <= k < |chunks| && 0 <= i < |chunks[k].lines| ==> NoNewline(chunks[k].lines[i].content)
  }

  /** Every header is free of newlines. */
  predicate HeadersNewlineFree(chunks: seq<Chunk>)
  {
    forall k :: 0 <= k < |chunks| ==> NoNewline(chunks[k].header)
  }

  /** The scan only records (and only opens chunks with) lines of its input. */
  lemma {:induction false} ParsedNewlineFree(lines: seq<string>)
    requires forall k :: 0 <= k < |lines| ==> NoNewline(lines[k])
    ensures ChunksNewlineFree(ParseLines(lines).chunks) && HeadersNewlineFree(ParseLines(lines).chunks)
    decreases |lines|
  {
    if |lines| > 0 {
      var init := lines[..|lines| - 1];
      ParsedNewlineFree(init);
      StepNewlineFree(ParseLines(init), lines[|lines| - 1]);
    }
  }

  lemma StepNewlineFree(st: ParseState, line: string)
    requires ChunksNewlineFree(st.chunks) && HeadersNewlineFree(st.chunks) && NoNewline(line)
    ensures ChunksNewlineFree(Step(st, line).chunks) && HeadersNewlineFree(Step(st, line).chunks)
  {
    var cs := Step(st, line).chunks;
    if StartsWith(line, "@@") {
      assert forall k :: 0 <= k < |st.chunks| ==> cs[k] == st.chunks[k];
    } else if |st.chunks| > 0 && Recordable(line) {
      var n := |st.chunks|;
      assert forall k :: 0 <= k < n - 1 ==> cs[k] == st.chunks[k];
      assert cs[n - 1].header == st.chunks[n - 1].header;
      assert cs[n - 1].lines == st.chunks[n - 1].lines + [cs[n - 1].lines[|cs[n - 1].lines| - 1]];
    }
  }

  lemma {:induction false} RenderedNoNewline(chunks: seq<Chunk>)
    requires ChunksNewlineFree(chunks) && HeadersNewlineFree(chunks)
    ensures forall k :: 0 <= k < |RenderedLines(chunks)| ==> NoNewline(RenderedLines(chunks)[k])
    decreases |chunks|
  {
    if |chunks| > 0 {
      var init := chunks[..|chunks| - 1];
      var c := chunks[|chunks| - 1];
      assert forall k :: 0 <= k < |init| ==> init[k] == chunks[k];
      RenderedNoNewline(init);
      var before := RenderedLines(init);
      var r := RenderedLines(chunks);
      assert r == before + [c.header] + Rows(c.lines);
      forall k | 0 <= k < |r|
        ensures NoNewline(r[k])
      {
        if k < |before| {
          assert r[k] == before[k];
        } else if k == |before| {
          assert r[k] == c.header;
        } else {
          var i := k - |before| - 1;
          assert r[k] == Rows(c.lines)[i];
          RowsAt(c.lines, i);
          RowNoNewline(c.lines[i]);
        }
      }
    }
  }

  // --- Column layout and reading a row back -----------------------------

  /** A number that fits its three-character column. */
  predicate FitsColumn(n: Option<int>)
  {
    n.None? || -99 <= n.value <= 999
  }

  lemma NumberFieldWidth(n: Option<int>)
    ensures FitsColumn(n) ==> |NumberField(n)| == 3
    ensures !FitsColumn(n) ==> NumberField(n) == IntToString(n.value) && |NumberField(n)| >= 4
    ensures n.None? || n.value == 0 ==> NumberField(n) == "   "
    ensures FitsColumn(n) && n.Some? && n.value != 0 ==>
              var s := IntToString(n.value);
              && |s| <= 3 && NumberField(n)[3 - |s|..] == s
              && forall i :: 0 <= i < 3 - |s| ==> NumberField(n)[i] == ' '
  {
    if n.Some? && n.value != 0 {
      var v := n.value;
      if v >= 0 {
        NatToStringWidth(v);
      } else {
        NatToStringWidth(-v);
        if -v >= 100 {
          NatToStringWidth(-v / 10);
          assert |NatToString(-v)| == |NatToString(-v / 10)| + 1;
        }
      }
    }
  }

  /** The marker column of a row. */
  function Marker(kind: LineType): char
  {
    match kind
    case Added => '+'
    case Removed => '-'
    case Context => ' '
  }

  /** The fixed layout: two three-character columns, blanks between, the marker, the rest. */
  function Laid(x: string, y: string, m: char, rest: string): string
  {
    x + [' '] + y + [' ', m] + rest
  }

  lemma LaidColumns(x: string, y: string, m: char, rest: string)
    requires |x| == 3 && |y| == 3
    ensures var row := Laid(x, y, m, rest);
            && |row| == 9 + |rest|
            && row[..3] == x && row[3] == ' ' && row[4..7] == y && row[7] == ' '
            && row[8] == m && row[9..] == rest
  {
    var row := Laid(x, y, m, rest);
    assert row == x + ([' '] + (y + ([' ', m] + rest)));
  }

  lemma AddedRowLaid(n: string, rest: string)
    ensures "    " + n + " +" + rest == Laid("   ", n, '+', rest)
  {
    assert "    " == "   " + [' '];
  }

  lemma RemovedRowLaid(o: string, rest: string)
    ensures o + "     -" + rest == Laid(o, "   ", '-', rest)
  {
    assert "     -" == [' '] + "   " + [' ', '-'];
    assert o + "     -" == o + [' '] + "   " + [' ', '-'];
  }

  /** When the shown numbers fit their columns, every row has the same
      layout: old column (blank for an added line), a blank, new column
      (blank for a removed line), a blank, the marker, then the content
      without its first character. */
  lemma RowColumns(l: DiffLine)
    requires l.kind != Added ==> FitsColumn(l.oldLineNum)
    requires l.kind != Removed ==> FitsColumn(l.newLineNum)
    ensures var row := RowText(l);
            && |row| == 9 + |Substring(l.content, 1)|
            && row[..3] == (if l.kind == Added then "   " else NumberField(l.oldLineNum))
            && row[3] == ' '
            && row[4..7] == (if l.kind == Removed then "   " else NumberField(l.newLineNum))
            && row[7] == ' '
            && row[8] == Marker(l.kind)
            && row[9..] == Substring(l.content, 1)
  {
    NumberFieldWidth(l.oldLineNum);
    NumberFieldWidth(l.newLineNum);
    var rest := Substring(l.content, 1);
    var o, n := NumberField(l.oldLineNum), NumberField(l.newLineNum);
    match l.kind
    case Added =>
      AddedRowLaid(n, rest);
      LaidColumns("   ", n, '+', rest);
    case Removed =>
      RemovedRowLaid(o, rest);
      LaidColumns(o, "   ", '-', rest);
    case Context =>
      assert RowText(l) == Laid(o, n, ' ', rest);
      LaidColumns(o, n, ' ', rest);
  }

  function DropBlanks(f: string): string
    decreases |f|
  {
    if |f| > 0 && f[0] == ' ' then DropBlanks(f[1..]) else f
  }

  /** Reads a number column back: blanks only mean no number. */
  function ReadField(f: string): Option<int>
  {
    var t := DropBlanks(f);
    if t != "" && forall i :: 0 <= i < |t| ==> IsDigit(t[i]) then Some(DigitsValue(t)) else None
  }

  datatype RowReading = RowReading(kind: LineType, oldLineNum: Option<int>, newLineNum: Option<int>, rest: string)

  /** Reads a row back from its fixed columns. */
  function ReadRow(row: string): RowReading
    requires |row| >= 9
  {
    RowReading(if row[8] == '+' then Added else if row[8] == '-' then Removed else Context,
               ReadField(row[..3]), ReadField(row[4..7]), row[9..])
  }

  lemma DropBlanksPad(k: nat, s: string)
    requires s != [] && s[0] != ' '
    ensures DropBlanks(Repeat(' ', k) + s) == s
  {
    if k > 0 {
      assert (Repeat(' ', k) + s)[1..] == Repeat(' ', k - 1) + s;
      DropBlanksPad(k - 1, s);
    }
  }

  lemma ReadNumberField(n: Option<int>)
    requires n.None? || 1 <= n.value <= 999
    ensures ReadField(NumberField(n)) == n
  {
    if n.Some? {
      var s := NatToString(n.value);
      NatToStringWidth(n.value);
      DigitsValueOfNatToString(n.value);
      assert PadStart(s, 3, ' ') == Repeat(' ', 3 - |s|) + s;
      DropBlanksPad(3 - |s|, s);
    } else {
      ReadBlankField();
    }
  }

  /** A number the row can show and read back. */
  predicate Readable(n: Option<int>)
  {
    n.None? || 1 <= n.value <= 999
  }

  /** Round trip: a correctly shaped line (added: no old number, removed: no
      new number, context: both) with numbers from 1 to 999 reads back from
      its row as its type, its numbers and its content without the marker. */
  lemma ReadRowText(l: DiffLine)
    requires l.kind == Added ==> l.oldLineNum.None? && l.newLineNum.Some?
    requires l.kind == Removed ==> l.oldLineNum.Some? && l.newLineNum.None?
    requires l.kind == Context ==> l.oldLineNum.Some? && l.newLineNum.Some?
    requires Readable(l.oldLineNum) && Readable(l.newLineNum)
    ensures |RowText(l)| >= 9
    ensures ReadRow(RowText(l)) == RowReading(l.kind, l.oldLineNum, l.newLineNum, Substring(l.content, 1))
  {
    RowColumns(l);
    ReadOldColumn(l);
    ReadNewColumn(l);
  }

  lemma ReadOldColumn(l: DiffLine)
    requires l.kind == Added ==> l.oldLineNum.None?
    requires Readable(l.oldLineNum)
    ensures ReadField(if l.kind == Added then "   " else NumberField(l.oldLineNum)) == l.oldLineNum
  {
    if l.kind == Added {
      ReadBlankField();
    } else {
      ReadNumberField(l.oldLineNum);
    }
  }

  lemma ReadNewColumn(l: DiffLine)
    requires l.kind == Removed ==> l.newLineNum.None?
    requires Readable(l.newLineNum)
    ensures ReadField(if l.kind == Removed then "   " else NumberField(l.newLineNum)) == l.newLineNum
  {
    if l.kind == Removed {
      ReadBlankField();
    } else {
      ReadNumberField(l.newLineNum);
    }
  }

  lemma ReadBlankField()
    ensures ReadField("   ") == None
  {
    assert DropBlanks("   ") == "";
  }

  /** Every line `parseDiff` records, when its numbers are between 1 and
      999, reads back from its formatted row with its type, numbers and text. */
  lemma ParsedRowsReadBack(diff: JsValue, k: nat, i: nat)
    requires k < |Parsed(diff).chunks| && i < |Parsed(diff).chunks[k].lines|
    requires Readable(Parsed(diff).chunks[k].lines[i].oldLineNum)
    requires Readable(Parsed(diff).chunks[k].lines[i].newLineNum)
    ensures var l := Parsed(diff).chunks[k].lines[i];
            |RowText(l)| >= 9 && ReadRow(RowText(l)) == RowReading(l.kind, l.oldLineNum, l.newLineNum, Substring(l.content, 1))
  {
    ParsedWellNumbered(diff);
    var c := Parsed(diff).chunks[k];
    assert NumberedAt(c.lines, i, HeaderStarts(c.header).value.0, HeaderStarts(c.header).value.1);
    ReadRowText(c.lines[i]);
  }

  // ---------------------------------------------------------------------
  // generateEnhancedDiffMarkdown
  // ---------------------------------------------------------------------

  function Fence(body: string): string
  {
    "```diff\n" + body + "```\n\n"
  }

  /** `DiffService.generateEnhancedDiffMarkdown`: the formatted diff in a
      `diff` fence, or the raw argument in the same fence when formatting
      gives the empty text. */
  function EnhancedDiffMarkdown(diff: JsValue): (r: string)
    ensures StartsWith(r, "```diff\n")
    ensures |r| >= 13 && r[|r| - 5..] == "```\n\n"
    ensures r == Fence(Formatted(Some(Parsed(diff)))) || r == Fence(Interpolate(diff))
  {
    var enhanced := Formatted(Some(Parsed(diff)));
    var body := if enhanced != "" then enhanced else Interpolate(diff);
    assert Fence(body) == "```diff\n" + (body + "```\n\n");
    if enhanced != "" then Fence(enhanced) else Fence(Interpolate(diff))
  }

  /** The raw text is wrapped exactly when the diff has no valid header line. */
  lemma MarkdownFallsBackIff(diff: JsValue)
    ensures var noHeader := !IsNonEmptyString(diff) || HunkHeaderLines(Split(diff.s)) == [];
            && (noHeader ==> EnhancedDiffMarkdown(diff) == Fence(Interpolate(diff)))
            && (!noHeader ==> EnhancedDiffMarkdown(diff) == Fence(Formatted(Some(Parsed(diff))))
                              && Formatted(Some(Parsed(diff))) != "")
  {
    ParsedEmptyIff(diff);
    FormattedEmptyIff(Some(Parsed(diff)));
  }

  /** The closing fence sits on a line of its own exactly when the fenced
      body ends in a newline (or is empty). */
  predicate ClosingFenceOnOwnLine(r: string)
  {
    |r| >= 6 && r[|r| - 6] == '\n' && r[|r| - 5..] == "```\n\n"
  }

  /** As written, a raw argument with no valid header that does not end in a
      newline leaves the closing fence on the same line as its last text. */
  lemma FallbackFenceSharesLastLine(text: string)
    requires text != "" && text[|text| - 1] != '\n'
    requires HunkHeaderLines(Split(text)) == []
    ensures EnhancedDiffMarkdown(Str(text)) == "```diff\n" + text + "```\n\n"
    ensures !ClosingFenceOnOwnLine(EnhancedDiffMarkdown(Str(text)))
  {
    MarkdownFallsBackIff(Str(text));
    var r := EnhancedDiffMarkdown(Str(text));
    assert r[|r| - 6] == text[|text| - 1];
  }

  /** A single line that does not start with `@@` holds no header line. */
  lemma NoHeaderInPlainLine(line: string)
    requires '\n' !in line && !StartsWith(line, "@@")
    ensures HunkHeaderLines(Split(line)) == []
  {
    SplitNoNewline(line);
    assert [line][..0] == [];
  }

  /** The argument the tests use for the fallback: `'not a valid diff'` has no header. */
  lemma NotAValidDiffFallsBack()
    ensures EnhancedDiffMarkdown(Str("not a valid diff")) == "```diff\n" + "not a valid diff" + "```\n\n"
    ensures !ClosingFenceOnOwnLine(EnhancedDiffMarkdown(Str("not a valid diff")))
  {
    var text := "not a valid diff";
    assert text[0] == 'n';
    assert forall i :: 0 <= i < |text| ==> text[i] != '\n';
    NoHeaderInPlainLine(text);
    FallbackFenceSharesLastLine(text);
  }

  /** The body with a newline added when it does not already end in one. */
  function CloseLine(body: string): (r: string)
    ensures body <= r && |r| <= |body| + 1
    ensures r == "" || r[|r| - 1] == '\n'
    ensures body == "" || body[|body| - 1] == '\n' ==> r == body
  {
    if body == "" || body[|body| - 1] == '\n' then body else body + "\n"
  }

  /** The evidently intended wrapping: a newline is put before the closing
      fence when the body does not already end in one. */
  function EnhancedDiffMarkdownFenced(diff: JsValue): (r: string)
    ensures StartsWith(r, "```diff\n") && ClosingFenceOnOwnLine(r)
  {
    var enhanced := Formatted(Some(Parsed(diff)));
    var body := if enhanced != "" then enhanced else Interpolate(diff);
    FenceOfClosed(CloseLine(body));
    Fence(CloseLine(body))
  }

  lemma FenceOfClosed(closed: string)
    requires closed == "" || closed[|closed| - 1] == '\n'
    ensures StartsWith(Fence(closed), "```diff\n") && ClosingFenceOnOwnLine(Fence(closed))
  {
    var r := Fence(closed);
    assert r == "```diff\n" + (closed + "```\n\n");
    assert r[|r| - 6] == ("```diff\n" + closed)[|"```diff\n" + closed| - 1];
  }

  /** With the correction, the raw fallback for `'not a valid diff'` closes its fence on a line of its own. */
  lemma FencedFallback(text: string)
    requires text != "" && text[|text| - 1] != '\n'
    requires HunkHeaderLines(Split(text)) == []
    ensures EnhancedDiffMarkdownFenced(Str(text)) == "```diff\n" + text + "\n```\n\n"
  {
    ParsedEmptyIff(Str(text));
    FormattedEmptyIff(Some(Parsed(Str(text))));
    assert CloseLine(text) == text + "\n";
    FenceWithNewline(text);
  }

  lemma FenceWithNewline(text: string)
    ensures Fence(text + "\n") == "```diff\n" + text + "\n```\n\n"
  {
    assert "\n```\n\n" == "\n" + "```\n\n";
  }

  /** The corrected wrapping changes nothing when the body already ends in a newline,
      which every non-empty formatted diff does. */
  lemma FencedAgreesOnTerminatedBody(diff: JsValue)
    requires Parsed(diff).chunks != []
    ensures EnhancedDiffMarkdownFenced(diff) == EnhancedDiffMarkdown(diff)
  {
    var cs := Parsed(diff).chunks;
    FormattedEmptyIff(Some(Parsed(diff)));
    var enhanced := Formatted(Some(Parsed(diff)));
    assert enhanced[|enhanced| - 1] == '\n';
  }

  // ---------------------------------------------------------------------
  // isValidFilePath
  // ---------------------------------------------------------------------

  const SensitivePatterns: seq<string> := [".env", ".git/", "node_modules/", ".ssh/", ".aws/"]

  /** `patterns.some(p => s.includes(p))` */
  predicate SomeIncluded(s: string, patterns: seq<string>)
    decreases |patterns|
  {
    |patterns| > 0 && (Includes(s, patterns[0]) || SomeIncluded(s, patterns[1..]))
  }

  /** The texts a safe path may not contain anywhere. */
  const ForbiddenInPath: seq<string> := ["..", "\\"] + SensitivePatterns

  /** `DiffService.isValidFilePath`: valid exactly when the path is a
      non-empty string, does not start with `/`, and none of the forbidden
      texts occurs in it at any index. */
  predicate IsValidFilePath(filePath: JsValue): (b: bool)
    ensures b <==>
              && filePath.Str? && filePath.s != "" && filePath.s[0] != '/'
              && forall k, i: nat :: 0 <= k < |ForbiddenInPath| ==> !OccursAt(filePath.s, ForbiddenInPath[k], i)
  {
    if !IsNonEmptyString(filePath) then false
    else
      ForbiddenNowhere(filePath.s);
      && !(Includes(filePath.s, "..") || StartsWith(filePath.s, "/") || Includes(filePath.s, "\\"))
      && !SomeIncluded(filePath.s, SensitivePatterns)
  }

  lemma SomeIncludedIff(s: string, patterns: seq<string>)
    ensures SomeIncluded(s, patterns) <==> exists k :: 0 <= k < |patterns| && Includes(s, patterns[k])
    decreases |patterns|
  {
    if |patterns| > 0 {
      SomeIncludedIff(s, patterns[1..]);
      assert forall k :: 1 <= k < |patterns| ==> patterns[k] == patterns[1..][k - 1];
    }
  }

  /** The three tests of the path body, as "no forbidden text occurs anywhere". */
  lemma ForbiddenNowhere(s: string)
    ensures && (!Includes(s, "..") && !Includes(s, "\\") && !SomeIncluded(s, SensitivePatterns)
                <==> forall k, i: nat :: 0 <= k < |ForbiddenInPath| ==> !OccursAt(s, ForbiddenInPath[k], i))
            && (s != "" ==> (StartsWith(s, "/") <==> s[0] == '/'))
  {
    SomeIncludedIff(s, SensitivePatterns);
    forall k | 0 <= k < |ForbiddenInPath|
      ensures Includes(s, ForbiddenInPath[k]) <==> exists i: nat :: OccursAt(s, ForbiddenInPath[k], i)
    {
      IncludesIff(s, ForbiddenInPath[k]);
    }
    assert forall k :: 0 <= k < |SensitivePatterns| ==> SensitivePatterns[k] == ForbiddenInPath[k + 2];
    assert ForbiddenInPath[0] == ".." && ForbiddenInPath[1] == "\\";
  }
}
