/** The bounded-memory line reader of the read tool (contrib/codingtools/read_stream.go).

    It sees the file in fragments, keeps at most the bytes it may still show of the line it is in,
    and counts the rest. Whatever the fragments are, its answer is the truncation of the selected
    lines, and following the advertised offsets shows every line of the file once.
 */
module ReadStream {
  import opened Truncate

  /** A limit below zero selects as little as zero does. */
  datatype Limit = NoLimit | AtMost(n: nat)

  predicate Wants(limit: Limit) {
    limit.AtMost? ==> limit.n > 0
  }

  /** The lines a request selects: from `start` on, at most `limit` of them. */
  function Chosen(lines: seq<Text>, start: nat, limit: Limit): seq<Text> {
    if |lines| <= start then []
    else if limit.AtMost? && limit.n < |lines| - start then lines[start..start + limit.n]
    else lines[start..]
  }

  lemma ChosenAppends(lines: seq<Text>, x: Text, start: nat, limit: Limit)
    ensures var before := Chosen(lines, start, limit);
            Chosen(lines + [x], start, limit) ==
            if |lines| < start || (limit.AtMost? && |before| >= limit.n) then before else before + [x]
    ensures |Chosen(lines, start, limit)| ==
            if |lines| <= start then 0
            else if limit.AtMost? && limit.n < |lines| - start then limit.n else |lines| - start
  {
  }

  /** The selected lines, one by one: those from `start` on, no more than the limit, and no fewer than
      there are. */
  lemma ChosenAre(lines: seq<Text>, start: nat, limit: Limit)
    ensures var chosen := Chosen(lines, start, limit);
            && (forall i | 0 <= i < |chosen| :: start + i < |lines| && chosen[i] == lines[start + i])
            && (limit.AtMost? ==> |chosen| <= limit.n)
            && (start + |chosen| >= |lines| || (limit.AtMost? && |chosen| == limit.n))
  {
  }

  // Once the limit is reached, later lines do not matter.
  lemma ChosenIsFull(lines: seq<Text>, all: seq<Text>, start: nat, limit: Limit)
    requires lines <= all && limit.AtMost? && limit.n > 0 && |Chosen(lines, start, limit)| >= limit.n
    ensures Chosen(all, start, limit) == Chosen(lines, start, limit)
  {
    assert all[..|lines|] == lines;
    assert all[start..start + limit.n] == lines[start..start + limit.n];
  }

  // ----- splitting piece by piece -----

  predicate OneLine(t: Text) {
    NEWLINE !in t
  }

  lemma {:induction false} SplitExtends(a: Text, f: Text)
    requires OneLine(f)
    ensures var s := Split(a); Split(a + f) == s[..|s| - 1] + [s[|s| - 1] + f]
    decreases |f|
  {
    var s := Split(a);
    if f == [] {
      assert a + f == a && s[|s| - 1] + f == s[|s| - 1];
    } else {
      var n := |f| - 1;
      SplitExtends(a, f[..n]);
      assert (a + f)[..|a + f| - 1] == a + f[..n];
      assert f[n] in f;
      assert (s[|s| - 1] + f[..n]) + [f[n]] == s[|s| - 1] + f;
    }
  }

  lemma SplitEnds(a: Text)
    ensures Split(a + [NEWLINE]) == Split(a) + [[]]
  {
    assert (a + [NEWLINE])[..|a|] == a;
  }

  // Lines that are complete stay as they are.
  lemma {:induction false} SplitPrefix(a: Text, b: Text)
    ensures var s, t := Split(a), Split(a + b);
            |s| <= |t| && t[..|s| - 1] == s[..|s| - 1]
    decreases |b|
  {
    if b == [] {
      assert a + b == a;
    } else {
      var n := |b| - 1;
      SplitPrefix(a, b[..n]);
      assert (a + b)[..|a + b| - 1] == a + b[..n];
    }
  }

  // ----- the accumulator -----

  /** What consumeLine does to the summary when the line is selected. */
  function AddLine(r: Truncation, o: Options, line: Text, lineBytes: nat): Truncation {
    var grown := r.(totalLines := r.totalLines + 1,
                    totalBytes := r.totalBytes + lineBytes + if r.totalLines > 0 then 1 else 0);
    var needed := lineBytes + if |r.output| > 0 then 1 else 0;
    if r.truncatedBy != NotTruncated then grown
    else if r.totalLines == 0 && lineBytes > o.maxBytes then
      grown.(truncatedBy := ByBytes, firstLineExceedsLimit := true)
    else if |r.output| >= o.maxLines then grown.(truncatedBy := ByLines)
    else if r.outputBytes + needed > o.maxBytes then grown.(truncatedBy := ByBytes)
    else grown.(output := r.output + [line], outputBytes := r.outputBytes + needed)
  }

  // The summary stays the truncation of the lines selected so far.
  lemma AddLineTruncates(lines: seq<Text>, o: Options, r: Truncation, line: Text, x: Text)
    requires IsTruncation(lines, o, r) && o.maxLines > 0 && o.maxBytes > 0
    requires line == x || AddLine(r, o, line, |x|).output == r.output
    ensures IsTruncation(lines + [x], o, AddLine(r, o, line, |x|))
  {
    TruncationExtends(lines, o, r, x);
    SizeAppends(lines, x);
    SizeOfNothing();
    hide Size;
  }

  class TextReadAccumulator {
    const startLine: nat
    const limit: Limit
    const truncation: Options

    var totalFileLines: nat
    var selectedLines: nat
    var selectedBytes: nat
    var outputLines: seq<Text>
    var outputBytes: nat
    var hasMoreAfterSelection: bool
    var truncated: bool
    var truncatedBy: Reason
    var firstLineTooLong: bool
    var firstSelectedBytes: nat

    /** The selected lines so far, including those that are not kept. */
    ghost var chosen: seq<Text>

    ghost function Summary(): Truncation
      reads this
    {
      Truncation(outputLines, truncatedBy, selectedLines, selectedBytes, outputBytes, firstLineTooLong)
    }

    ghost predicate Valid()
      reads this
    {
      && truncation.maxLines > 0 && truncation.maxBytes > 0
      && IsTruncation(chosen, truncation, Summary()) && selectedLines == |chosen|
      && (truncated <==> truncatedBy != NotTruncated)
      && (chosen != [] ==> firstSelectedBytes == |chosen[0]|)
      && (totalFileLines <= startLine ==> chosen == [])
    }

    /** newTextReadAccumulator; a request without an offset starts at line 1. */
    constructor (offset: int, limit: Limit, options: Options)
      ensures Valid() && chosen == [] && totalFileLines == 0 && !hasMoreAfterSelection
      ensures startLine == (if offset > 0 then offset - 1 else 0)
      ensures this.limit == limit && truncation == Normalize(options)
    {
      startLine := if offset > 0 then offset - 1 else 0;
      this.limit := limit;
      truncation := Normalize(options);
      totalFileLines, selectedLines, selectedBytes := 0, 0, 0;
      outputLines, outputBytes := [], 0;
      hasMoreAfterSelection, truncated, truncatedBy, firstLineTooLong, firstSelectedBytes :=
          false, false, NotTruncated, false, 0;
      chosen := [];
    }

    predicate LimitReached()
      reads this
    {
      limit.AtMost? && selectedLines >= limit.n
    }

    /** currentLineBufferLimit */
    function BufferLimit(): nat
      reads this
    {
      var room := truncation.maxBytes - outputBytes - if |outputLines| > 0 then 1 else 0;
      if room > 0 then room else 0
    }

    predicate ShouldBufferCurrentLine()
      reads this
    {
      totalFileLines >= startLine && !LimitReached() && !truncated && |outputLines| < truncation.maxLines
          && BufferLimit() > 0
    }

    /** A line of this length would be shown. */
    predicate WouldShow(lineBytes: nat)
      reads this
    {
      && totalFileLines >= startLine && !LimitReached() && !truncated && |outputLines| < truncation.maxLines
      && outputBytes + lineBytes + (if |outputLines| > 0 then 1 else 0) <= truncation.maxBytes
    }

    /** consumeLine: `text` is the whole line; `line` may be incomplete if the line is not shown. */
    method ConsumeLine(line: Text, lineBytes: nat, ghost text: Text)
      requires Valid() && lineBytes == |text| && (line == text || !WouldShow(lineBytes))
      modifies this
      ensures Valid() && totalFileLines == old(totalFileLines) + 1
      ensures var skip := old(totalFileLines) < startLine || old(LimitReached());
              && chosen == (if skip then old(chosen) else old(chosen) + [text])
              && hasMoreAfterSelection ==
                  (old(hasMoreAfterSelection) || (old(totalFileLines) >= startLine && old(LimitReached())))
    {
      hide IsTruncation;
      var lineIndex := totalFileLines;
      totalFileLines := totalFileLines + 1;
      if lineIndex < startLine {
        return;
      }
      if LimitReached() {
        hasMoreAfterSelection := true;
        return;
      }
      Counts(chosen, truncation, Summary());
      AddLineTruncates(chosen, truncation, Summary(), line, text);
      TakeLine(line, lineBytes);
      chosen := chosen + [text];
    }

    /** The second half of consumeLine: a selected line. */
    method TakeLine(line: Text, lineBytes: nat)
      requires truncated <==> truncatedBy != NotTruncated
      modifies this`selectedLines, this`selectedBytes, this`firstSelectedBytes, this`outputLines, this`outputBytes
      modifies this`truncated, this`truncatedBy, this`firstLineTooLong
      ensures Summary() == AddLine(old(Summary()), truncation, line, lineBytes)
      ensures truncated <==> truncatedBy != NotTruncated
      ensures firstSelectedBytes == if old(selectedLines) == 0 then lineBytes else old(firstSelectedBytes)
    {
      selectedLines := selectedLines + 1;
      if selectedLines > 1 {
        selectedBytes := selectedBytes + 1;
      }
      selectedBytes := selectedBytes + lineBytes;
      if selectedLines == 1 {
        firstSelectedBytes := lineBytes;
      }
      if truncated {
        return;
      }
      if selectedLines == 1 && lineBytes > truncation.maxBytes {
        truncated, truncatedBy, firstLineTooLong := true, ByBytes, true;
        return;
      }
      if |outputLines| >= truncation.maxLines {
        truncated, truncatedBy := true, ByLines;
        return;
      }
      var outputLineBytes := lineBytes + if |outputLines| > 0 then 1 else 0;
      if outputBytes + outputLineBytes > truncation.maxBytes {
        truncated, truncatedBy := true, ByBytes;
        return;
      }
      outputLines := outputLines + [line];
      outputBytes := outputBytes + outputLineBytes;
    }
  }

  lemma Counts(lines: seq<Text>, o: Options, r: Truncation)
    requires IsTruncation(lines, o, r)
    ensures r.totalLines == |lines|
  {
  }

  /** The line being read: as many of its bytes as could still be shown, and its full length. */
  class StreamedLine {
    const bufferLimit: nat
    const shouldBuffer: bool
    var buffer: Text
    var byteCount: nat
    var hasData: bool
    ghost var text: Text

    ghost predicate Valid()
      reads this
    {
      && shouldBuffer == (bufferLimit > 0) && byteCount == |text| && (hasData <==> text != [])
      && buffer == (if shouldBuffer then text[..if |text| < bufferLimit then |text| else bufferLimit] else [])
    }

    /** newStreamedLine */
    constructor (accumulator: TextReadAccumulator)
      ensures Valid() && text == [] && For(accumulator)
    {
      var keep := if accumulator.ShouldBufferCurrentLine() then accumulator.BufferLimit() else 0;
      bufferLimit := keep;
      shouldBuffer := keep > 0;
      buffer, byteCount, hasData, text := [], 0, false, [];
    }

    /** The limit was taken from this state of the accumulator. */
    ghost predicate For(accumulator: TextReadAccumulator)
      reads accumulator
    {
      bufferLimit == if accumulator.ShouldBufferCurrentLine() then accumulator.BufferLimit() else 0
    }

    method Append(fragment: Text)
      requires Valid() && fragment != []
      modifies this
      ensures Valid() && text == old(text) + fragment
    {
      hasData := true;
      byteCount := byteCount + |fragment|;
      text := text + fragment;
      if !shouldBuffer || |buffer| >= bufferLimit {
        return;
      }
      var remaining := bufferLimit - |buffer|;
      buffer := buffer + if |fragment| > remaining then fragment[..remaining] else fragment;
    }

    /** finish: an incomplete buffer is never passed on as a line. */
    method Finish(accumulator: TextReadAccumulator)
      requires Valid() && accumulator.Valid() && For(accumulator)
      modifies accumulator
      ensures accumulator.Valid() && accumulator.totalFileLines == old(accumulator.totalFileLines) + 1
      ensures var skip := old(accumulator.totalFileLines) < accumulator.startLine || old(accumulator.LimitReached());
              && accumulator.chosen == (if skip then old(accumulator.chosen) else old(accumulator.chosen) + [text])
              && accumulator.hasMoreAfterSelection ==
                 (old(accumulator.hasMoreAfterSelection)
                     || (old(accumulator.totalFileLines) >= accumulator.startLine && old(accumulator.LimitReached())))
    {
      var line := if shouldBuffer && |buffer| == byteCount then buffer else [];
      accumulator.ConsumeLine(line, byteCount, text);
    }
  }

  // ----- the read loop -----

  function Concat(fragments: seq<Text>): Text {
    if fragments == [] then [] else Concat(fragments[..|fragments| - 1]) + fragments[|fragments| - 1]
  }

  /** What ReadSlice('\n') can return: never empty, and a newline only at the very end. */
  predicate WellCut(fragments: seq<Text>) {
    forall i | 0 <= i < |fragments| :: fragments[i] != [] && OneLine(fragments[i][..|fragments[i]| - 1])
  }

  /** The accumulator has consumed exactly these lines and has not been stopped. */
  ghost predicate Consumed(a: TextReadAccumulator, lines: seq<Text>)
    reads a
  {
    && a.Valid() && a.totalFileLines == |lines| && a.chosen == Chosen(lines, a.startLine, a.limit)
    && !a.hasMoreAfterSelection && (a.limit.AtMost? ==> |lines| <= a.startLine + a.limit.n)
  }

  /** The accumulator holds the answer for a file with these lines. */
  ghost predicate Answers(a: TextReadAccumulator, lines: seq<Text>)
    reads a
  {
    && a.Valid() && a.chosen == Chosen(lines, a.startLine, a.limit)
    && (a.hasMoreAfterSelection <==> a.limit.AtMost? && a.startLine + a.limit.n < |lines|)
    && (a.startLine < a.totalFileLines <==> a.startLine < |lines|)
    && (!a.hasMoreAfterSelection ==> a.totalFileLines == |lines|)
  }

  /** With a limit of zero nothing is read: the first fragment ends the loop before any line has been
      counted, and of an empty file only its one empty line is counted. */
  ghost predicate Idle(a: TextReadAccumulator, empty: bool)
    reads a
  {
    && a.Valid() && a.chosen == [] && a.totalFileLines == (if empty then 1 else 0)
    && a.hasMoreAfterSelection == (empty ==> a.startLine == 0)
  }

  method StreamTextLines(fragments: seq<Text>, accumulator: TextReadAccumulator)
    requires WellCut(fragments) && Consumed(accumulator, [])
    modifies accumulator
    ensures Wants(accumulator.limit) ==> Answers(accumulator, Split(Concat(fragments)))
    ensures !Wants(accumulator.limit) ==> Idle(accumulator, fragments == [])
  {
    hide Split, Chosen, IsTruncation, Concat;
    ghost var seen: Text := [];
    ghost var lines: seq<Text> := [];
    SplitNothing();
    ConcatStep(fragments, 0);
    var emitted, lastEndedWithNewline := false, false;
    var lineState := new StreamedLine(accumulator);
    var i := 0;
    while i < |fragments|
      invariant 0 <= i <= |fragments| && seen == Concat(fragments[..i])
      invariant Split(seen) == lines + [lineState.text] && Consumed(accumulator, lines)
      invariant fresh(lineState) && lineState.Valid() && lineState.For(accumulator)
      invariant emitted <==> lines != []
      invariant lineState.text == [] && emitted ==> lastEndedWithNewline
      invariant !Wants(accumulator.limit) ==> i == 0 && lines == [] && lineState.text == []
    {
      var fragment := fragments[i];
      var lineEnded := fragment[|fragment| - 1] == NEWLINE;
      if lineEnded {
        fragment := fragment[..|fragment| - 1];
      }
      if accumulator.LimitReached() {
        accumulator.hasMoreAfterSelection := true;
        if Wants(accumulator.limit) {
          StoppedEarly(fragments, i, lines, lineState.text, accumulator.startLine, accumulator.limit);
        }
        return;
      }
      ConcatStep(fragments, i);
      OneFragment(lines, lineState.text, seen, fragments[i], fragment, lineEnded);
      seen := seen + fragments[i];
      if |fragment| > 0 {
        lineState.Append(fragment);
      }
      if lineEnded {
        emitted, lastEndedWithNewline := true, true;
        ghost var text := lineState.text;
        lineState := EndLine(lineState, accumulator, lines);
        lines := lines + [text];
      } else {
        lastEndedWithNewline := false;
      }
      i := i + 1;
    }
    assert fragments[..|fragments|] == fragments;
    ChosenAppends(lines, lineState.text, accumulator.startLine, accumulator.limit);
    if lineState.hasData {
      emitted, lastEndedWithNewline := true, false;
      lineState.Finish(accumulator);
    }
    if !emitted || lastEndedWithNewline {
      accumulator.ConsumeLine([], 0, []);
    }
  }

  /** A line has ended before the limit was reached. */
  method EndLine(line: StreamedLine, accumulator: TextReadAccumulator, ghost lines: seq<Text>)
    returns (next: StreamedLine)
    requires Consumed(accumulator, lines) && !accumulator.LimitReached()
    requires line.Valid() && line.For(accumulator)
    modifies accumulator
    ensures Consumed(accumulator, lines + [line.text])
    ensures fresh(next) && next.Valid() && next.For(accumulator) && next.text == []
  {
    hide Chosen, IsTruncation;
    ChosenAppends(lines, line.text, accumulator.startLine, accumulator.limit);
    line.Finish(accumulator);
    next := new StreamedLine(accumulator);
  }

  lemma ConcatStep(fragments: seq<Text>, i: nat)
    requires i <= |fragments|
    ensures i < |fragments| ==> Concat(fragments[..i + 1]) == Concat(fragments[..i]) + fragments[i]
    ensures Concat(fragments[..0]) == []
  {
    if i < |fragments| {
      assert fragments[..i + 1][..i] == fragments[..i];
    }
  }

  lemma SplitNothing()
    ensures Split([]) == [[]]
  {
  }

  // One fragment extends the current line and perhaps ends it.
  lemma OneFragment(lines: seq<Text>, last: Text, seen: Text, whole: Text, fragment: Text, ended: bool)
    requires Split(seen) == lines + [last]
    requires OneLine(fragment) && whole == if ended then fragment + [NEWLINE] else fragment
    ensures Split(seen + whole) == if ended then lines + [last + fragment] + [[]] else lines + [last + fragment]
    ensures last + [] == last
  {
    SplitExtends(seen, fragment);
    assert (lines + [last])[..|lines|] == lines;
    if ended {
      assert seen + whole == (seen + fragment) + [NEWLINE];
      SplitEnds(seen + fragment);
    }
  }

  lemma {:induction false} ConcatSplits(fragments: seq<Text>, i: nat)
    requires i <= |fragments|
    ensures Concat(fragments) == Concat(fragments[..i]) + Concat(fragments[i..])
    decreases |fragments| - i
  {
    if i == |fragments| {
      assert fragments[..i] == fragments && Concat(fragments) + [] == Concat(fragments);
    } else {
      var n := |fragments| - 1;
      ConcatSplits(fragments[..n], i);
      assert fragments[..n][..i] == fragments[..i] && fragments[..n][i..] == fragments[i..][..n - i];
      assert Concat(fragments[..i]) + (Concat(fragments[i..][..n - i]) + fragments[n])
          == (Concat(fragments[..i]) + Concat(fragments[i..][..n - i])) + fragments[n];
    }
  }

  // Stopping at the limit gives the selection of the whole file.
  lemma StoppedEarly(fragments: seq<Text>, i: nat, lines: seq<Text>, last: Text, start: nat, limit: Limit)
    requires i <= |fragments| && Split(Concat(fragments[..i])) == lines + [last]
    requires limit.AtMost? && limit.n > 0 && |Chosen(lines, start, limit)| >= limit.n
    ensures var all := Split(Concat(fragments));
            Chosen(all, start, limit) == Chosen(lines, start, limit) && start + limit.n < |all|
  {
    ConcatSplits(fragments, i);
    SplitPrefix(Concat(fragments[..i]), Concat(fragments[i..]));
    var all := Split(Concat(fragments));
    assert (lines + [last])[..|lines|] == lines;
    assert lines <= all by { assert all[..|lines|] == lines; }
    ChosenIsFull(lines, all, start, limit);
  }

  // ----- the answer -----

  datatype Next = NoMore | Offset(line: nat)

  datatype Response = BeyondEnd(totalFileLines: nat) | Shown(summary: Truncation, next: Next)

  /** response: the lines shown and the offset the text advertises, if any. */
  method Respond(a: TextReadAccumulator, ghost lines: seq<Text>) returns (r: Response)
    requires if Wants(a.limit) then Answers(a, lines) else a.Valid() && a.chosen == []
    ensures Wants(a.limit) ==> if a.startLine >= |lines| then r == BeyondEnd(|lines|) else r.Shown?
    ensures Wants(a.limit) && r.Shown? ==> IsTruncation(Chosen(lines, a.startLine, a.limit), a.truncation, r.summary) &&
                                           r.next == Continuation(lines, a.startLine, |r.summary.output|)
    ensures !Wants(a.limit) ==>
              r == if a.startLine >= a.totalFileLines then BeyondEnd(a.totalFileLines)
                   else Shown(a.Summary(), if a.hasMoreAfterSelection then Offset(a.startLine + 1) else NoMore)
  {
    ChosenAppends(lines, [], a.startLine, a.limit);
    hide Split, Size;
    if a.startLine >= a.totalFileLines {
      return BeyondEnd(a.totalFileLines);
    }
    var summary := Truncation(a.outputLines, a.truncatedBy, a.selectedLines, a.selectedBytes, a.outputBytes,
        a.firstLineTooLong);
    if a.truncated {
      if a.firstLineTooLong {
        return Shown(summary, NoMore);
      }
      var endLineDisplay := a.startLine + 1 + |a.outputLines| - 1;
      return Shown(summary, Offset(endLineDisplay + 1));
    }
    if a.limit.AtMost? && a.hasMoreAfterSelection {
      return Shown(summary, Offset(a.startLine + a.selectedLines + 1));
    }
    return Shown(summary, NoMore);
  }

  /** Where to read on after `shown` lines from `start`: the next line of the file, unless the file
      ends there or not even one line could be shown. */
  function Continuation(lines: seq<Text>, start: nat, shown: nat): Next {
    if shown > 0 && start + shown < |lines| then Offset(start + shown + 1) else NoMore
  }

  /** Offsets count from 1; a missing or negative one is the first line. */
  function StartLine(offset: int): (start: nat)
    ensures start + 1 == offset || (offset < 1 && start == 0)
  {
    if offset > 0 then offset - 1 else 0
  }

  /** readResponse on a text file that arrives in these fragments. */
  method ReadText(fragments: seq<Text>, offset: int, limit: Limit, options: Options) returns (r: Response)
    requires WellCut(fragments)
    ensures var lines, start := Split(Concat(fragments)), StartLine(offset);
            Wants(limit) ==>
              && (if start >= |lines| then r == BeyondEnd(|lines|) else r.Shown?)
              && (r.Shown? ==> IsTruncation(Chosen(lines, start, limit), Normalize(options), r.summary) &&
                               r.next == Continuation(lines, start, |r.summary.output|))
    // A limit of zero: every offset of a file that is not empty is reported as beyond its end.
    ensures !Wants(limit) ==>
              if fragments != [] then r == BeyondEnd(0)
              else if StartLine(offset) > 0 then r == BeyondEnd(1)
              else r.Shown? && IsTruncation([], Normalize(options), r.summary) && r.next == Offset(1)
  {
    hide Split, IsTruncation, Concat, Continuation, OneLine;
    var accumulator := new TextReadAccumulator(offset, limit, options);
    StreamTextLines(fragments, accumulator);
    r := Respond(accumulator, Split(Concat(fragments)));
  }

  // ----- streaming equals batch -----

  lemma {:induction false} LinesHaveNoNewline(text: Text)
    ensures forall i | 0 <= i < |Split(text)| :: OneLine(Split(text)[i])
    decreases |text|
  {
    if text != [] { LinesHaveNoNewline(text[..|text| - 1]); }
  }

  lemma {:induction false} SplitJoin(lines: seq<Text>)
    requires lines != [] && forall i | 0 <= i < |lines| :: OneLine(lines[i])
    ensures Split(Join(lines)) == lines
    decreases |lines|
  {
    var n := |lines| - 1;
    var last := lines[n];
    SplitNothing();
    if n == 0 {
      SplitExtends([], last);
      assert [] + last == last;
    } else {
      SplitJoin(lines[..n]);
      var before := Join(lines[..n]);
      SplitEnds(before);
      SplitExtends(before + [NEWLINE], last);
      assert lines == lines[..n] + [[] + last];
    }
  }

  /** For any fragments of the file, the streamed answer is TruncateHead of the selected lines. */
  method StreamAndBatch(fragments: seq<Text>, offset: int, limit: Limit, options: Options)
    returns (streamed: Truncation, batch: Truncation)
    requires WellCut(fragments) && Wants(limit)
    requires StartLine(offset) < |Split(Concat(fragments))|
    ensures streamed == batch
            && IsTruncation(Chosen(Split(Concat(fragments)), StartLine(offset), limit), Normalize(options), batch)
  {
    hide Split, IsTruncation;
    var r := ReadText(fragments, offset, limit, options);
    streamed := r.summary;
    var lines := Split(Concat(fragments));
    var chosen := Chosen(lines, StartLine(offset), limit);
    LinesHaveNoNewline(Concat(fragments));
    SplitJoin(chosen);
    batch := TruncateHead(Join(chosen), options);
    TruncationIsUnique(chosen, Normalize(options), streamed, batch);
  }

  // ----- reading on -----

  // When no line is too long, every read shows at least one line.
  lemma ShowsSomething(lines: seq<Text>, start: nat, limit: Limit, o: Options, r: Truncation)
    requires start < |lines| && Wants(limit) && o.maxLines > 0 && o.maxBytes > 0
    requires forall i | 0 <= i < |lines| :: |lines[i]| <= o.maxBytes
    requires IsTruncation(Chosen(lines, start, limit), o, r)
    ensures 0 < |r.output| <= |lines| - start && r.output == lines[start..start + |r.output|]
  {
    var chosen := Chosen(lines, start, limit);
    assert chosen[..1] == [lines[start]];
  }

  /** Reading on from every advertised offset ends, and shows every line of the file once, in order. */
  method ReadAll(fragments: seq<Text>, limit: Limit, options: Options) returns (shown: seq<Text>)
    requires WellCut(fragments) && Wants(limit)
    requires forall i | 0 <= i < |Split(Concat(fragments))| ::
             |Split(Concat(fragments))[i]| <= Normalize(options).maxBytes
    ensures shown == Split(Concat(fragments))
  {
    hide Split, IsTruncation, Chosen;
    ghost var lines := Split(Concat(fragments));
    shown := [];
    var offset := 1;
    while true
      invariant offset == |shown| + 1 && |shown| < |lines| && shown == lines[..|shown|]
      decreases |lines| - |shown|
    {
      var r := ReadText(fragments, offset, limit, options);
      ShowsSomething(lines, |shown|, limit, Normalize(options), r.summary);
      assert lines[..|shown|] + lines[|shown|..|shown| + |r.summary.output|] == lines[..|shown| + |r.summary.output|];
      shown := shown + r.summary.output;
      if r.next.NoMore? {
        assert lines[..|lines|] == lines;
        return;
      }
      offset := r.next.line;
    }
  }
}
