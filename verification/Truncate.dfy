/** Cutting text at a line limit and a byte limit without showing part of a line
    (contrib/codingtools/truncate.go).
 */
module Truncate {

  type Text = seq<bv8>

  const NEWLINE: bv8 := 10

  // ----- lines -----

  /** strings.Split(text, "\n"): there is always at least one line. */
  function Split(text: Text): (lines: seq<Text>)
    ensures |lines| >= 1
    decreases |text|
  {
    if text == [] then [[]]
    else
      var n := |text| - 1;
      var before := Split(text[..n]);
      if text[n] == NEWLINE then before + [[]]
      else before[..|before| - 1] + [before[|before| - 1] + [text[n]]]
  }

  /** strings.Join(lines, "\n") */
  function Join(lines: seq<Text>): Text {
    if lines == [] then []
    else if |lines| == 1 then lines[0]
    else Join(lines[..|lines| - 1]) + [NEWLINE] + lines[|lines| - 1]
  }

  /** The length of the joined lines. */
  function Size(lines: seq<Text>): nat {
    if lines == [] then 0
    else if |lines| == 1 then |lines[0]|
    else Size(lines[..|lines| - 1]) + 1 + |lines[|lines| - 1]|
  }

  lemma {:induction false} JoinSize(lines: seq<Text>)
    ensures |Join(lines)| == Size(lines)
  {
    if |lines| > 1 { JoinSize(lines[..|lines| - 1]); }
  }

  lemma JoinAppends(lines: seq<Text>, x: Text)
    ensures Join(lines + [x]) == if lines == [] then x else Join(lines) + [NEWLINE] + x
  {
    assert (lines + [x])[..|lines|] == lines;
  }

  lemma JoinOne(x: Text)
    ensures Join([x]) == x
  {
  }

  lemma {:induction false} JoinSplit(text: Text)
    ensures Join(Split(text)) == text
    decreases |text|
  {
    hide Join;
    JoinOne([]);
    if text != [] {
      var n := |text| - 1;
      var before := Split(text[..n]);
      JoinSplit(text[..n]);
      assert text == text[..n] + [text[n]];
      if text[n] == NEWLINE {
        JoinAppends(before, []);
        assert Join(before) + [NEWLINE] + [] == Join(before) + [NEWLINE];
      } else {
        JoinGrows(before, text[n]);
      }
    }
  }

  // One more byte on the last line is one more byte of the text.
  lemma JoinGrows(lines: seq<Text>, b: bv8)
    requires lines != []
    ensures Join(lines[..|lines| - 1] + [lines[|lines| - 1] + [b]]) == Join(lines) + [b]
  {
    hide Join;
    var init, last := lines[..|lines| - 1], lines[|lines| - 1];
    assert lines == init + [last];
    JoinAppends(init, last);
    JoinAppends(init, last + [b]);
    Regroup(Join(init) + [NEWLINE], last, [b]);
  }

  lemma Regroup(a: Text, b: Text, c: Text)
    ensures a + (b + c) == (a + b) + c
  {
  }

  lemma SizeAppends(lines: seq<Text>, x: Text)
    ensures Size(lines + [x]) == if lines == [] then |x| else Size(lines) + 1 + |x|
  {
    assert (lines + [x])[..|lines|] == lines;
  }

  lemma {:induction false} SizeGrows(lines: seq<Text>, j: nat, k: nat)
    requires j <= k <= |lines|
    ensures Size(lines[..j]) <= Size(lines[..k])
    decreases k
  {
    if j < k {
      SizeGrows(lines, j, k - 1);
      assert lines[..k][..k - 1] == lines[..k - 1];
    }
  }

  // ----- what truncating means -----

  datatype Options = Options(maxLines: int, maxBytes: int)

  const DEFAULT_MAX_LINES := 2000
  const DEFAULT_MAX_BYTES := 51200

  /** normalizeTruncationOptions */
  function Normalize(o: Options): (r: Options)
    ensures r.maxLines > 0 && r.maxBytes > 0
    ensures r.maxLines == o.maxLines || (o.maxLines <= 0 && r.maxLines == 2000)
    ensures r.maxBytes == o.maxBytes || (o.maxBytes <= 0 && r.maxBytes == 50 * 1024)
  {
    Options(if o.maxLines <= 0 then DEFAULT_MAX_LINES else o.maxLines,
            if o.maxBytes <= 0 then DEFAULT_MAX_BYTES else o.maxBytes)
  }

  datatype Reason = NotTruncated | ByLines | ByBytes

  datatype Truncation = Truncation(
    output: seq<Text>, truncatedBy: Reason, totalLines: nat, totalBytes: nat, outputBytes: nat,
        firstLineExceedsLimit: bool)

  /** The first k lines fit under both limits. */
  predicate Fits(lines: seq<Text>, o: Options, k: nat)
    requires k <= |lines|
  {
    k <= o.maxLines && Size(lines[..k]) <= o.maxBytes
  }

  /** The longest prefix of whole lines that fits, and why it is no longer. */
  ghost predicate IsTruncation(lines: seq<Text>, o: Options, r: Truncation) {
    var k := |r.output|;
    && k <= |lines| && r.output == lines[..k] && Fits(lines, o, k)
    && (k < |lines| ==> !Fits(lines, o, k + 1))
    && r.truncatedBy == (if k == |lines| then NotTruncated else if k == o.maxLines then ByLines else ByBytes)
    && r.totalLines == |lines| && r.totalBytes == Size(lines) && r.outputBytes == Size(r.output)
    && (r.firstLineExceedsLimit <==> k == 0 && |lines| > 0)
  }

  /** A truncation in terms of the text that is shown: whole lines from the start, under both limits,
      and one line more would break a limit. */
  lemma TruncationShows(lines: seq<Text>, o: Options, r: Truncation)
    requires IsTruncation(lines, o, r)
    ensures var k := |r.output|;
            && r.output <= lines && k <= o.maxLines && |Join(r.output)| <= o.maxBytes
            && r.outputBytes == |Join(r.output)| && r.totalBytes == |Join(lines)| && r.totalLines == |lines|
            && (k < |lines| ==> k + 1 > o.maxLines || |Join(lines[..k + 1])| > o.maxBytes)
            && (r.truncatedBy == NotTruncated <==> r.output == lines)
            && (r.truncatedBy == ByLines <==> k < |lines| && k == o.maxLines)
            && (r.firstLineExceedsLimit && o.maxLines > 0 ==> lines != [] && |lines[0]| > o.maxBytes)
  {
    hide Join, Size;
    var k := |r.output|;
    JoinSize(r.output);
    JoinSize(lines);
    if k < |lines| { JoinSize(lines[..k + 1]); }
    if lines != [] {
      assert lines[..1] == [lines[0]];
      JoinOne(lines[0]);
    }
  }

  lemma FitsShorter(lines: seq<Text>, o: Options, j: nat, k: nat)
    requires j <= k <= |lines| && Fits(lines, o, k)
    ensures Fits(lines, o, j)
  {
    SizeGrows(lines, j, k);
  }

  // There is only one truncation of given lines.
  lemma TruncationIsUnique(lines: seq<Text>, o: Options, a: Truncation, b: Truncation)
    requires IsTruncation(lines, o, a) && IsTruncation(lines, o, b)
    ensures a == b
  {
    var j, k := |a.output|, |b.output|;
    if j < k { FitsShorter(lines, o, j + 1, k); }
    if k < j { FitsShorter(lines, o, k + 1, j); }
  }

  /** TruncateHead */
  method TruncateHead(content: Text, options: Options) returns (r: Truncation)
    ensures IsTruncation(Split(content), Normalize(options), r)
  {
    hide Split, Join, Size;
    var o := Normalize(options);
    var lines := Split(content);
    JoinSplit(content);
    JoinSize(lines);
    assert lines[..|lines|] == lines;
    if |lines| <= o.maxLines && |content| <= o.maxBytes {
      return Truncation(lines, NotTruncated, |lines|, |content|, |content|, false);
    }
    SizeAppends([], lines[0]);
    assert lines[..1] == [] + [lines[0]] && lines[..0] == [];
    SizeOfNothing();
    if |lines[0]| > o.maxBytes {
      return Truncation([], ByBytes, |lines|, |content|, 0, true);
    }
    var output, bytes, cause := [], 0, ByLines;
    var i := 0;
    while i < |lines| && i < o.maxLines
      invariant 0 <= i <= |lines| && i <= o.maxLines && output == lines[..i] && bytes == Size(output) <= o.maxBytes
      invariant cause == ByLines
    {
      var lineBytes := |lines[i]| + if i > 0 then 1 else 0;
      SizeAppends(output, lines[i]);
      assert lines[..i + 1] == lines[..i] + [lines[i]];
      if bytes + lineBytes > o.maxBytes {
        cause := ByBytes;
        break;
      }
      output := output + [lines[i]];
      bytes := bytes + lineBytes;
      i := i + 1;
    }
    if |output| >= o.maxLines && bytes <= o.maxBytes {
      cause := ByLines;
    }
    JoinSize(output);
    return Truncation(output, cause, |lines|, |content|, |Join(output)|, false);
  }

  lemma SizeOfNothing()
    ensures Size([]) == 0
  {
  }

  // One more line: it is shown when everything before it is shown and it still fits.
  lemma TruncationExtends(lines: seq<Text>, o: Options, r: Truncation, x: Text)
    requires IsTruncation(lines, o, r) && o.maxLines > 0 && o.maxBytes > 0
    ensures var fits := r.output == lines && |lines| < o.maxLines && Size(lines + [x]) <= o.maxBytes;
            var output := if fits then r.output + [x] else r.output;
            IsTruncation(lines + [x], o, Truncation(
              output,
              if fits then NotTruncated else if r.truncatedBy != NotTruncated then r.truncatedBy
              else if |lines| == o.maxLines then ByLines else ByBytes,
              |lines| + 1, Size(lines + [x]), Size(output),
              if lines == [] then !fits else r.firstLineExceedsLimit))
  {
    hide Size, IsTruncation;
    if r.output == lines && |lines| < o.maxLines && Size(lines + [x]) <= o.maxBytes {
      ShowsLast(lines, o, r, x);
    } else {
      HidesLast(lines, o, r, x);
    }
  }

  lemma ShowsLast(lines: seq<Text>, o: Options, r: Truncation, x: Text)
    requires IsTruncation(lines, o, r) && r.output == lines && |lines| < o.maxLines && Size(lines + [x]) <= o.maxBytes
    ensures IsTruncation(lines + [x], o,
              Truncation(r.output + [x], NotTruncated, |lines| + 1, Size(lines + [x]), Size(r.output + [x]),
                         if lines == [] then false else r.firstLineExceedsLimit))
  {
    hide Size;
    var all := lines + [x];
    assert all[..|all|] == all;
  }

  lemma HidesLast(lines: seq<Text>, o: Options, r: Truncation, x: Text)
    requires IsTruncation(lines, o, r) && o.maxLines > 0
    requires !(r.output == lines && |lines| < o.maxLines && Size(lines + [x]) <= o.maxBytes)
    ensures IsTruncation(lines + [x], o,
              Truncation(r.output,
                         if r.truncatedBy != NotTruncated then r.truncatedBy
                         else if |lines| == o.maxLines then ByLines else ByBytes,
                         |lines| + 1, Size(lines + [x]), Size(r.output),
                         if lines == [] then true else r.firstLineExceedsLimit))
  {
    hide Size, Fits;
    var all, k := lines + [x], |r.output|;
    assert all[..k] == lines[..k];
    FitsPrefix(lines, x, o, k);
    if k < |lines| {
      FitsPrefix(lines, x, o, k + 1);
    } else {
      assert lines[..k] == lines;
      DoesNotFit(lines, x, o);
    }
  }

  lemma FitsPrefix(lines: seq<Text>, x: Text, o: Options, k: nat)
    requires k <= |lines|
    ensures Fits(lines + [x], o, k) <==> Fits(lines, o, k)
  {
    hide Size;
    assert (lines + [x])[..k] == lines[..k];
  }

  lemma DoesNotFit(lines: seq<Text>, x: Text, o: Options)
    requires Fits(lines, o, |lines|) && !(|lines| < o.maxLines && Size(lines + [x]) <= o.maxBytes)
    ensures !Fits(lines + [x], o, |lines| + 1) && |lines| <= o.maxLines
  {
    hide Size;
    assert (lines + [x])[..|lines| + 1] == lines + [x];
  }
}
