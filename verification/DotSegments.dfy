/** Removing "." and ".." from a URL path (network/network.go): a one-pass stack of segments against
    the two-buffer algorithm of section 5.2.4 of RFC 3986.
 */
module DotSegments {

  predicate NoSlash(s: string) { '/' !in s }

  // ----- the algorithm of the RFC, on strings -----

  /** The length of the first path segment of the input, with the slash it starts with. */
  function SegmentEnd(input: string, from: nat): nat
    requires from <= |input|
    decreases |input| - from
  {
    if from == |input| || input[from] == '/' then from else SegmentEnd(input, from + 1)
  }

  lemma {:induction false} SegmentEndBounds(input: string, from: nat)
    requires from <= |input|
    ensures from <= SegmentEnd(input, from) <= |input|
    decreases |input| - from
  {
    if from < |input| && input[from] != '/' { SegmentEndBounds(input, from + 1); }
  }

  /** Drop the last segment of the output and the slash before it, if any. */
  function DropLast(output: string): string {
    if output == "" then ""
    else if output[|output| - 1] == '/' then output[..|output| - 1]
    else DropLast(output[..|output| - 1])
  }

  /** remove_dot_segments of section 5.2.4; the letters are those of its steps. */
  function Rfc(input: string, output: string): string
    decreases |input|
  {
    if input == "" then output
    else if "../" <= input then Rfc(input[3..], output)                           // A
    else if "./" <= input then Rfc(input[2..], output)                            // A
    else if "/./" <= input then Rfc(input[2..], output)                           // B
    else if input == "/." then Rfc("/", output)                                   // B
    else if "/../" <= input then Rfc(input[3..], DropLast(output))                // C
    else if input == "/.." then Rfc("/", DropLast(output))                        // C
    else if input == "." || input == ".." then Rfc("", output)                    // D
    else
      SegmentEndBounds(input, 1);
      var n := SegmentEnd(input, 1);
      Rfc(input[n..], output + input[..n])                                        // E
  }

  // ----- segments -----

  /** Every segment after its slash. */
  function Render(segments: seq<string>): string {
    if segments == [] then "" else "/" + segments[0] + Render(segments[1..])
  }

  /** strings.Split(text, "/") */
  function Split(text: string): (segments: seq<string>)
    ensures |segments| >= 1
  {
    if text == "" then [""]
    else
      var rest := Split(text[1..]);
      if text[0] == '/' then [""] + rest else [[text[0]] + rest[0]] + rest[1..]
  }

  lemma SplitParts(text: string)
    ensures Render(Split(text)) == "/" + text && Segments(Split(text))
  {
    SplitRenders(text);
    SplitAtSlashes(text);
  }

  lemma {:induction false} SplitAtSlashes(text: string)
    ensures Segments(Split(text))
    decreases |text|
  {
    if text != "" { SplitAtSlashes(text[1..]); }
  }

  lemma {:induction false} SplitRenders(text: string)
    ensures Render(Split(text)) == "/" + text
    decreases |text|
  {
    hide Render;
    if text == "" {
      RenderOne("");
    } else {
      var rest := Split(text[1..]);
      SplitRenders(text[1..]);
      Leading(rest);
      Leading(Split(text));
      assert text == [text[0]] + text[1..];
      if text[0] == '/' {
        assert Split(text)[1..] == rest;
        assert "/" + "" + Render(rest) == "/" + Render(rest);
      } else {
        assert Split(text)[1..] == rest[1..];
        MoveSlash(text[0], rest[0], Render(rest[1..]), text[1..]);
      }
    }
  }

  lemma MoveSlash(c: char, first: string, rest: string, text: string)
    requires "/" + first + rest == "/" + text
    ensures "/" + ([c] + first) + rest == "/" + ([c] + text)
  {
    assert ("/" + first + rest)[1..] == first + rest && ("/" + text)[1..] == text;
    assert "/" + ([c] + first) + rest == "/" + ([c] + (first + rest));
  }

  /** strings.Join(segments, "/") */
  function Join(segments: seq<string>): string {
    if segments == [] then "" else if |segments| == 1 then segments[0] else segments[0] + "/" + Join(segments[1..])
  }

  lemma {:induction false} JoinRenders(segments: seq<string>)
    requires segments != []
    ensures "/" + Join(segments) == Render(segments)
    decreases |segments|
  {
    if |segments| == 1 {
      assert segments[1..] == [];
    } else {
      JoinRenders(segments[1..]);
      assert "/" + (segments[0] + "/" + Join(segments[1..])) == "/" + segments[0] + ("/" + Join(segments[1..]));
    }
  }

  lemma {:induction false} RenderAppends(a: seq<string>, b: seq<string>)
    ensures Render(a + b) == Render(a) + Render(b)
    decreases |a|
  {
    if a == [] {
      assert a + b == b;
    } else {
      assert (a + b)[1..] == a[1..] + b;
      RenderAppends(a[1..], b);
      assert "/" + a[0] + (Render(a[1..]) + Render(b)) == ("/" + a[0] + Render(a[1..])) + Render(b);
    }
  }

  // Dropping the last segment of rendered output is dropping the last segment.
  lemma {:induction false} DropLastScans(before: string, s: string)
    requires NoSlash(s)
    ensures DropLast(before + "/" + s) == before
    decreases |s|
  {
    var all := before + "/" + s;
    if s == "" {
      assert all[..|all| - 1] == before;
    } else {
      var n := |s| - 1;
      assert s[n] in s;
      DropLastScans(before, s[..n]);
      assert all[..|all| - 1] == before + "/" + s[..n];
    }
  }

  lemma RenderOne(s: string)
    ensures Render([s]) == "/" + s && Render([]) == ""
  {
    assert [s][1..] == [];
    assert "/" + s + "" == "/" + s;
  }

  function Popped(out: seq<string>): seq<string> {
    if out == [] then [] else out[..|out| - 1]
  }

  lemma DropLastRenders(out: seq<string>)
    requires forall i | 0 <= i < |out| :: NoSlash(out[i])
    ensures DropLast(Render(out)) == Render(Popped(out))
  {
    hide Render, DropLast, NoSlash;
    if out == [] {
      RenderOne("");
      DropNothing();
    } else {
      var init, last := out[..|out| - 1], out[|out| - 1];
      assert out == init + [last];
      DropsLast(init, last);
    }
  }

  lemma DropsLast(init: seq<string>, last: string)
    requires NoSlash(last)
    ensures DropLast(Render(init + [last])) == Render(init)
  {
    hide Render, DropLast, NoSlash;
    RenderLast(init, last);
    DropLastScans(Render(init), last);
  }

  lemma RenderLast(init: seq<string>, last: string)
    ensures Render(init + [last]) == Render(init) + "/" + last
  {
    hide Render;
    RenderAppends(init, [last]);
    RenderOne(last);
    assert Render(init) + ("/" + last) == Render(init) + "/" + last;
  }

  lemma DropNothing()
    ensures DropLast("") == ""
  {
  }

  // The first segment of a rendered input ends where the next slash is.
  lemma {:induction false} SegmentEndScans(s: string, rest: string, from: nat)
    requires NoSlash(s) && (rest == "" || rest[0] == '/') && 1 <= from <= |s| + 1
    ensures SegmentEnd("/" + s + rest, from) == |s| + 1
    decreases |s| + 1 - from
  {
    var input := "/" + s + rest;
    if from <= |s| {
      assert input[from] == s[from - 1] && s[from - 1] in s;
      SegmentEndScans(s, rest, from + 1);
    } else {
      assert rest != "" ==> input[from] == rest[0];
    }
  }

  // ----- one segment at a time -----

  predicate IsDot(s: string) { s == "." || s == ".." }

  /** The stack after one segment that is not the last. */
  function Pushed(out: seq<string>, s: string): seq<string> {
    if s == "." then out else if s == ".." then Popped(out) else out + [s]
  }

  predicate Segments(segments: seq<string>) {
    forall i | 0 <= i < |segments| :: NoSlash(segments[i])
  }

  // A rendered input starts with a slash and its first segment.
  lemma Leading(segments: seq<string>)
    ensures segments != [] ==>
              && Render(segments) != "" && Render(segments)[0] == '/'
              && Render(segments) == "/" + segments[0] + Render(segments[1..])
    ensures segments == [] ==> Render(segments) == ""
  {
  }

  // Steps B and C see a dot segment exactly where there is one.
  lemma WhichStep(s: string, rest: string)
    requires NoSlash(s) && (rest == "" || rest[0] == '/')
    ensures var input := "/" + s + rest;
            && !("../" <= input) && !("./" <= input) && input != "." && input != ".."
            && ("/./" <= input <==> s == "." && rest != "") && (input == "/." <==> s == "." && rest == "")
            && ("/../" <= input <==> s == ".." && rest != "") && (input == "/.." <==> s == ".." && rest == "")
  {
    var input := "/" + s + rest;
    assert input[0] == '/' && |input| == 1 + |s| + |rest|;
    assert forall i | 0 <= i < |s| :: input[i + 1] == s[i] && s[i] in s;
    assert rest != "" ==> input[|s| + 1] == '/';
    assert "/./" <= input ==> input[..3] == "/./";
    assert "/../" <= input ==> input[..4] == "/../";
    assert s == "." && rest != "" ==> input[..3] == "/./";
    assert s == ".." && rest != "" ==> input[..4] == "/../";
    if "/./" <= input { assert input[1] == '.' && input[2] == '/'; assert s == "."; }
    if "/../" <= input { assert input[1] == '.' && input[2] == '.' && input[3] == '/'; assert s == ".."; }
    if input == "/." { assert input[1] == '.'; }
    if input == "/.." { assert input[1] == '.' && input[2] == '.'; }
  }

  // What the RFC does with one segment of its input.
  lemma RfcStep(s: string, rest: seq<string>, out: seq<string>)
    requires NoSlash(s) && Segments(rest) && Segments(out)
    ensures Rfc(Render([s] + rest), Render(out)) ==
            if rest == [] && IsDot(s) then Render(Pushed(out, s) + [""])
            else Rfc(Render(rest), Render(Pushed(out, s)))
  {
    hide Render, SegmentEnd, DropLast;
    var tail := Render(rest);
    Leading([s] + rest);
    Leading(rest);
    assert ([s] + rest)[1..] == rest;
    var input := "/" + s + tail;
    WhichStep(s, tail);
    DropLastRenders(out);
    if IsDot(s) {
      assert input[|s| + 1..] == tail;
      if rest == [] {
        RfcSlash(Pushed(out, s));
      }
    } else {
      SegmentEndScans(s, tail, 1);
      assert input[|s| + 1..] == tail && input[..|s| + 1] == "/" + s;
      RenderAppends(out, [s]);
      RenderOne(s);
    }
  }

  // A lone slash becomes an empty last segment.
  lemma RfcSlash(out: seq<string>)
    ensures Rfc("/", Render(out)) == Render(out + [""])
  {
    SegmentEndScans("", "", 1);
    assert "/" + "" + "" == "/";
    assert "/"[1..] == "" && "/"[..1] == "/";
    RenderAppends(out, [""]);
    RenderOne("");
  }

  /** removeDotSegments */
  method RemoveDotSegments(escaped: string) returns (r: string)
    ensures r == if "/" <= escaped then Rfc(escaped, "") else escaped
  {
    hide Rfc, Render, Split, Join;
    if !("/" <= escaped) {
      return escaped;
    }
    var segments := Split(escaped[1..]);
    SplitParts(escaped[1..]);
    assert escaped == "/" + escaped[1..];
    var out: seq<string> := [];
    Leading([]);
    var i := 0;
    assert segments[0..] == segments;
    while i < |segments|
      invariant 0 <= i <= |segments| && Segments(out) && Segments(segments)
      invariant i < |segments| ==> Rfc(escaped, "") == Rfc(Render(segments[i..]), Render(out))
      invariant i == |segments| ==> Rfc(escaped, "") == Render(out) && out != []
    {
      var segment := segments[i];
      var last := i == |segments| - 1;
      assert segments[i..] == [segment] + segments[i + 1..];
      assert last ==> segments[i + 1..] == [];
      RfcStep(segment, segments[i + 1..], out);
      RfcDone(out + [segment]);
      i := i + 1;
      if segment == "." {
      } else if segment == ".." {
        if |out| > 0 {
          out := out[..|out| - 1];
        }
      } else {
        out := out + [segment];
        continue;
      }
      if last {
        out := out + [""];
      }
    }
    JoinRenders(out);
    return "/" + Join(out);
  }

  lemma RfcDone(out: seq<string>)
    ensures Rfc(Render([]), Render(out)) == Render(out)
  {
  }

  // ----- the result -----

  /** The segments of the result. */
  function Resolved(segments: seq<string>, out: seq<string>): seq<string> {
    if segments == [] then out
    else if |segments| == 1 && IsDot(segments[0]) then Pushed(out, segments[0]) + [""]
    else Resolved(segments[1..], Pushed(out, segments[0]))
  }

  predicate NoDots(segments: seq<string>) {
    forall i | 0 <= i < |segments| :: !IsDot(segments[i])
  }

  lemma {:induction false} RfcResolves(segments: seq<string>, out: seq<string>)
    requires Segments(segments) && Segments(out) && NoDots(out)
    ensures Rfc(Render(segments), Render(out)) == Render(Resolved(segments, out))
    ensures Segments(Resolved(segments, out)) && NoDots(Resolved(segments, out))
    ensures segments != [] ==> Resolved(segments, out) != []
    decreases |segments|
  {
    hide Rfc, Render;
    if segments == [] {
      RfcDone(out);
    } else {
      assert segments == [segments[0]] + segments[1..];
      RfcStep(segments[0], segments[1..], out);
      if !(|segments| == 1 && IsDot(segments[0])) {
        RfcResolves(segments[1..], Pushed(out, segments[0]));
        assert |segments| == 1 ==> segments[1..] == [];
      }
    }
  }

  lemma {:induction false} NothingToResolve(segments: seq<string>, out: seq<string>)
    requires NoDots(segments)
    ensures Resolved(segments, out) == out + segments
    decreases |segments|
  {
    if segments == [] {
      assert out + [] == out;
    } else {
      NothingToResolve(segments[1..], out + [segments[0]]);
      assert out + [segments[0]] + segments[1..] == out + segments;
    }
  }

  // Splitting undoes rendering.
  lemma {:induction false} SplitSegment(s: string, text: string)
    requires NoSlash(s)
    ensures Split(s) == [s] && Split(s + "/" + text) == [s] + Split(text)
    decreases |s|
  {
    var all := s + "/" + text;
    if s == "" {
      assert all[1..] == text && all[0] == '/';
    } else {
      assert s[0] in s;
      SplitSegment(s[1..], text);
      assert all[1..] == s[1..] + "/" + text && [s[0]] + s[1..] == s;
    }
  }

  lemma {:induction false} SplitJoin(segments: seq<string>)
    requires Segments(segments) && segments != []
    ensures Split(Join(segments)) == segments
    decreases |segments|
  {
    hide Split, NoSlash;
    var first, rest := segments[0], segments[1..];
    if rest == [] {
      SplitSegment(first, "");
      assert segments == [first];
    } else {
      SplitJoin(rest);
      SplitSegment(first, Join(rest));
      assert segments == [first] + rest;
    }
  }

  lemma SplitRender(segments: seq<string>)
    requires Segments(segments) && segments != []
    ensures Render(segments) != "" && Split(Render(segments)[1..]) == segments
  {
    hide Split, Render, Join;
    JoinRenders(segments);
    SplitJoin(segments);
    assert Render(segments)[1..] == Join(segments);
  }

  /** The result of an absolute path is absolute, has no "." or ".." segment, and is left alone by
      a second pass. */
  lemma RemovesAllDots(escaped: string)
    requires "/" <= escaped
    ensures var r := Rfc(escaped, "");
            && "/" <= r && NoDots(Split(r[1..])) && Rfc(r, "") == r
  {
    hide Rfc, Render, Split, Resolved;
    var segments := Split(escaped[1..]);
    SplitParts(escaped[1..]);
    assert escaped == "/" + escaped[1..];
    Leading([]);
    RfcResolves(segments, []);
    var result := Resolved(segments, []);
    Leading(result);
    RfcResolves(result, []);
    NothingToResolve(result, []);
    assert [] + result == result;
    SplitRender(result);
  }

  // ----- what removing means -----

  /** The stack after segments of which none is the last. */
  function PushedAll(segments: seq<string>, out: seq<string>): seq<string>
    decreases |segments|
  {
    if segments == [] then out else PushedAll(segments[1..], Pushed(out, segments[0]))
  }

  lemma {:induction false} ResolvedSplits(a: seq<string>, b: seq<string>, out: seq<string>)
    requires b != []
    ensures Resolved(a + b, out) == Resolved(b, PushedAll(a, out))
    decreases |a|
  {
    if a == [] {
      assert a + b == b;
    } else {
      assert (a + b)[0] == a[0] && (a + b)[1..] == a[1..] + b;
      ResolvedSplits(a[1..], b, Pushed(out, a[0]));
    }
  }

  // What the RFC makes of a path is what the stack makes of its segments.
  lemma OfSegments(segments: seq<string>)
    requires Segments(segments)
    ensures Rfc(Render(segments), "") == Render(Resolved(segments, []))
  {
    hide Rfc, Render, Resolved;
    Leading([]);
    RfcResolves(segments, []);
  }

  // A segment and the ".." after it leave the stack as it was.
  lemma PairResolves(s: string, b: seq<string>, out: seq<string>)
    requires !IsDot(s) && b != []
    ensures Resolved([s, ".."] + b, out) == Resolved(b, out)
  {
    ResolvedSplits([s, ".."], b, out);
    assert [s, ".."][1..] == [".."] && [".."][1..] == [];
    assert PushedAll([s, ".."], out) == Popped(out + [s]) == out;
  }

  /** A segment followed by ".." cancels wherever it stands. */
  lemma DotDotCancels(a: seq<string>, s: string, b: seq<string>)
    requires Segments(a) && NoSlash(s) && !IsDot(s) && Segments(b) && b != []
    ensures Rfc(Render(a + [s, ".."] + b), "") == Rfc(Render(a + b), "")
  {
    hide Rfc, Render, Resolved, PushedAll, NoSlash, IsDot;
    var pair := [s, ".."];
    assert Segments(pair) by { DotDotHasNoSlash(); }
    assert a + pair + b == a + (pair + b);
    OfSegments(a + pair + b);
    OfSegments(a + b);
    ResolvedSplits(a, pair + b, []);
    ResolvedSplits(a, b, []);
    PairResolves(s, b, PushedAll(a, []));
  }

  lemma DotDotHasNoSlash()
    ensures NoSlash("..") && NoSlash(".") && NoSlash("")
  {
  }

  /** At the root ".." counts for nothing. */
  lemma DotDotAtRoot(b: seq<string>)
    requires Segments(b) && b != []
    ensures Rfc(Render([".."] + b), "") == Rfc(Render(b), "")
  {
    hide Rfc, Render, NoSlash;
    DotDotHasNoSlash();
    OfSegments([".."] + b);
    OfSegments(b);
    assert ([".."] + b)[1..] == b;
  }

  /** "." counts for nothing wherever it stands. */
  lemma DotVanishes(a: seq<string>, b: seq<string>)
    requires Segments(a) && Segments(b) && b != []
    ensures Rfc(Render(a + ["."] + b), "") == Rfc(Render(a + b), "")
  {
    hide Rfc, Render;
    OfSegments(a + ["."] + b);
    OfSegments(a + b);
    assert a + ["."] + b == a + (["."] + b);
    ResolvedSplits(a, ["."] + b, []);
    ResolvedSplits(a, b, []);
    ResolvedSplits(["."], b, PushedAll(a, []));
    assert ["."][1..] == [];
  }

  /** At the end of a path a dot segment leaves a slash behind. */
  lemma DotAtEnd(a: seq<string>, dot: string)
    requires Segments(a) && IsDot(dot)
    ensures Rfc(Render(a + [dot]), "") == Rfc(Render(a + [dot, ""]), "")
  {
    hide Rfc, Render;
    OfSegments(a + [dot]);
    OfSegments(a + [dot, ""]);
    assert a + [dot, ""] == a + ([dot] + [""]);
    ResolvedSplits(a, [dot], []);
    ResolvedSplits(a, [dot] + [""], []);
    ResolvedSplits([dot], [""], PushedAll(a, []));
    assert [dot][1..] == [] && [""][1..] == [];
  }

  /** A path without dot segments is left as it is. */
  lemma NothingToRemove(segments: seq<string>)
    requires Segments(segments) && NoDots(segments)
    ensures Rfc(Render(segments), "") == Render(segments)
  {
    hide Rfc, Render;
    OfSegments(segments);
    NothingToResolve(segments, []);
    assert [] + segments == segments;
  }
}
