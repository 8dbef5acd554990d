/** The edit tool's line-ending bookkeeping (contrib/codingtools/edit_diff.go and the splice in
    contrib/codingtools/toolset.go).

    A text is a list of units: a byte, or one of the three line endings. Normalizing writes every
    ending as LF. The code finds the match in the normalized text, maps it back to the file and
    writes the replacement with the file's own endings; the model says which bytes change, and
    exactly when the new file normalizes to the text that was asked for.
 */
module EditDiff {

  type Text = seq<bv8>

  const CR: bv8 := 13
  const LF: bv8 := 10

  datatype Unit = Plain(b: bv8) | EndLF | EndCR | EndCRLF

  predicate IsEnding(u: Unit) { !u.Plain? }

  function Bytes(u: Unit): (t: Text)
    ensures |t| >= 1
  {
    match u
    case Plain(b) => [b]
    case EndLF => [LF]
    case EndCR => [CR]
    case EndCRLF => [CR, LF]
  }

  function Flat(u: Unit): bv8 {
    if u.Plain? then u.b else LF
  }

  function Render(units: seq<Unit>): Text {
    if units == [] then [] else Bytes(units[0]) + Render(units[1..])
  }

  /** The text with every ending written as LF. */
  function Flatten(units: seq<Unit>): Text {
    seq(|units|, i requires 0 <= i < |units| => Flat(units[i]))
  }

  /** No two units read as one: a bare CR is not followed by a bare LF. */
  predicate Apart(units: seq<Unit>) {
    forall i | 0 <= i < |units| - 1 :: !(units[i].EndCR? && units[i + 1].EndLF?)
  }

  /** Bytes stand for themselves: CR and LF only occur in endings. */
  predicate Proper(units: seq<Unit>) {
    forall i | 0 <= i < |units| && units[i].Plain? :: units[i].b != CR && units[i].b != LF
  }

  // ----- reading a text -----

  function FirstUnit(text: Text): (u: Unit)
    requires text != []
    ensures |Bytes(u)| <= |text| && text[..|Bytes(u)|] == Bytes(u)
  {
    if text[0] == CR then if |text| > 1 && text[1] == LF then EndCRLF else EndCR
    else if text[0] == LF then EndLF
    else Plain(text[0])
  }

  function Parse(text: Text): seq<Unit>
    decreases |text|
  {
    if text == [] then [] else var u := FirstUnit(text); [u] + Parse(text[|Bytes(u)|..])
  }

  // A text and its units determine each other.
  lemma {:induction false} RenderParse(text: Text)
    ensures Render(Parse(text)) == text && Apart(Parse(text)) && Proper(Parse(text))
    decreases |text|
  {
    if text != [] {
      var u := FirstUnit(text);
      var rest := text[|Bytes(u)|..];
      RenderParse(rest);
      assert Parse(text)[1..] == Parse(rest);
      assert text == Bytes(u) + rest;
      if rest != [] { assert Parse(rest)[0] == FirstUnit(rest); }
    }
  }

  lemma {:induction false} ParseRender(units: seq<Unit>)
    requires Apart(units) && Proper(units)
    ensures Parse(Render(units)) == units
    decreases |units|
  {
    if units != [] {
      var rest := units[1..];
      ParseRender(rest);
      var text := Render(units);
      assert text[|Bytes(units[0])|..] == Render(rest);
      if rest != [] {
        assert Render(rest)[0] == Bytes(rest[0])[0];
        assert Render(rest) == Bytes(rest[0]) + Render(rest[1..]);
      }
      assert FirstUnit(text) == units[0];
    }
  }

  lemma {:induction false} RenderAppends(a: seq<Unit>, b: seq<Unit>)
    ensures Render(a + b) == Render(a) + Render(b)
    decreases |a|
  {
    if a == [] {
      assert a + b == b;
    } else {
      assert (a + b)[1..] == a[1..] + b;
      RenderAppends(a[1..], b);
    }
  }

  // Reading merges every bare CR with the bare LF after it, so glued units come out shorter.
  lemma {:induction false} GluedIsShorter(units: seq<Unit>)
    requires Proper(units)
    ensures |Parse(Render(units))| <= |units|
    ensures !Apart(units) ==> |Parse(Render(units))| < |units|
    decreases |units|
  {
    if units != [] {
      var rest := units[1..];
      GluedIsShorter(rest);
      var text := Render(units);
      assert text[|Bytes(units[0])|..] == Render(rest);
      if rest != [] && units[0].EndCR? && rest[0].EndLF? {
        GluedIsShorter(rest[1..]);
        assert text == [CR] + ([LF] + Render(rest[1..]));
        assert text[2..] == Render(rest[1..]);
      } else {
        if rest != [] { assert Render(rest)[0] == Bytes(rest[0])[0]; }
        assert FirstUnit(text) == units[0];
        assert Apart(rest) ==> Apart(units);
      }
    }
  }

  // ----- normalizeToLF -----

  /** strings.ReplaceAll with a non-empty pattern. */
  function ReplaceAll(text: Text, what: Text, other: Text): Text
    requires what != []
    decreases |text|
  {
    if text == [] then []
    else if what <= text then other + ReplaceAll(text[|what|..], what, other)
    else [text[0]] + ReplaceAll(text[1..], what, other)
  }

  function NormalizeToLF(text: Text): Text {
    ReplaceAll(ReplaceAll(text, [CR, LF], [LF]), [CR], [LF])
  }

  // The first pass shortens CRLF to LF and leaves the rest.
  lemma FirstPass(text: Text)
    requires text != []
    ensures var u := FirstUnit(text); var head := if u.EndCR? then CR else Flat(u);
            ReplaceAll(text, [CR, LF], [LF]) == [head] + ReplaceAll(text[|Bytes(u)|..], [CR, LF], [LF])
  {
    var u := FirstUnit(text);
    if u.EndCRLF? {
      assert [CR, LF] <= text;
    } else {
      assert !([CR, LF] <= text);
    }
  }

  // The second pass turns the remaining CRs into LFs.
  lemma SecondPass(head: bv8, rest: Text)
    ensures ReplaceAll([head] + rest, [CR], [LF]) == [if head == CR then LF else head] + ReplaceAll(rest, [CR], [LF])
  {
    var text := [head] + rest;
    assert text[1..] == rest;
    assert [CR] <= text ==> [CR][0] == text[0];
    assert head == CR ==> [CR] <= text;
  }

  // The two passes flatten the units.
  lemma {:induction false} NormalizeFlattens(text: Text)
    ensures NormalizeToLF(text) == Flatten(Parse(text))
    decreases |text|
  {
    if text != [] {
      var u := FirstUnit(text);
      var rest := text[|Bytes(u)|..];
      NormalizeFlattens(rest);
      FirstPass(text);
      SecondPass(if u.EndCR? then CR else Flat(u), ReplaceAll(rest, [CR, LF], [LF]));
      FlattenStep(u, Parse(rest));
    }
  }

  lemma FlattenStep(u: Unit, rest: seq<Unit>)
    ensures Flatten([u] + rest) == [Flat(u)] + Flatten(rest)
  {
  }

  /** Units normalize to their flattening exactly when none of them are glued. */
  lemma NormalizesIffApart(units: seq<Unit>)
    requires Proper(units)
    ensures NormalizeToLF(Render(units)) == Flatten(units) <==> Apart(units)
  {
    NormalizeFlattens(Render(units));
    if Apart(units) {
      ParseRender(units);
    } else {
      GluedIsShorter(units);
    }
  }

  // ----- normalizedOffsetMap -----

  /** Where the k-th unit of a text starts. */
  function OffsetOf(units: seq<Unit>, k: nat): nat
    requires k <= |units|
  {
    |Render(units[..k])|
  }

  lemma ParseStep(text: Text, i: nat, done: seq<Unit>)
    requires i < |text| && Parse(text) == done + Parse(text[i..]) && i == |Render(done)|
    ensures var u := FirstUnit(text[i..]);
            && i + |Bytes(u)| <= |text| && Parse(text) == (done + [u]) + Parse(text[i + |Bytes(u)|..])
            && i + |Bytes(u)| == |Render(done + [u])|
  {
    hide Render, Parse;
    var u := FirstUnit(text[i..]);
    ParseFirst(text[i..]);
    assert text[i..][|Bytes(u)|..] == text[i + |Bytes(u)|..];
    assert done + ([u] + Parse(text[i + |Bytes(u)|..])) == (done + [u]) + Parse(text[i + |Bytes(u)|..]);
    RenderAppends(done, [u]);
    RenderOne(u);
  }

  lemma ParseFirst(text: Text)
    requires text != []
    ensures var u := FirstUnit(text); Parse(text) == [u] + Parse(text[|Bytes(u)|..])
  {
  }

  method NormalizedOffsetMap(text: Text) returns (offsets: seq<nat>)
    ensures |offsets| == |Parse(text)| + 1
    ensures forall k | 0 <= k < |offsets| :: offsets[k] == OffsetOf(Parse(text), k)
  {
    hide Parse, Render;
    offsets := [0];
    var i := 0;
    ghost var done: seq<Unit> := [];
    ParseStart(text);
    while i < |text|
      invariant 0 <= i <= |text| && Parse(text) == done + Parse(text[i..]) && i == |Render(done)|
      invariant |offsets| == |done| + 1 && forall k | 0 <= k <= |done| :: offsets[k] == |Render(done[..k])|
    {
      ParseStep(text, i, done);
      ghost var u := FirstUnit(text[i..]);
      assert forall k | 0 <= k <= |done| :: (done + [u])[..k] == done[..k];
      assert (done + [u])[..|done| + 1] == done + [u];
      done := done + [u];
      if text[i] == CR && i + 1 < |text| && text[i + 1] == LF {
        i := i + 2;
      } else {
        i := i + 1;
      }
      offsets := offsets + [i];
    }
    assert text[i..] == [];
    assert Parse(text) == done;
  }

  lemma ParseStart(text: Text)
    ensures Parse(text[0..]) == Parse(text) && Parse([]) == [] && Render([]) == []
    ensures [] + Parse(text) == Parse(text)
    ensures forall d: seq<Unit> :: d + Parse([]) == d
  {
    assert text[0..] == text;
  }

  /** Every boundary of the normalized text is mapped to a cut whose two sides normalize to its
      two halves. */
  lemma OffsetCuts(text: Text, k: nat)
    requires k <= |Parse(text)|
    ensures var o, n := OffsetOf(Parse(text), k), NormalizeToLF(text);
            && o <= |text| && |n| == |Parse(text)|
            && text[..o] == Render(Parse(text)[..k]) && text[o..] == Render(Parse(text)[k..])
            && NormalizeToLF(text[..o]) == n[..k] && NormalizeToLF(text[o..]) == n[k..]
  {
    hide Parse, Render, NormalizeToLF, Flatten;
    var units := Parse(text);
    RenderParse(text);
    assert units == units[..k] + units[k..];
    RenderAppends(units[..k], units[k..]);
    NormalizeFlattens(text);
    NormalizesIffApart(units[..k]);
    NormalizesIffApart(units[k..]);
    FlattenSlices(units, k);
  }

  lemma FlattenSlices(units: seq<Unit>, k: nat)
    requires k <= |units|
    ensures |Flatten(units)| == |units|
    ensures Flatten(units[..k]) == Flatten(units)[..k] && Flatten(units[k..]) == Flatten(units)[k..]
  {
  }

  // ----- line endings -----

  function Endings(units: seq<Unit>): seq<Unit> {
    if units == [] then []
    else (if IsEnding(units[0]) then [units[0]] else []) + Endings(units[1..])
  }

  lemma {:induction false} EndingsAppends(a: seq<Unit>, b: seq<Unit>)
    ensures Endings(a + b) == Endings(a) + Endings(b)
    decreases |a|
  {
    if a == [] {
      assert a + b == b;
    } else {
      assert (a + b)[1..] == a[1..] + b && (a + b)[0] == a[0];
      EndingsAppends(a[1..], b);
      var first := if IsEnding(a[0]) then [a[0]] else [];
      assert first + (Endings(a[1..]) + Endings(b)) == (first + Endings(a[1..])) + Endings(b);
    }
  }

  method ExtractLineEndings(text: Text) returns (endings: seq<Unit>)
    ensures endings == Endings(Parse(text))
  {
    hide Parse, Render, Endings;
    endings := [];
    var i := 0;
    ghost var done: seq<Unit> := [];
    ParseStart(text);
    NoEndings();
    while i < |text|
      invariant 0 <= i <= |text| && Parse(text) == done + Parse(text[i..]) && i == |Render(done)|
      invariant endings == Endings(done)
    {
      ParseStep(text, i, done);
      ghost var u := FirstUnit(text[i..]);
      EndingsAppends(done, [u]);
      OneEnding(u);
      done := done + [u];
      if text[i] == CR {
        if i + 1 < |text| && text[i + 1] == LF {
          endings := endings + [EndCRLF];
          i := i + 2;
          continue;
        }
        endings := endings + [EndCR];
      } else if text[i] == LF {
        endings := endings + [EndLF];
      }
      i := i + 1;
    }
    assert text[i..] == [];
    assert Parse(text) == done;
  }

  lemma NoEndings()
    ensures Endings([]) == []
  {
  }

  lemma OneEnding(u: Unit)
    ensures Endings([u]) == if IsEnding(u) then [u] else []
  {
  }

  /** The ending for the n-th line break of a replacement: the original's n-th, then its last, then
      the file's. */
  function Pick(endings: seq<Unit>, fallback: Unit, n: nat): Unit {
    if n < |endings| then endings[n]
    else if |endings| > 0 then endings[|endings| - 1]
    else fallback
  }

  function Breaks(text: Text): nat {
    if text == [] then 0 else Breaks(text[..|text| - 1]) + if text[|text| - 1] == LF then 1 else 0
  }

  /** The units of a replacement text whose line breaks are LF. */
  function Restored(text: Text, endings: seq<Unit>, fallback: Unit): seq<Unit> {
    if text == [] then []
    else
      var n := |text| - 1;
      Restored(text[..n], endings, fallback) +
      [if text[n] == LF then Pick(endings, fallback, Breaks(text[..n])) else Plain(text[n])]
  }

  lemma {:induction false} RestoredFlattens(text: Text, endings: seq<Unit>, fallback: Unit)
    requires IsEnding(fallback) && (forall i | 0 <= i < |endings| :: IsEnding(endings[i])) && CR !in text
    ensures Flatten(Restored(text, endings, fallback)) == text && Proper(Restored(text, endings, fallback))
    ensures !fallback.EndCR? && (forall i | 0 <= i < |endings| :: !endings[i].EndCR?) ==>
            forall i | 0 <= i < |text| ::
                i < |Restored(text, endings, fallback)| && !Restored(text, endings, fallback)[i].EndCR?
    decreases |text|
  {
    if text != [] {
      var n := |text| - 1;
      RestoredFlattens(text[..n], endings, fallback);
      assert text == text[..n] + [text[n]] && text[n] in text;
      var before := Restored(text[..n], endings, fallback);
      assert |before| == n by { assert |Flatten(before)| == |before|; }
      assert Flatten(Restored(text, endings, fallback)) == Flatten(before) + [text[n]];
    }
  }

  lemma RestoredAppends(text: Text, b: bv8, endings: seq<Unit>, fallback: Unit)
    ensures Restored(text + [b], endings, fallback) ==
            Restored(text, endings, fallback)
            + [if b == LF then Pick(endings, fallback, Breaks(text)) else Plain(b)]
  {
    assert (text + [b])[..|text|] == text;
  }

  lemma BreaksAppends(text: Text, b: bv8)
    ensures Breaks(text + [b]) == Breaks(text) + if b == LF then 1 else 0
  {
    assert (text + [b])[..|text|] == text;
  }

  /** Writing back what was read: text with the endings it was read with is that text, whatever follows
      in the list of endings. */
  lemma {:induction false} RestoresItself(units: seq<Unit>, more: seq<Unit>, fallback: Unit)
    requires Proper(units)
    ensures Restored(Flatten(units), Endings(units) + more, fallback) == units
    ensures Breaks(Flatten(units)) == |Endings(units)|
    decreases |units|
  {
    hide Restored, Breaks, Endings;
    if units == [] {
      NothingRestored(Endings([]) + more, fallback);
      assert Flatten(units) == [];
    } else {
      var n := |units| - 1;
      var init, u := units[..n], units[n];
      assert units == init + [u];
      EndingsAppends(init, [u]);
      OneEnding(u);
      assert Flatten(units) == Flatten(init) + [Flat(u)];
      RestoredAppends(Flatten(init), Flat(u), Endings(units) + more, fallback);
      BreaksAppends(Flatten(init), Flat(u));
      if IsEnding(u) {
        RestoresItself(init, [u] + more, fallback);
        assert Endings(init) + ([u] + more) == Endings(units) + more;
      } else {
        RestoresItself(init, more, fallback);
        assert Endings(units) == Endings(init);
      }
    }
  }

  lemma NothingRestored(endings: seq<Unit>, fallback: Unit)
    ensures Restored([], endings, fallback) == [] && Breaks([]) == 0 && Endings([]) == []
  {
  }

  /** The k-th break of the text gets the k-th ending; those beyond get the last one, and without any
      ending all get the fallback. */
  lemma EndingGiven(text: Text, rest: Text, endings: seq<Unit>, fallback: Unit)
    ensures var units, n := Restored(text + [LF] + rest, endings, fallback), Breaks(text);
            && |units| == |text| + 1 + |rest|
            && (n < |endings| ==> units[|text|] == endings[n])
            && (n >= |endings| > 0 ==> units[|text|] == endings[|endings| - 1])
            && (endings == [] ==> units[|text|] == fallback)
    decreases |rest|
  {
    if rest == [] {
      assert text + [LF] + rest == text + [LF];
      RestoredAppends(text, LF, endings, fallback);
      RestoredLength(text, endings, fallback);
    } else {
      var m := |rest| - 1;
      EndingGiven(text, rest[..m], endings, fallback);
      assert text + [LF] + rest == (text + [LF] + rest[..m]) + [rest[m]];
      RestoredAppends(text + [LF] + rest[..m], rest[m], endings, fallback);
    }
  }

  lemma {:induction false} RestoredLength(text: Text, endings: seq<Unit>, fallback: Unit)
    ensures |Restored(text, endings, fallback)| == |text|
    decreases |text|
  {
    if text != [] { RestoredLength(text[..|text| - 1], endings, fallback); }
  }

  method RestoreReplacementLineEndings(text: Text, segment: Text, fallback: Unit) returns (r: Text)
    requires IsEnding(fallback)
    ensures r == Render(Restored(text, Endings(Parse(segment)), fallback))
  {
    hide Parse, Render;
    if LF !in text {
      PlainRestored(text, Endings(Parse(segment)), fallback);
      return text;
    }
    var endings := ExtractLineEndings(segment);
    r := [];
    var used := 0;
    var i := 0;
    RenderOne(fallback);
    while i < |text|
      invariant 0 <= i <= |text| && r == Render(Restored(text[..i], endings, fallback)) && used == Breaks(text[..i])
    {
      assert text[..i + 1][..i] == text[..i];
      ghost var before := Restored(text[..i], endings, fallback);
      if text[i] != LF {
        RenderAppends(before, [Plain(text[i])]);
        RenderOne(Plain(text[i]));
        r := r + [text[i]];
      } else {
        var ending := if used < |endings| then endings[used]
                      else if |endings| > 0 then endings[|endings| - 1]
                      else fallback;
        RenderAppends(before, [ending]);
        RenderOne(ending);
        r := r + Bytes(ending);
        used := used + 1;
      }
      i := i + 1;
    }
    assert text[..|text|] == text;
  }

  lemma RenderOne(u: Unit)
    ensures Render([u]) == Bytes(u) && Render([]) == []
  {
    assert [u][1..] == [];
    assert Bytes(u) + [] == Bytes(u);
  }

  lemma {:induction false} PlainRestored(text: Text, endings: seq<Unit>, fallback: Unit)
    requires LF !in text
    ensures Render(Restored(text, endings, fallback)) == text
    decreases |text|
  {
    if text != [] {
      var n := |text| - 1;
      assert text[n] in text;
      PlainRestored(text[..n], endings, fallback);
      RenderAppends(Restored(text[..n], endings, fallback), [Plain(text[n])]);
      RenderOne(Plain(text[n]));
    }
  }

  // ----- finding the text -----

  predicate Occurs(text: Text, target: Text, i: nat) {
    i + |target| <= |text| && text[i..i + |target|] == target
  }

  /** strings.Index: the first occurrence, or -1. */
  method Index(text: Text, target: Text, from: nat) returns (i: int)
    requires from <= |text|
    ensures i == -1 || i >= from
    ensures i >= 0 ==> Occurs(text, target, i) && forall j | from <= j < i :: !Occurs(text, target, j)
    ensures i == -1 ==> forall j | from <= j <= |text| :: !Occurs(text, target, j)
  {
    var at := from;
    while at + |target| <= |text|
      invariant from <= at && forall j | from <= j < at :: !Occurs(text, target, j)
      decreases |text| - at
    {
      if text[at..at + |target|] == target {
        return at;
      }
      at := at + 1;
    }
    return -1;
  }

  /** Occurrences at or after a position, overlapping ones included. */
  function Occurrences(text: Text, target: Text, from: nat): nat
    decreases |text| - from
  {
    if from >= |text| then 0
    else (if Occurs(text, target, from) then 1 else 0) + Occurrences(text, target, from + 1)
  }

  lemma {:induction false} SkipTo(text: Text, target: Text, from: nat, i: nat)
    requires from <= i <= |text| && forall j | from <= j < i :: !Occurs(text, target, j)
    ensures Occurrences(text, target, from) == Occurrences(text, target, i)
    decreases i - from
  {
    if from < i { SkipTo(text, target, from + 1, i); }
  }

  method CountOverlappingOccurrences(text: Text, target: Text) returns (count: nat)
    ensures count == if target == [] then 0 else Occurrences(text, target, 0)
  {
    if target == [] {
      return 0;
    }
    count := 0;
    var start := 0;
    while start + |target| <= |text|
      invariant 0 <= start <= |text| && count + Occurrences(text, target, start) == Occurrences(text, target, 0)
      decreases |text| - start
    {
      var index := Index(text, target, start);
      if index == -1 {
        SkipTo(text, target, start, |text|);
        return;
      }
      SkipTo(text, target, start, index);
      count := count + 1;
      start := index + 1;
    }
    SkipTo(text, target, start, |text|);
  }

  /** The count is the number of positions. */
  lemma {:induction false} CountsPositions(text: Text, target: Text, from: nat)
    requires from <= |text|
    ensures Occurrences(text, target, from) == |set i | from <= i < |text| && Occurs(text, target, i)|
    decreases |text| - from
  {
    var here := set i | from <= i < |text| && Occurs(text, target, i);
    if from < |text| {
      CountsPositions(text, target, from + 1);
      var later := set i | from + 1 <= i < |text| && Occurs(text, target, i);
      assert here == later + if Occurs(text, target, from) then {from} else {};
    }
  }

  // Two different positions are counted twice.
  lemma {:induction false} CountsEach(text: Text, target: Text, from: nat, i: nat)
    requires from <= i < |text| && Occurs(text, target, i)
    ensures Occurrences(text, target, from) >= 1 + Occurrences(text, target, i + 1)
    decreases i - from
  {
    if from < i { CountsEach(text, target, from + 1, i); }
  }

  lemma CountIsUnique(text: Text, target: Text, i: nat, j: nat)
    requires target != [] && Occurs(text, target, i) && Occurs(text, target, j) && Occurrences(text, target, 0) <= 1
    ensures i == j
  {
    if i < j {
      CountsEach(text, target, 0, i);
      CountsEach(text, target, i + 1, j);
    } else if j < i {
      CountsEach(text, target, 0, j);
      CountsEach(text, target, j + 1, i);
    }
  }

  // ----- the edit -----

  const BOM: Text := [0xEF, 0xBB, 0xBF]

  /** The first LF of the file is the end of a CRLF. */
  predicate StartsCRLF(content: Text) {
    exists i | 0 < i < |content| :: content[i] == LF && content[i - 1] == CR && LF !in content[..i]
  }

  lemma OccursLF(content: Text, j: nat)
    ensures Occurs(content, [LF], j) <==> j < |content| && content[j] == LF
  {
    assert j < |content| ==> content[j..j + 1] == [content[j]];
  }

  lemma OccursCRLF(content: Text, j: nat)
    ensures Occurs(content, [CR, LF], j) <==> j + 1 < |content| && content[j] == CR && content[j + 1] == LF
  {
    assert j + 1 < |content| ==> content[j..j + 2] == [content[j], content[j + 1]];
  }

  function Style(content: Text): Unit {
    if StartsCRLF(content) then EndCRLF else EndLF
  }

  /** detectLineEnding: the style of the first line break. */
  method DetectLineEnding(content: Text) returns (u: Unit)
    ensures u == Style(content)
  {
    hide Occurs, StartsCRLF;
    var crlf := Index(content, [CR, LF], 0);
    var lf := Index(content, [LF], 0);
    FirstBreak(content, crlf, lf);
    return if lf == -1 || crlf == -1 then EndLF else if crlf < lf then EndCRLF else EndLF;
  }

  lemma FirstBreak(content: Text, crlf: int, lf: int)
    requires crlf >= 0 ==> Occurs(content, [CR, LF], crlf)
    requires crlf == -1 ==> forall j | 0 <= j <= |content| :: !Occurs(content, [CR, LF], j)
    requires crlf >= -1 && lf >= -1 && (crlf >= 0 ==> forall j | 0 <= j < crlf :: !Occurs(content, [CR, LF], j))
    requires lf >= 0 ==> Occurs(content, [LF], lf) && forall j | 0 <= j < lf :: !Occurs(content, [LF], j)
    requires lf == -1 ==> forall j | 0 <= j <= |content| :: !Occurs(content, [LF], j)
    ensures StartsCRLF(content) <==> lf >= 0 && crlf >= 0 && crlf < lf
  {
    hide Occurs;
    if crlf >= 0 {
      OccursCRLF(content, crlf);
      OccursLF(content, crlf + 1);
    }
    if lf >= 0 {
      OccursLF(content, lf);
      forall j | 0 <= j < lf ensures content[j] != LF {
        OccursLF(content, j);
      }
    }
    if StartsCRLF(content) {
      var i :| 0 < i < |content| && content[i] == LF && content[i - 1] == CR && LF !in content[..i];
      OccursLF(content, i);
      OccursCRLF(content, i - 1);
      assert lf >= 0 && lf <= i;
    }
    if lf >= 0 && crlf >= 0 && crlf < lf {
      assert crlf + 1 == lf;
      assert LF !in content[..lf];
    }
  }

  /** The first LF decides: after a CR it is the end of a CRLF, otherwise it stands alone; a text without
      LF counts as LF. */
  lemma StyleMeans(line: Text, rest: Text)
    requires LF !in line
    ensures Style(line) == EndLF
    ensures Style(line + [LF] + rest) == if line != [] && line[|line| - 1] == CR then EndCRLF else EndLF
  {
    var content, n := line + [LF] + rest, |line|;
    assert content[n] == LF && content[..n] == line;
    forall i | 0 <= i < |content| && content[i] == LF && LF !in content[..i] ensures i == n {
      FirstIsFirst(content, i, n);
    }
  }

  lemma FirstIsFirst(content: Text, i: nat, n: nat)
    requires i < |content| && content[i] == LF && LF !in content[..i]
    requires n < |content| && content[n] == LF && LF !in content[..n]
    ensures i == n
  {
    InPrefix(content, n, i);
    InPrefix(content, i, n);
  }

  lemma InPrefix(text: Text, i: nat, n: nat)
    ensures i < n <= |text| ==> text[i] in text[..n]
  {
    assert i < n <= |text| ==> text[..n][i] == text[i];
  }

  datatype EditResult = Edited(content: Text) | NotFound | Ambiguous(occurrences: nat) | Unchanged

  /** The file after replacing the units s..e: everything else is untouched, and the replacement
      takes its endings from what it replaces. */
  function Spliced(units: seq<Unit>, s: nat, e: nat, text: Text, fallback: Unit): seq<Unit>
    requires s <= e <= |units|
  {
    units[..s] + Restored(text, Endings(units[s..e]), fallback) + units[e..]
  }

  predicate NoBareCR(units: seq<Unit>) {
    forall i | 0 <= i < |units| :: !units[i].EndCR?
  }

  lemma NormalizedHasNoCR(text: Text)
    ensures CR !in NormalizeToLF(text)
  {
    NormalizeFlattens(text);
    RenderParse(text);
  }

  lemma {:induction false} EndingsAreEndings(units: seq<Unit>)
    ensures forall i | 0 <= i < |Endings(units)| :: IsEnding(Endings(units)[i]) && Endings(units)[i] in units
    decreases |units|
  {
    if units != [] { EndingsAreEndings(units[1..]); }
  }

  /** What the restored text has at each position. */
  lemma {:induction false} RestoredAt(text: Text, endings: seq<Unit>, fallback: Unit, i: nat)
    requires i < |text|
    ensures |Restored(text, endings, fallback)| == |text|
    ensures Restored(text, endings, fallback)[i] == RestoredUnit(text, endings, fallback, i)
    decreases |text|
  {
    var n := |text| - 1;
    if i < n {
      RestoredAt(text[..n], endings, fallback, i);
      assert text[..n][..i] == text[..i];
    } else if n > 0 {
      RestoredAt(text[..n], endings, fallback, 0);
    }
  }

  function RestoredUnit(text: Text, endings: seq<Unit>, fallback: Unit, i: nat): Unit
    requires i < |text|
  {
    if text[i] == LF then Pick(endings, fallback, Breaks(text[..i])) else Plain(text[i])
  }

  predicate Glued(a: Unit, b: Unit) { a.EndCR? && b.EndLF? }

  /** Whether putting `text` in place of the units s..e joins a bare CR to a bare LF, in terms of the
      file and the request alone: the unit before the match, the endings of the match that the
      breaks of the text receive, and the unit after the match. */
  predicate Glues(all: seq<Unit>, s: nat, e: nat, text: Text, fallback: Unit)
    requires s <= e <= |all|
  {
    var endings := Endings(all[s..e]);
    if text == [] then s > 0 && e < |all| && Glued(all[s - 1], all[e])
    else
      || (s > 0 && Glued(all[s - 1], RestoredUnit(text, endings, fallback, 0)))
      || (exists i | 0 <= i < |text| - 1 ::
          Glued(RestoredUnit(text, endings, fallback, i), RestoredUnit(text, endings, fallback, i + 1)))
      || (e < |all| && Glued(RestoredUnit(text, endings, fallback, |text| - 1), all[e]))
  }

  lemma GluesIff(all: seq<Unit>, s: nat, e: nat, text: Text, fallback: Unit)
    requires s <= e <= |all| && Apart(all)
    ensures Apart(Spliced(all, s, e, text, fallback)) <==> !Glues(all, s, e, text, fallback)
  {
    hide Restored, RestoredUnit, Endings;
    var endings := Endings(all[s..e]);
    var middle := Restored(text, endings, fallback);
    var m := |text|;
    if text == [] {
      RestoredNothing(endings, fallback);
      assert Spliced(all, s, e, text, fallback) == all[..s] + all[e..];
      Seam(all[..s], all[e..]);
    } else {
      RestoredAt(text, endings, fallback, 0);
      forall i | 0 <= i < m ensures middle[i] == RestoredUnit(text, endings, fallback, i) {
        RestoredAt(text, endings, fallback, i);
      }
      Seam(all[..s] + middle, all[e..]);
      Seam(all[..s], middle);
      assert (all[..s] + middle)[s + m - 1] == middle[m - 1];
      assert s > 0 ==> all[..s][s - 1] == all[s - 1];
      assert e < |all| ==> all[e..][0] == all[e];
    }
  }

  lemma RestoredNothing(endings: seq<Unit>, fallback: Unit)
    ensures Restored([], endings, fallback) == []
  {
  }

  // Two pieces are apart exactly when each of them is and the seam is.
  lemma Seam(a: seq<Unit>, b: seq<Unit>)
    ensures Apart(a + b) <==> Apart(a) && Apart(b) && (a != [] && b != [] ==> !Glued(a[|a| - 1], b[0]))
  {
    var u := a + b;
    if Apart(u) {
      forall i | 0 <= i < |a| - 1 ensures !Glued(a[i], a[i + 1]) { assert !Glued(u[i], u[i + 1]); }
      forall i | 0 <= i < |b| - 1 ensures !Glued(b[i], b[i + 1]) { assert !Glued(u[|a| + i], u[|a| + i + 1]); }
      assert a != [] && b != [] ==> !Glued(u[|a| - 1], u[|a|]);
    }
  }

  /** The new file normalizes to the requested text exactly when the splice glues no bare CR to a
      bare LF. A file without bare CRs is always safe. */
  lemma SpliceNormalizes(content: Text, s: nat, e: nat, text: Text, fallback: Unit)
    requires s <= e <= |Parse(content)| && CR !in text && (fallback == EndLF || fallback == EndCRLF)
    ensures var units, n := Spliced(Parse(content), s, e, text, fallback), NormalizeToLF(content);
            && |n| == |Parse(content)|
            && (NormalizeToLF(Render(units)) == n[..s] + text + n[e..] <==>
                !Glues(Parse(content), s, e, text, fallback))
            && (NoBareCR(Parse(content)) ==> !Glues(Parse(content), s, e, text, fallback))
  {
    hide Parse, Render, NormalizeToLF, Restored, Endings, Flatten, Glues;
    var all := Parse(content);
    var endings := Endings(all[s..e]);
    RenderParse(content);
    NormalizeFlattens(content);
    EndingsAreEndings(all[s..e]);
    RestoredFlattens(text, endings, fallback);
    var middle := Restored(text, endings, fallback);
    SpliceIsProper(all, s, e, middle);
    SpliceFlattens(all, s, e, middle);
    NormalizesIffApart(all[..s] + middle + all[e..]);
    assert NoBareCR(all) ==> NoBareCR(middle) by {
      assert |middle| == |text| by { FlattenSlices(middle, 0); }
    }
    GluesIff(all, s, e, text, fallback);
  }

  lemma SpliceIsProper(all: seq<Unit>, s: nat, e: nat, middle: seq<Unit>)
    requires s <= e <= |all| && Proper(all) && Proper(middle)
    ensures Proper(all[..s] + middle + all[e..])
    ensures NoBareCR(all) && NoBareCR(middle) ==> Apart(all[..s] + middle + all[e..])
  {
  }

  lemma SpliceFlattens(all: seq<Unit>, s: nat, e: nat, middle: seq<Unit>)
    requires s <= e <= |all|
    ensures |Flatten(all)| == |all|
    ensures Flatten(all[..s] + middle + all[e..]) == Flatten(all)[..s] + Flatten(middle) + Flatten(all)[e..]
  {
  }

  /** The bytes before the first cut and after the second are those of the old file. */
  ghost predicate OnlyReplaces(raw: Text, bom: nat, s: nat, e: nat, text: Text, fallback: Unit, final: Text)
    requires bom <= |raw| && s <= e <= |Parse(raw[bom..])|
  {
    var content := raw[bom..];
    var units := Parse(content);
    var a, b := OffsetOf(units, s), OffsetOf(units, e);
    a <= b <= |content| &&
    final == raw[..bom] + content[..a] + Render(Restored(text, Endings(units[s..e]), fallback)) + content[b..]
  }

  /** stripBOM: the byte order mark the file starts with, if any. */
  function Bom(raw: Text): (bom: Text)
    ensures bom <= raw && |bom| == if [0xEF, 0xBB, 0xBF] <= raw then 3 else 0
  {
    if BOM <= raw then BOM else []
  }

  /** What an edit answers when the target occurs in the normalized text at `s`. */
  ghost predicate EditedAt(raw: Text, target: Text, text: Text, s: nat, r: EditResult)
    requires Occurs(NormalizeToLF(raw[|Bom(raw)|..]), target, s)
  {
    var bom, content := |Bom(raw)|, raw[|Bom(raw)|..];
    var n, e := NormalizeToLF(content), s + |target|;
    var requested := n[..s] + text + n[e..];
    match r
    case NotFound => false
    case Ambiguous(count) => count > 1 && count == Occurrences(n, target, 0)
    case Unchanged => OnlyOccurrence(n, target, s) && requested == n
    case Edited(final) =>
      && OnlyOccurrence(n, target, s) && requested != n
      && e <= |Parse(content)| && OnlyReplaces(raw, bom, s, e, text, Style(content), final)
      && var units := Spliced(Parse(content), s, e, text, Style(content));
         && final == raw[..bom] + Render(units)
         && (NormalizeToLF(final[bom..]) == requested <==> !Glues(Parse(content), s, e, text, Style(content)))
  }

  ghost predicate OnlyOccurrence(n: Text, target: Text, s: nat) {
    Occurs(n, target, s) && forall i: nat | Occurs(n, target, i) :: i == s
  }

  /** The target is reported missing exactly when it does not occur; wherever it occurs, the answer is
      the one for that occurrence. */
  ghost predicate Answers(raw: Text, oldText: Text, newText: Text, r: EditResult) {
    var n, target := NormalizeToLF(raw[|Bom(raw)|..]), NormalizeToLF(oldText);
    && (r.NotFound? <==> forall i: nat :: !Occurs(n, target, i))
    && forall s: nat | Occurs(n, target, s) :: EditedAt(raw, target, NormalizeToLF(newText), s, r)
  }

  /** The splice of Edit, on the exact-match path. */
  method Edit(raw: Text, oldText: Text, newText: Text) returns (r: EditResult)
    requires oldText != []
    ensures Answers(raw, oldText, newText, r)
  {
    hide Parse, Render, NormalizeToLF, Endings, Restored, OnlyReplaces, Glues;
    r := NotFound;
    var bom := Bom(raw);
    var content := raw[|bom|..];
    var ending := DetectLineEnding(content);
    var n, target, text := NormalizeToLF(content), NormalizeToLF(oldText), NormalizeToLF(newText);
    var offsets := NormalizedOffsetMap(content);
    TargetIsNotEmpty(oldText);
    var found := Index(n, target, 0);
    if found == -1 {
      return;
    }
    var count := CountOverlappingOccurrences(n, target);
    if count > 1 {
      r := Ambiguous(count);
      return;
    }
    forall i: nat | Occurs(n, target, i) ensures i == found {
      CountIsUnique(n, target, i, found);
    }
    var end := found + |target|;
    if n[..found] + text + n[end..] == n {
      r := Unchanged;
      return;
    }
    OffsetCuts(content, 0);
    SliceBetween(content, found, end);
    NormalizedHasNoCR(newText);
    SpliceNormalizes(content, found, end, text, ending);
    var replaceStart, replaceEnd := offsets[found], offsets[end];
    var restored := RestoreReplacementLineEndings(text, content[replaceStart..replaceEnd], ending);
    SplicedBytes(content, found, end, text, ending);
    var final := bom + content[..replaceStart] + restored + content[replaceEnd..];
    assert final == bom + (content[..replaceStart] + restored + content[replaceEnd..]);
    assert final[|bom|..] == content[..replaceStart] + restored + content[replaceEnd..];
    assert raw[..|bom|] == bom;
    assert OnlyReplaces(raw, |bom|, found, end, text, ending, final)
           by { BytesReplaced(raw, |bom|, found, end, text, ending, final); }
    r := Edited(final);
  }

  lemma BytesReplaced(raw: Text, bom: nat, s: nat, e: nat, text: Text, fallback: Unit, final: Text)
    requires bom <= |raw| && s <= e <= |Parse(raw[bom..])|
    requires var units := Parse(raw[bom..]); var a, b := OffsetOf(units, s), OffsetOf(units, e);
             && a <= b <= |raw[bom..]|
             && final == raw[..bom] + raw[bom..][..a] + Render(Restored(text, Endings(units[s..e]), fallback))
                 + raw[bom..][b..]
    ensures OnlyReplaces(raw, bom, s, e, text, fallback, final)
  {
  }

  /** The file CR b LF c, asked to replace "LF b" by "Z LF": the replacement inherits the bare CR,
      which then runs into the LF that follows. Every answer of Edit is the file Z CR LF c, which
      lost one of the two line breaks that were asked for. */
  lemma GluedEdit(r: EditResult)
    requires Answers([CR, 98, LF, 99], [LF, 98], [90, LF], r)
    ensures r == Edited([90, CR, LF, 99]) && Parse([CR, 98, LF, 99]) == [EndCR, Plain(98), EndLF, Plain(99)]
    ensures Glues([EndCR, Plain(98), EndLF, Plain(99)], 0, 2, [90, LF], EndLF)
    ensures NormalizeToLF([90, CR, LF, 99]) == [90, LF, 99] && [90, LF, 99] != [90, LF, LF, 99]
  {
    hide Render, Parse, NormalizeToLF, Glues, OnlyReplaces, Endings, Restored;
    var content: Text := [CR, 98, LF, 99];
    GluedParse();
    GluedSplice();
    GluedText();
    PlainNormalizes([LF, 98]);
    PlainNormalizes([90, LF]);
    assert Bom(content) == [] by { assert BOM[0] != content[0]; }
    assert content[0..] == content;
    GluedSearch();
    GluesIff(Parse(content), 0, 2, [90, LF], EndLF);
    var n: Text := [LF, 98, LF, 99];
    assert n[..0] + [90, LF] + n[2..] == [90, LF, LF, 99];
    assert EditedAt(content, [LF, 98], [90, LF], 0, r);
    assert content[..0] + [90, CR, LF, 99] == [90, CR, LF, 99];
  }

  lemma GluedSearch()
    ensures Occurs([LF, 98, LF, 99], [LF, 98], 0) && Occurrences([LF, 98, LF, 99], [LF, 98], 0) == 1
    ensures Style([CR, 98, LF, 99]) == EndLF
  {
    var n, target: Text := [LF, 98, LF, 99], [LF, 98];
    assert n[0..2] == target;
    forall i: nat | 0 < i < 4 ensures !Occurs(n, target, i) {
      assert i + 2 <= 4 ==> n[i..i + 2][0] == n[i] && n[i..i + 2][1] == n[i + 1];
    }
    SkipTo(n, target, 1, 4);
    assert Occurrences(n, target, 4) == 0;
  }

  // Nothing is replaced where the pattern cannot start.
  lemma {:induction false} ReplaceNothing(text: Text, what: Text, other: Text)
    requires what != [] && what[0] !in text
    ensures ReplaceAll(text, what, other) == text
    decreases |text|
  {
    if text != [] {
      assert what[0] != text[0];
      ReplaceNothing(text[1..], what, other);
    }
  }

  lemma PlainNormalizes(text: Text)
    requires CR !in text
    ensures NormalizeToLF(text) == text
  {
    ReplaceNothing(text, [CR, LF], [LF]);
    ReplaceNothing(text, [CR], [LF]);
  }

  lemma GluedParse()
    ensures Parse([CR, 98, LF, 99]) == [EndCR, Plain(98), EndLF, Plain(99)]
            && NormalizeToLF([CR, 98, LF, 99]) == [LF, 98, LF, 99]
  {
    var units := [EndCR, Plain(98), EndLF, Plain(99)];
    RenderFour(EndCR, Plain(98), EndLF, Plain(99));
    assert Render(units) == [CR, 98, LF, 99];
    ParseRender(units);
    NormalizeFlattens([CR, 98, LF, 99]);
  }

  lemma RenderFour(a: Unit, b: Unit, c: Unit, d: Unit)
    ensures Render([a, b, c, d]) == Bytes(a) + Bytes(b) + Bytes(c) + Bytes(d)
  {
    RenderOne(d);
    assert [a, b, c, d] == [a, b, c] + [d] && [a, b, c] == [a, b] + [c] && [a, b] == [a] + [b];
    RenderAppends([a, b, c], [d]);
    RenderAppends([a, b], [c]);
    RenderAppends([a], [b]);
    RenderOne(a);
    RenderOne(b);
    RenderOne(c);
  }

  lemma GluedSplice()
    ensures var final := Spliced([EndCR, Plain(98), EndLF, Plain(99)], 0, 2, [90, LF], EndLF);
            final == [Plain(90), EndCR, EndLF, Plain(99)] && Render(final) == [90, CR, LF, 99] && !Apart(final)
  {
    hide Render, Restored, Endings;
    var units := [EndCR, Plain(98), EndLF, Plain(99)];
    assert units[0..2] == [EndCR] + [Plain(98)] && units[2..] == [EndLF, Plain(99)] && units[..0] == [];
    EndingsAppends([EndCR], [Plain(98)]);
    OneEnding(EndCR);
    OneEnding(Plain(98));
    assert Endings(units[0..2]) == [EndCR];
    GluedRestored();
    assert Spliced(units, 0, 2, [90, LF], EndLF) == [] + [Plain(90), EndCR] + [EndLF, Plain(99)];
    RenderFour(Plain(90), EndCR, EndLF, Plain(99));
    var final := [Plain(90), EndCR, EndLF, Plain(99)];
    assert final[1].EndCR? && final[2].EndLF?;
  }

  lemma GluedRestored()
    ensures Restored([90, LF], [EndCR], EndLF) == [Plain(90), EndCR]
  {
    assert [90, LF][..1] == [90] && [90][..0] == [];
    assert Restored([90], [EndCR], EndLF) == [Plain(90)];
  }

  lemma GluedText()
    ensures NormalizeToLF([90, CR, LF, 99]) == [90, LF, 99]
  {
    var units := [Plain(90), EndCRLF, Plain(99)];
    assert units[1..] == [EndCRLF, Plain(99)] && units[1..][1..] == [Plain(99)];
    assert Render([Plain(99)]) == [99];
    assert Render([EndCRLF, Plain(99)]) == [CR, LF, 99];
    assert Render(units) == [90, CR, LF, 99];
    ParseRender(units);
    NormalizeFlattens([90, CR, LF, 99]);
  }

  lemma TargetIsNotEmpty(text: Text)
    requires text != []
    ensures NormalizeToLF(text) != []
  {
    NormalizeFlattens(text);
  }

  // The bytes between two cuts are the units between them.
  lemma SliceBetween(content: Text, s: nat, e: nat)
    requires s <= e <= |Parse(content)|
    ensures var units := Parse(content); var a, b := OffsetOf(units, s), OffsetOf(units, e);
            a <= b <= |content| && Parse(content[a..b]) == units[s..e]
  {
    hide Parse, Render;
    var units := Parse(content);
    OffsetCuts(content, s);
    OffsetCuts(content, e);
    RenderParse(content);
    assert units[..e] == units[..s] + units[s..e];
    RenderAppends(units[..s], units[s..e]);
    ParseRender(units[s..e]);
    var a, b := OffsetOf(units, s), OffsetOf(units, e);
    assert content[..b] == Render(units[..s]) + Render(units[s..e]);
    assert content[a..b] == content[..b][a..];
  }

  lemma SplicedBytes(content: Text, s: nat, e: nat, text: Text, fallback: Unit)
    requires s <= e <= |Parse(content)|
    ensures var units := Parse(content); var a, b := OffsetOf(units, s), OffsetOf(units, e);
            && a <= b <= |content|
            && Render(Spliced(units, s, e, text, fallback)) ==
               content[..a] + Render(Restored(text, Endings(units[s..e]), fallback)) + content[b..]
  {
    hide Parse, Render, Restored, Endings;
    var units := Parse(content);
    var middle := Restored(text, Endings(units[s..e]), fallback);
    OffsetCuts(content, s);
    OffsetCuts(content, e);
    SliceBetween(content, s, e);
    RenderAppends(units[..s] + middle, units[e..]);
    RenderAppends(units[..s], middle);
  }
}
