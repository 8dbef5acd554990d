/** jq's --stream mode (contrib/jq/jq_input.go): a state machine that turns the token stream of
    JSON values into path events without ever building a value.

    `Next` is one call of the machine on the tokens that are left. For the tokens of any sequence
    of values the events are the recursive to-stream of those values, the values can be decoded
    back from the events, and neither stack ever underflows, even on truncated input.
 */
module JqStream {

  // ----- JSON -----

  datatype Atom = Null | Bool(b: bool) | Number(text: string) | Str(text: string)

  datatype Value = Scalar(atom: Atom) | Arr(items: seq<Value>) | Obj(fields: seq<(string, Value)>)

  datatype Token = Open(isArray: bool) | Close(isArray: bool) | Lit(atom: Atom)

  /** json.Decoder.Token over these values, in order. */
  function Tokens(v: Value): seq<Token>
    decreases v, 1, 0
  {
    match v
    case Scalar(a) => [Lit(a)]
    case Arr(_) => [Open(true)] + ItemTokens(v, 0)
    case Obj(_) => [Open(false)] + FieldTokens(v, 0)
  }

  function ItemTokens(v: Value, k: nat): seq<Token>
    requires v.Arr? && k <= |v.items|
    decreases v, 0, |v.items| - k
  {
    if k == |v.items| then [Close(true)] else Tokens(v.items[k]) + ItemTokens(v, k + 1)
  }

  function FieldTokens(v: Value, k: nat): seq<Token>
    requires v.Obj? && k <= |v.fields|
    decreases v, 0, |v.fields| - k
  {
    if k == |v.fields| then [Close(false)]
    else [Lit(Str(v.fields[k].0))] + Tokens(v.fields[k].1) + FieldTokens(v, k + 1)
  }

  function AllTokens(vs: seq<Value>): seq<Token> {
    if vs == [] then [] else Tokens(vs[0]) + AllTokens(vs[1..])
  }

  // ----- the specification: to-stream -----

  datatype Step = Index(n: nat) | Key(key: Atom)

  datatype LeafValue = AtomLeaf(atom: Atom) | EmptyArray | EmptyObject

  datatype Event = Leaf(path: seq<Step>, value: LeafValue) | Closing(path: seq<Step>)

  function ToStream(path: seq<Step>, v: Value): seq<Event>
    decreases v, 1, 0
  {
    match v
    case Scalar(a) => [Leaf(path, AtomLeaf(a))]
    case Arr(items) => if items == [] then [Leaf(path, EmptyArray)] else ItemEvents(path, v, 0)
    case Obj(fields) => if fields == [] then [Leaf(path, EmptyObject)] else FieldEvents(path, v, 0)
  }

  /** The elements from k on, then the closing event, which carries the path of the last element. */
  function ItemEvents(path: seq<Step>, v: Value, k: nat): seq<Event>
    requires v.Arr? && k < |v.items|
    decreases v, 0, |v.items| - k
  {
    var here := path + [Index(k)];
    ToStream(here, v.items[k]) + if k + 1 < |v.items| then ItemEvents(path, v, k + 1) else [Closing(here)]
  }

  function FieldEvents(path: seq<Step>, v: Value, k: nat): seq<Event>
    requires v.Obj? && k < |v.fields|
    decreases v, 0, |v.fields| - k
  {
    var here := path + [Key(Str(v.fields[k].0))];
    ToStream(here, v.fields[k].1) + if k + 1 < |v.fields| then FieldEvents(path, v, k + 1) else [Closing(here)]
  }

  function StreamOf(vs: seq<Value>): seq<Event> {
    if vs == [] then [] else ToStream([], vs[0]) + StreamOf(vs[1..])
  }

  // ----- what the events say about the value -----

  /** Following the steps of q from v leads to w: array elements are counted from 0. */
  ghost predicate Reaches(v: Value, q: seq<Step>, w: Value)
    decreases |q|
  {
    if q == [] then v == w
    else match q[0]
      case Index(n) => v.Arr? && n < |v.items| && Reaches(v.items[n], q[1..], w)
      case Key(key) =>
        v.Obj? && exists k | 0 <= k < |v.fields| ::
          key == Str(v.fields[k].0) && Reaches(v.fields[k].1, q[1..], w)
  }

  /** A leaf event shows a scalar, or a container without elements. */
  predicate Shows(w: Value, leaf: LeafValue) {
    match leaf
    case AtomLeaf(a) => w == Scalar(a)
    case EmptyArray => w == Arr([])
    case EmptyObject => w == Obj([])
  }

  /** The step leads to the last element of a container. */
  predicate LastStep(w: Value, step: Step) {
    match step
    case Index(n) => w.Arr? && |w.items| == n + 1
    case Key(key) => w.Obj? && w.fields != [] && key == Str(w.fields[|w.fields| - 1].0)
  }

  ghost predicate ClosesIn(v: Value, q: seq<Step>, step: Step) {
    exists w :: Reaches(v, q, w) && LastStep(w, step)
  }

  /** The event is about this value, found at `path`: a leaf's path leads to what it shows, and a closing
      event's path to the last element of a container. */
  ghost predicate PointsInto(v: Value, path: seq<Step>, e: Event) {
    && path <= e.path
    && match e
       case Leaf(p, value) => exists w :: Reaches(v, p[|path|..], w) && Shows(w, value)
       case Closing(p) => |path| < |p| && ClosesIn(v, p[|path|..|p| - 1], p[|p| - 1])
  }

  lemma ReachesItself(v: Value)
    ensures Reaches(v, [], v)
  {
  }

  // An event about an element is one about the container.
  lemma PointsThrough(v: Value, w: Value, path: seq<Step>, step: Step, e: Event)
    requires PointsInto(w, path + [step], e)
    requires match step
             case Index(n) => v.Arr? && n < |v.items| && w == v.items[n]
             case Key(key) =>
               v.Obj? && exists k | 0 <= k < |v.fields| :: key == Str(v.fields[k].0) && w == v.fields[k].1
    ensures PointsInto(v, path, e)
  {
    var here := path + [step];
    assert e.path[..|here|] == here;
    assert path == here[..|path|] == e.path[..|path|] && e.path[|path|] == step;
    forall x, q | Reaches(w, q, x) ensures Reaches(v, [step] + q, x) { assert ([step] + q)[1..] == q; }
    assert e.path[|path|..] == [step] + e.path[|here|..];
    if e.Closing? {
      var n := |e.path| - 1;
      assert e.path[|path|..n] == [step] + e.path[|here|..n];
      var x :| Reaches(w, e.path[|here|..n], x) && LastStep(x, e.path[n]);
      assert Reaches(v, e.path[|path|..n], x);
    } else {
      var x :| Reaches(w, e.path[|here|..], x) && Shows(x, e.value);
      assert Reaches(v, e.path[|path|..], x);
    }
  }

  lemma ClosesHere(v: Value, path: seq<Step>, step: Step)
    requires LastStep(v, step)
    ensures PointsInto(v, path, Closing(path + [step]))
  {
    var p := path + [step];
    assert p[|path|..|p| - 1] == [] && p[..|path|] == path;
    ReachesItself(v);
  }

  lemma ShowsHere(v: Value, path: seq<Step>, leaf: LeafValue)
    requires Shows(v, leaf)
    ensures PointsInto(v, path, Leaf(path, leaf))
  {
    assert path[|path|..] == [];
    ReachesItself(v);
  }

  /** Every event of the stream of a value points into that value. */
  lemma {:induction false} EventsPoint(path: seq<Step>, v: Value, e: Event)
    requires e in ToStream(path, v)
    ensures PointsInto(v, path, e)
    decreases v, 1, 0
  {
    hide PointsInto, Reaches, ItemEvents, FieldEvents;
    match v
    case Scalar(a) => ShowsHere(v, path, AtomLeaf(a));
    case Arr(items) => if items == [] { ShowsHere(v, path, EmptyArray); } else { ItemEventsPoint(path, v, 0, e); }
    case Obj(fields) => if fields == [] { ShowsHere(v, path, EmptyObject); } else { FieldEventsPoint(path, v, 0, e); }
  }

  lemma {:induction false} ItemEventsPoint(path: seq<Step>, v: Value, k: nat, e: Event)
    requires v.Arr? && k < |v.items| && e in ItemEvents(path, v, k)
    ensures PointsInto(v, path, e)
    decreases v, 0, |v.items| - k
  {
    hide PointsInto, Reaches, ToStream;
    var here := path + [Index(k)];
    if e in ToStream(here, v.items[k]) {
      EventsPoint(here, v.items[k], e);
      PointsThrough(v, v.items[k], path, Index(k), e);
    } else if k + 1 < |v.items| {
      ItemEventsPoint(path, v, k + 1, e);
    } else {
      ClosesHere(v, path, Index(k));
    }
  }

  lemma {:induction false} FieldEventsPoint(path: seq<Step>, v: Value, k: nat, e: Event)
    requires v.Obj? && k < |v.fields| && e in FieldEvents(path, v, k)
    ensures PointsInto(v, path, e)
    decreases v, 0, |v.fields| - k
  {
    hide PointsInto, Reaches, ToStream;
    var step := Key(Str(v.fields[k].0));
    var here := path + [step];
    if e in ToStream(here, v.fields[k].1) {
      EventsPoint(here, v.fields[k].1, e);
      PointsThrough(v, v.fields[k].1, path, step, e);
    } else if k + 1 < |v.fields| {
      FieldEventsPoint(path, v, k + 1, e);
    } else {
      ClosesHere(v, path, step);
    }
  }

  // ----- the machine -----

  datatype Mode =
    | TopValue
    | ArrayStart | ArrayValue | ArrayEnd | ArrayEmptyEnd
    | ObjectStart | ObjectKey | ObjectValue | ObjectEnd | ObjectEmptyEnd

  datatype Config = Config(path: seq<Step>, states: seq<Mode>)

  const START := Config([], [TopValue])

  /** How a call ends: an event, the end of the input, or a stack that is too short. */
  datatype Outcome = Emit(event: Event, config: Config, rest: seq<Token>) | Eof | UnexpectedEof | Underflow

  function Top(c: Config): Mode
    requires c.states != []
  {
    c.states[|c.states| - 1]
  }

  function SetTop(c: Config, m: Mode): Config
    requires c.states != []
  {
    c.(states := c.states[|c.states| - 1 := m])
  }

  function PopPath(c: Config): Config
    requires c.path != []
  {
    c.(path := c.path[..|c.path| - 1])
  }

  function PopState(c: Config): Config
    requires c.states != []
  {
    c.(states := c.states[..|c.states| - 1])
  }

  /** json.Decoder.More: the next token does not close a container. */
  predicate More(tokens: seq<Token>) {
    tokens != [] && !tokens[0].Close?
  }

  /** The first switch of nextEvent: leave a container whose end was reported. */
  function Settle(c: Config): Config
    requires c.states != []
  {
    match Top(c)
    case ArrayEnd | ObjectEnd => if c.path == [] then Config([], []) else PopState(PopPath(c))
    case ArrayEmptyEnd | ObjectEmptyEnd => PopState(c)
    case _ => c
  }

  /** The second switch: step to the next element, or drop the key of the last field. */
  function Advance(c: Config, more: bool): Config
    requires c.states != []
  {
    if !more then c
    else match Top(c)
      case ArrayValue =>
        if c.path != [] && c.path[|c.path| - 1].Index?
        then c.(path := c.path[|c.path| - 1 := Index(c.path[|c.path| - 1].n + 1)]) else Config([], [])
      case ObjectValue => if c.path == [] then Config([], []) else PopPath(c)
      case _ => c
  }

  /** The token loop. */
  function Loop(c: Config, tokens: seq<Token>): Outcome
    decreases |tokens|
  {
    if c.states == [] then Underflow
    else if tokens == [] then if Top(c) == TopValue then Eof else UnexpectedEof
    else
      var rest := tokens[1..];
      match tokens[0]
      case Open(isArray) =>
        var entered := match Top(c)
          case ArrayStart => SetTop(c, ArrayValue)
          case ObjectKey => SetTop(c, ObjectValue)
          case _ => c;
        if isArray then Loop(Config(entered.path + [Index(0)], entered.states + [ArrayStart]), rest)
        else Loop(Config(entered.path, entered.states + [ObjectStart]), rest)
      case Close(true) =>
        if Top(c) == ArrayStart then
          if c.path == [] then Underflow
          else
            var d := PopPath(SetTop(c, ArrayEmptyEnd));
            Emit(Leaf(d.path, EmptyArray), d, rest)
        else Emit(Closing(c.path), SetTop(c, ArrayEnd), rest)
      case Close(false) =>
        if Top(c) == ObjectStart then Emit(Leaf(c.path, EmptyObject), SetTop(c, ObjectEmptyEnd), rest)
        else Emit(Closing(c.path), SetTop(c, ObjectEnd), rest)
      case Lit(a) =>
        match Top(c)
        case ArrayStart | ArrayValue => Emit(Leaf(c.path, AtomLeaf(a)), SetTop(c, ArrayValue), rest)
        case ObjectStart | ObjectValue => Loop(SetTop(c, ObjectKey).(path := c.path + [Key(a)]), rest)
        case ObjectKey => Emit(Leaf(c.path, AtomLeaf(a)), SetTop(c, ObjectValue), rest)
        case _ => Emit(Leaf(c.path, AtomLeaf(a)), SetTop(c, TopValue), rest)
  }

  /** nextEvent */
  function Next(c: Config, tokens: seq<Token>): Outcome {
    if c.states == [] then Underflow
    else
      var settled := Settle(c);
      if settled.states == [] then Underflow
      else Loop(Advance(settled, More(tokens)), tokens)
  }

  lemma {:induction false} LoopConsumes(c: Config, tokens: seq<Token>)
    ensures var o := Loop(c, tokens); o.Emit? ==> |o.rest| < |tokens| && o.rest == tokens[|tokens| - |o.rest|..]
    decreases |tokens|
  {
    if c.states != [] && tokens != [] {
      var rest := tokens[1..];
      if tokens[0].Open? {
        var entered := match Top(c)
          case ArrayStart => SetTop(c, ArrayValue)
          case ObjectKey => SetTop(c, ObjectValue)
          case _ => c;
        LoopConsumes(Config(entered.path + [Index(0)], entered.states + [ArrayStart]), rest);
        LoopConsumes(Config(entered.path, entered.states + [ObjectStart]), rest);
      } else if tokens[0].Lit? {
        LoopConsumes(SetTop(c, ObjectKey).(path := c.path + [Key(tokens[0].atom)]), rest);
      }
    }
  }

  datatype Ending = AtEof | AtUnexpectedEof | AtUnderflow

  datatype Trace = Trace(events: seq<Event>, ending: Ending)

  /** All the events of an input, and how it ends. */
  function Run(c: Config, tokens: seq<Token>): Trace
    decreases |tokens|, 1
  {
    if c.states == [] then Trace([], AtUnderflow)
    else
      var settled := Settle(c);
      if settled.states == [] then Trace([], AtUnderflow)
      else RunLoop(Advance(settled, More(tokens)), tokens)
  }

  function RunLoop(c: Config, tokens: seq<Token>): Trace
    decreases |tokens|, 0
  {
    LoopConsumes(c, tokens);
    match Loop(c, tokens)
    case Emit(e, d, rest) => After([e], Run(d, rest))
    case Eof => Trace([], AtEof)
    case UnexpectedEof => Trace([], AtUnexpectedEof)
    case Underflow => Trace([], AtUnderflow)
  }

  function After(events: seq<Event>, t: Trace): Trace {
    Trace(events + t.events, t.ending)
  }

  // ----- the machine computes to-stream -----

  predicate Reported(m: Mode) {
    m in {ArrayEnd, ArrayEmptyEnd, ObjectEnd, ObjectEmptyEnd}
  }

  /** Between two values: no reported container is left to drop. */
  predicate Settled(c: Config) {
    c.states != [] && !Reported(Top(c))
  }

  /** Where the loop may read a value. */
  predicate Ready(c: Config) {
    c.states != [] && Top(c) in {TopValue, ArrayStart, ArrayValue, ObjectKey}
  }

  /** The stacks after the value at this place. */
  function Done(c: Config): Config
    requires c.states != []
  {
    match Top(c)
    case ArrayStart => SetTop(c, ArrayValue)
    case ObjectKey => SetTop(c, ObjectValue)
    case _ => c
  }

  lemma AfterAfter(a: seq<Event>, b: seq<Event>, t: Trace)
    ensures After(a, After(b, t)) == After(a + b, t)
  {
    assert a + (b + t.events) == (a + b) + t.events;
  }

  // A reported container leaves no trace but its event.
  lemma MarkerDrops(d: Config, extra: seq<Step>, m: Mode, rest: seq<Token>)
    requires Settled(d) && Reported(m) && |extra| == (if m in {ArrayEnd, ObjectEnd} then 1 else 0)
    ensures Run(Config(d.path + extra, d.states + [m]), rest) == Run(d, rest)
  {
    var c := Config(d.path + extra, d.states + [m]);
    assert c.states[..|c.states| - 1] == d.states;
    assert extra != [] ==> c.path[..|c.path| - 1] == d.path;
    assert extra == [] ==> c.path == d.path;
    assert Settle(c) == d && Settle(d) == d;
  }

  lemma StartsOpen(v: Value, rest: seq<Token>)
    ensures Tokens(v) != [] && !Tokens(v)[0].Close? && More(Tokens(v) + rest)
  {
  }

  function AtItem(d: Config, k: nat): Config {
    Config(d.path + [Index(k)], d.states + [if k == 0 then ArrayStart else ArrayValue])
  }

  function AtField(d: Config, k: nat): Config {
    Config(d.path, d.states + [if k == 0 then ObjectStart else ObjectValue])
  }

  lemma EmptyArrayRead(d: Config, inner: seq<Token>, rest: seq<Token>)
    requires Settled(d) && inner == [Close(true)] + rest
    ensures RunLoop(AtItem(d, 0), inner) == After([Leaf(d.path, EmptyArray)], Run(d, rest))
  {
    assert inner[0] == Close(true) && inner[1..] == rest;
    assert PopPath(SetTop(AtItem(d, 0), ArrayEmptyEnd)) == Config(d.path, d.states + [ArrayEmptyEnd]);
    MarkerDrops(d, [], ArrayEmptyEnd, rest);
    assert d.path + [] == d.path;
  }

  lemma EmptyObjectRead(d: Config, inner: seq<Token>, rest: seq<Token>)
    requires Settled(d) && inner == [Close(false)] + rest
    ensures RunLoop(AtField(d, 0), inner) == After([Leaf(d.path, EmptyObject)], Run(d, rest))
  {
    assert inner[0] == Close(false) && inner[1..] == rest;
    assert SetTop(AtField(d, 0), ObjectEmptyEnd) == Config(d.path, d.states + [ObjectEmptyEnd]);
    MarkerDrops(d, [], ObjectEmptyEnd, rest);
    assert d.path + [] == d.path;
  }

  lemma LoopAgrees(c: Config, a: seq<Token>, e: Config, b: seq<Token>)
    requires Loop(c, a) == Loop(e, b)
    ensures RunLoop(c, a) == RunLoop(e, b)
  {
    hide Loop;
  }

  lemma ScalarRead(c: Config, a: Atom, tokens: seq<Token>, rest: seq<Token>)
    requires Ready(c) && tokens == [Lit(a)] + rest
    ensures RunLoop(c, tokens) == After([Leaf(c.path, AtomLeaf(a))], Run(Done(c), rest))
  {
    assert tokens[0] == Lit(a) && tokens[1..] == rest;
    assert Top(c) == ArrayValue || Top(c) == TopValue ==> SetTop(c, Top(c)) == c;
  }

  lemma ArrayOpened(c: Config, tokens: seq<Token>, inner: seq<Token>)
    requires Ready(c) && tokens == [Open(true)] + inner
    ensures RunLoop(c, tokens) == RunLoop(AtItem(Done(c), 0), inner)
  {
    hide RunLoop;
    assert tokens[0] == Open(true) && tokens[1..] == inner;
    LoopAgrees(c, tokens, AtItem(Done(c), 0), inner);
  }

  lemma ObjectOpened(c: Config, tokens: seq<Token>, inner: seq<Token>)
    requires Ready(c) && tokens == [Open(false)] + inner
    ensures RunLoop(c, tokens) == RunLoop(AtField(Done(c), 0), inner)
  {
    hide RunLoop;
    assert tokens[0] == Open(false) && tokens[1..] == inner;
    LoopAgrees(c, tokens, AtField(Done(c), 0), inner);
  }

  lemma {:induction false} ReadValue(c: Config, v: Value, rest: seq<Token>)
    requires Ready(c)
    ensures RunLoop(c, Tokens(v) + rest) == After(ToStream(c.path, v), Run(Done(c), rest))
    decreases v, 1, 0
  {
    hide Loop, RunLoop, Run, ItemEvents, FieldEvents;
    var tokens, d := Tokens(v) + rest, Done(c);
    match v
    case Scalar(a) =>
      ScalarRead(c, a, tokens, rest);
    case Arr(items) =>
      var inner := ItemTokens(v, 0) + rest;
      assert tokens == [Open(true)] + inner;
      ArrayOpened(c, tokens, inner);
      if items == [] {
        assert inner == [Close(true)] + rest;
        EmptyArrayRead(d, inner, rest);
      } else {
        ReadItems(d, v, 0, rest);
      }
    case Obj(fields) =>
      var inner := FieldTokens(v, 0) + rest;
      assert tokens == [Open(false)] + inner;
      ObjectOpened(c, tokens, inner);
      if fields == [] {
        assert inner == [Close(false)] + rest;
        EmptyObjectRead(d, inner, rest);
      } else {
        ReadFields(d, v, 0, rest);
      }
  }

  lemma RunSettled(c: Config, tokens: seq<Token>)
    requires Settled(c)
    ensures Run(c, tokens) == RunLoop(Advance(c, More(tokens)), tokens)
  {
    hide RunLoop;
  }

  lemma ReportEnd(c: Config, tokens: seq<Token>)
    requires c.states != [] && tokens != [] && tokens[0].Close?
    requires Top(c) != if tokens[0].isArray then ArrayStart else ObjectStart
    ensures RunLoop(c, tokens) ==
            After([Closing(c.path)], Run(SetTop(c, if tokens[0].isArray then ArrayEnd else ObjectEnd), tokens[1..]))
  {
    hide Run;
  }

  // After an element: on to the next one, or the closing event.
  lemma BetweenItems(d: Config, k: nat, tokens: seq<Token>)
    requires Settled(d) && tokens != [] && (More(tokens) || tokens[0] == Close(true))
    ensures var here := d.path + [Index(k)];
            Run(Config(here, d.states + [ArrayValue]), tokens) ==
            if More(tokens) then RunLoop(AtItem(d, k + 1), tokens) else After([Closing(here)], Run(d, tokens[1..]))
  {
    hide Run, RunLoop, Loop;
    var here := d.path + [Index(k)];
    var done := Config(here, d.states + [ArrayValue]);
    RunSettled(done, tokens);
    if More(tokens) {
      assert Advance(done, true) == AtItem(d, k + 1);
    } else {
      ReportEnd(done, tokens);
      assert SetTop(done, ArrayEnd) == Config(here, d.states + [ArrayEnd]);
      MarkerDrops(d, [Index(k)], ArrayEnd, tokens[1..]);
    }
  }

  lemma {:induction false} ReadItems(d: Config, v: Value, k: nat, rest: seq<Token>)
    requires Settled(d) && v.Arr? && k < |v.items|
    ensures RunLoop(AtItem(d, k), ItemTokens(v, k) + rest) == After(ItemEvents(d.path, v, k), Run(d, rest))
    decreases v, 0, |v.items| - k
  {
    hide Run, RunLoop, Loop;
    var here := d.path + [Index(k)];
    var more := ItemTokens(v, k + 1) + rest;
    assert ItemTokens(v, k) + rest == Tokens(v.items[k]) + more;
    ReadValue(AtItem(d, k), v.items[k], more);
    assert Done(AtItem(d, k)) == Config(here, d.states + [ArrayValue]);
    if k + 1 < |v.items| {
      StartsOpen(v.items[k + 1], ItemTokens(v, k + 2) + rest);
      assert more == Tokens(v.items[k + 1]) + (ItemTokens(v, k + 2) + rest);
      ReadItems(d, v, k + 1, rest);
      AfterAfter(ToStream(here, v.items[k]), ItemEvents(d.path, v, k + 1), Run(d, rest));
    } else {
      assert more[0] == Close(true) && more[1..] == rest;
      AfterAfter(ToStream(here, v.items[k]), [Closing(here)], Run(d, rest));
    }
    BetweenItems(d, k, more);
  }

  // After a field: on to the next key, or the closing event.
  lemma BetweenFields(d: Config, key: Atom, k: nat, tokens: seq<Token>)
    requires Settled(d) && tokens != [] && (More(tokens) || tokens[0] == Close(false))
    ensures var here := d.path + [Key(key)];
            Run(Config(here, d.states + [ObjectValue]), tokens) ==
            if More(tokens) then RunLoop(AtField(d, k + 1), tokens) else After([Closing(here)], Run(d, tokens[1..]))
  {
    hide Run, RunLoop, Loop;
    var here := d.path + [Key(key)];
    var done := Config(here, d.states + [ObjectValue]);
    RunSettled(done, tokens);
    if More(tokens) {
      assert Advance(done, true) == AtField(d, k + 1);
    } else {
      ReportEnd(done, tokens);
      assert SetTop(done, ObjectEnd) == Config(here, d.states + [ObjectEnd]);
      MarkerDrops(d, [Key(key)], ObjectEnd, tokens[1..]);
    }
  }

  lemma ReadKey(d: Config, k: nat, key: Atom, tokens: seq<Token>)
    ensures RunLoop(AtField(d, k), [Lit(key)] + tokens) ==
            RunLoop(Config(d.path + [Key(key)], d.states + [ObjectKey]), tokens)
  {
    assert ([Lit(key)] + tokens)[1..] == tokens;
    assert SetTop(AtField(d, k), ObjectKey).(path := d.path + [Key(key)]) ==
           Config(d.path + [Key(key)], d.states + [ObjectKey]);
  }

  lemma {:induction false} ReadFields(d: Config, v: Value, k: nat, rest: seq<Token>)
    requires Settled(d) && v.Obj? && k < |v.fields|
    ensures RunLoop(AtField(d, k), FieldTokens(v, k) + rest) == After(FieldEvents(d.path, v, k), Run(d, rest))
    decreases v, 0, |v.fields| - k
  {
    hide Run, RunLoop, Loop;
    var key, value := Str(v.fields[k].0), v.fields[k].1;
    var here := d.path + [Key(key)];
    var more := FieldTokens(v, k + 1) + rest;
    assert FieldTokens(v, k) + rest == [Lit(key)] + (Tokens(value) + more);
    ReadKey(d, k, key, Tokens(value) + more);
    var at := Config(here, d.states + [ObjectKey]);
    ReadValue(at, value, more);
    assert Done(at) == Config(here, d.states + [ObjectValue]);
    if k + 1 < |v.fields| {
      assert more[0] == Lit(Str(v.fields[k + 1].0));
      ReadFields(d, v, k + 1, rest);
      AfterAfter(ToStream(here, value), FieldEvents(d.path, v, k + 1), Run(d, rest));
    } else {
      assert more[0] == Close(false) && more[1..] == rest;
      AfterAfter(ToStream(here, value), [Closing(here)], Run(d, rest));
    }
    BetweenFields(d, key, k, more);
  }

  /** The events of any sequence of values are their to-stream, and the input ends cleanly. */
  lemma {:induction false} StreamsValues(vs: seq<Value>)
    ensures Run(START, AllTokens(vs)) == Trace(StreamOf(vs), AtEof)
    decreases |vs|
  {
    if vs != [] {
      ReadValue(START, vs[0], AllTokens(vs[1..]));
      StreamsValues(vs[1..]);
    }
  }

  // ----- truncated input -----

  // A shorter input makes the loop stop early or do exactly the same.
  lemma {:induction false} LoopTruncated(c: Config, tokens: seq<Token>, n: nat)
    requires n <= |tokens| && c.states != [] && Loop(c, tokens) != Underflow
    ensures var o := Loop(c, tokens[..n]);
            match o
            case Emit(e, d, rest) =>
              var full := Loop(c, tokens);
              full.Emit? && full.event == e && full.config == d && |rest| <= |full.rest| && rest == full.rest[..|rest|]
            case Underflow => false
            case _ => true
    decreases |tokens|
  {
    if n > 0 {
      var rest := tokens[1..];
      assert tokens[..n][0] == tokens[0] && tokens[..n][1..] == rest[..n - 1];
      if tokens[0].Open? {
        var entered := Done(c);
        if tokens[0].isArray {
          LoopTruncated(Config(entered.path + [Index(0)], entered.states + [ArrayStart]), rest, n - 1);
        } else {
          LoopTruncated(Config(entered.path, entered.states + [ObjectStart]), rest, n - 1);
        }
      } else if tokens[0].Lit? && Top(c) in {ObjectStart, ObjectValue} {
        LoopTruncated(SetTop(c, ObjectKey).(path := c.path + [Key(tokens[0].atom)]), rest, n - 1);
      }
    }
  }

  /** Cutting an input short cuts its events short and never makes a stack underflow. */
  lemma {:induction false} Truncated(c: Config, tokens: seq<Token>, n: nat)
    requires n <= |tokens| && Run(c, tokens).ending != AtUnderflow
    ensures Run(c, tokens[..n]).ending != AtUnderflow && Run(c, tokens[..n]).events <= Run(c, tokens).events
    decreases |tokens|
  {
    var short := tokens[..n];
    var settled := Settle(c);
    if n > 0 {
      assert More(short) == More(tokens);
      var a := Advance(settled, More(tokens));
      LoopTruncated(a, tokens, n);
      LoopConsumes(a, tokens);
      var o := Loop(a, short);
      if o.Emit? {
        Truncated(o.config, Loop(a, tokens).rest, |o.rest|);
      }
    }
  }

  /** For the tokens of any values, cut off anywhere, the stacks never underflow. */
  lemma NeverUnderflows(vs: seq<Value>, n: nat)
    requires n <= |AllTokens(vs)|
    ensures var t := Run(START, AllTokens(vs)[..n]); t.ending != AtUnderflow && t.events <= StreamOf(vs)
  {
    StreamsValues(vs);
    Truncated(START, AllTokens(vs), n);
  }

  // ----- decoding the events -----

  datatype Decoded = Decoded(value: Value, rest: seq<Event>) | Undecodable
  datatype DecodedItems = Items(items: seq<Value>, rest: seq<Event>) | NoItems
  datatype DecodedFields = Fields(fields: seq<(string, Value)>, rest: seq<Event>) | NoFields

  /** How far below `path` the first event is. */
  function Depth(path: seq<Step>, events: seq<Event>): nat {
    if events == [] || |events[0].path| <= |path| then 0 else |events[0].path| - |path|
  }

  /** The value at `path` that these events start with: a leaf is its own value, anything deeper
      belongs to a container that ends with a closing event for its last element. */
  function Decode(path: seq<Step>, events: seq<Event>): (r: Decoded)
    ensures r.Decoded? ==> |r.rest| < |events|
    decreases |events|, Depth(path, events), 1
  {
    if events == [] || !events[0].Leaf? then Undecodable
    else if events[0].path == path then
      match events[0].value
      case AtomLeaf(a) => Decoded(Scalar(a), events[1..])
      case EmptyArray => Decoded(Arr([]), events[1..])
      case EmptyObject => Decoded(Obj([]), events[1..])
    else if |events[0].path| <= |path| then Undecodable
    else if events[0].path[|path|].Index? then
      match DecodeItems(path, 0, events)
      case NoItems => Undecodable
      case Items(items, rest) => Decoded(Arr(items), rest)
    else
      match DecodeFields(path, events)
      case NoFields => Undecodable
      case Fields(fields, rest) => Decoded(Obj(fields), rest)
  }

  function DecodeItems(path: seq<Step>, k: nat, events: seq<Event>): (r: DecodedItems)
    ensures r.Items? ==> |r.rest| < |events|
    decreases |events|, Depth(path, events), 0
  {
    var here := path + [Index(k)];
    if Depth(path, events) == 0 then NoItems
    else match Decode(here, events)
      case Undecodable => NoItems
      case Decoded(v, rest) =>
        if rest == [] then NoItems
        else if rest[0] == Closing(here) then Items([v], rest[1..])
        else match DecodeItems(path, k + 1, rest)
          case NoItems => NoItems
          case Items(items, last) => Items([v] + items, last)
  }

  function DecodeFields(path: seq<Step>, events: seq<Event>): (r: DecodedFields)
    ensures r.Fields? ==> |r.rest| < |events|
    decreases |events|, Depth(path, events), 0
  {
    if Depth(path, events) == 0 || !events[0].path[|path|].Key? || !events[0].path[|path|].key.Str? then NoFields
    else
      var key := events[0].path[|path|].key;
      var here := path + [Key(key)];
      match Decode(here, events)
      case Undecodable => NoFields
      case Decoded(v, rest) =>
        if rest == [] then NoFields
        else if rest[0] == Closing(here) then Fields([(key.text, v)], rest[1..])
        else match DecodeFields(path, rest)
          case NoFields => NoFields
          case Fields(fields, last) => Fields([(key.text, v)] + fields, last)
  }

  // Every value starts with a leaf at or below its path.
  lemma {:induction false} FirstIsLeaf(path: seq<Step>, v: Value)
    ensures var s := ToStream(path, v); s != [] && s[0].Leaf? && path <= s[0].path
    ensures v.Arr? && v.items != [] ==> path + [Index(0)] <= ToStream(path, v)[0].path
    ensures v.Obj? && v.fields != [] ==> path + [Key(Str(v.fields[0].0))] <= ToStream(path, v)[0].path
    decreases v
  {
    if v.Arr? && v.items != [] {
      FirstIsLeaf(path + [Index(0)], v.items[0]);
    } else if v.Obj? && v.fields != [] {
      FirstIsLeaf(path + [Key(Str(v.fields[0].0))], v.fields[0].1);
    }
  }

  /** Decoding inverts to-stream, whatever follows. */
  lemma {:induction false} DecodeStream(path: seq<Step>, v: Value, rest: seq<Event>)
    ensures Decode(path, ToStream(path, v) + rest) == Decoded(v, rest)
    decreases v, 1, 0
  {
    var events := ToStream(path, v) + rest;
    FirstIsLeaf(path, v);
    if v.Arr? && v.items != [] {
      assert (path + [Index(0)])[|path|] == Index(0);
      DecodeItemEvents(path, v, 0, rest);
      assert v.items[0..] == v.items;
    } else if v.Obj? && v.fields != [] {
      assert (path + [Key(Str(v.fields[0].0))])[|path|] == Key(Str(v.fields[0].0));
      DecodeFieldEvents(path, v, 0, rest);
      assert v.fields[0..] == v.fields;
    } else {
      assert events[1..] == rest;
    }
  }

  lemma {:induction false} DecodeItemEvents(path: seq<Step>, v: Value, k: nat, rest: seq<Event>)
    requires v.Arr? && k < |v.items|
    ensures DecodeItems(path, k, ItemEvents(path, v, k) + rest) == Items(v.items[k..], rest)
    decreases v, 0, |v.items| - k
  {
    var here := path + [Index(k)];
    var tail := if k + 1 < |v.items| then ItemEvents(path, v, k + 1) else [Closing(here)];
    assert ItemEvents(path, v, k) + rest == ToStream(here, v.items[k]) + (tail + rest);
    FirstIsLeaf(here, v.items[k]);
    DecodeStream(here, v.items[k], tail + rest);
    if k + 1 < |v.items| {
      FirstIsLeaf(path + [Index(k + 1)], v.items[k + 1]);
      DecodeItemEvents(path, v, k + 1, rest);
      assert v.items[k..] == [v.items[k]] + v.items[k + 1..];
    } else {
      assert (tail + rest)[1..] == rest;
      assert v.items[k..] == [v.items[k]];
    }
  }

  lemma {:induction false} DecodeFieldEvents(path: seq<Step>, v: Value, k: nat, rest: seq<Event>)
    requires v.Obj? && k < |v.fields|
    ensures DecodeFields(path, FieldEvents(path, v, k) + rest) == Fields(v.fields[k..], rest)
    decreases v, 0, |v.fields| - k
  {
    var key := Str(v.fields[k].0);
    var here := path + [Key(key)];
    var tail := if k + 1 < |v.fields| then FieldEvents(path, v, k + 1) else [Closing(here)];
    var events := FieldEvents(path, v, k) + rest;
    assert events == ToStream(here, v.fields[k].1) + (tail + rest);
    FirstIsLeaf(here, v.fields[k].1);
    assert events[0].path[|path|] == here[|path|] == Key(key);
    DecodeStream(here, v.fields[k].1, tail + rest);
    assert v.fields[k] == (key.text, v.fields[k].1);
    if k + 1 < |v.fields| {
      FirstIsLeaf(path + [Key(Str(v.fields[k + 1].0))], v.fields[k + 1].1);
      DecodeFieldEvents(path, v, k + 1, rest);
      assert v.fields[k..] == [v.fields[k]] + v.fields[k + 1..];
    } else {
      assert (tail + rest)[1..] == rest;
      assert v.fields[k..] == [v.fields[k]];
    }
  }

  datatype DecodedAll = All(values: seq<Value>) | NotAll

  function DecodeAll(events: seq<Event>): DecodedAll
    decreases |events|
  {
    if events == [] then All([])
    else match Decode([], events)
      case Undecodable => NotAll
      case Decoded(v, rest) =>
        match DecodeAll(rest)
        case NotAll => NotAll
        case All(vs) => All([v] + vs)
  }

  /** The whole round trip: from values to tokens, through the machine, and back to the values. */
  lemma {:induction false} RoundTrip(vs: seq<Value>)
    ensures DecodeAll(Run(START, AllTokens(vs)).events) == All(vs)
    decreases |vs|
  {
    StreamsValues(vs);
    if vs != [] {
      FirstIsLeaf([], vs[0]);
      DecodeStream([], vs[0], StreamOf(vs[1..]));
      StreamsValues(vs[1..]);
      RoundTrip(vs[1..]);
      assert vs == [vs[0]] + vs[1..];
    }
  }

  // ----- the object -----

  const MAX_STREAM_PATH_ELEMENTS: nat := 0x80_0000

  datatype Reply = Got(event: Event) | Ended | CutShort | TooLarge

  /** jqJSONStream; `tokens` is what the decoder has not delivered yet. */
  class JqJsonStream {
    var tokens: seq<Token>
    var path: seq<Step>
    var states: seq<Mode>
    var copied: nat

    constructor (tokens: seq<Token>)
      ensures this.tokens == tokens && Here() == START && copied == 0
    {
      this.tokens := tokens;
      path := [];
      states := [TopValue];
      copied := 0;
    }

    function Here(): Config
      reads this
    {
      Config(path, states)
    }

    /** copyPath */
    method CopyPath() returns (p: seq<Step>)
      modifies this`copied
      ensures p == path && copied == old(copied) + |path|
    {
      copied := copied + |path|;
      p := path;
    }

    method NextEvent() returns (r: Reply)
      requires Next(Here(), tokens) != Underflow
      modifies this
      ensures match Next(old(Here()), old(tokens))
              case Emit(e, c, rest) => r == Got(e) && Here() == c && tokens == rest && copied == old(copied) + |e.path|
              case Eof => r == Ended
              case _ => r == CutShort
    {
      hide Loop;
      LoopNeedsStates(tokens);
      ghost var goal := Next(Here(), tokens);
      var top := states[|states| - 1];
      if top == ArrayEnd || top == ObjectEnd {
        path := path[..|path| - 1];
      }
      if Reported(top) {
        states := states[..|states| - 1];
      }
      if More(tokens) {
        match states[|states| - 1]
        case ArrayValue => path := path[|path| - 1 := Index(path[|path| - 1].n + 1)];
        case ObjectValue => path := path[..|path| - 1];
        case _ =>
      }
      r := ReadTokens();
    }

    /** The token loop of nextEvent. */
    method ReadTokens() returns (r: Reply)
      requires Loop(Here(), tokens) != Underflow
      modifies this
      ensures match old(Loop(Here(), tokens))
              case Emit(e, c, rest) => r == Got(e) && Here() == c && tokens == rest && copied == old(copied) + |e.path|
              case Eof => r == Ended
              case _ => r == CutShort
    {
      ghost var goal := Loop(Here(), tokens);
      while true
        invariant goal == Loop(Here(), tokens) && states != [] && copied == old(copied)
        decreases |tokens|
      {
        var last := |states| - 1;
        if tokens == [] {
          return if states[last] == TopValue then Ended else CutShort;
        }
        var token := tokens[0];
        tokens := tokens[1..];
        match token
        case Open(isArray) =>
          match states[last] {
            case ArrayStart => states := states[last := ArrayValue];
            case ObjectKey => states := states[last := ObjectValue];
            case _ =>
          }
          if isArray {
            states := states + [ArrayStart];
            path := path + [Index(0)];
          } else {
            states := states + [ObjectStart];
          }
        case Close(isArray) =>
          r := CloseContainer(isArray);
          return;
        case Lit(atom) =>
          if states[last] == ObjectStart || states[last] == ObjectValue {
            states := states[last := ObjectKey];
            path := path + [Key(atom)];
            continue;
          }
          var top := states[last];
          states := states[last := if top == ArrayStart || top == ArrayValue then ArrayValue
                                   else if top == ObjectKey then ObjectValue else TopValue];
          var p := CopyPath();
          return Got(Leaf(p, AtomLeaf(atom)));
      }
    }

    method CloseContainer(isArray: bool) returns (r: Reply)
      requires states != [] && Loop(Here(), [Close(isArray)] + tokens) != Underflow
      modifies this
      ensures var goal := old(Loop(Here(), [Close(isArray)] + tokens));
              && goal.Emit? && r == Got(goal.event) && Here() == goal.config && tokens == goal.rest
              && copied == old(copied) + |goal.event.path|
    {
      assert ([Close(isArray)] + tokens)[1..] == tokens;
      var last := |states| - 1;
      if isArray {
        if states[last] == ArrayStart {
          states := states[last := ArrayEmptyEnd];
          path := path[..|path| - 1];
          var p := CopyPath();
          return Got(Leaf(p, EmptyArray));
        }
        states := states[last := ArrayEnd];
      } else {
        if states[last] == ObjectStart {
          states := states[last := ObjectEmptyEnd];
          var p := CopyPath();
          return Got(Leaf(p, EmptyObject));
        }
        states := states[last := ObjectEnd];
      }
      var p := CopyPath();
      return Got(Closing(p));
    }

    /** next: the cap on the path elements of one input. */
    method NextCapped() returns (r: Reply)
      requires Next(Here(), tokens) != Underflow
      modifies this
      ensures match Next(old(Here()), old(tokens))
              case Emit(e, c, rest) =>
                && Here() == c && tokens == rest && copied == old(copied) + |e.path|
                && r == if copied > MAX_STREAM_PATH_ELEMENTS then TooLarge else Got(e)
              case Eof => r == Ended
              case _ => r == CutShort
    {
      r := NextEvent();
      if r.Got? && copied > MAX_STREAM_PATH_ELEMENTS {
        r := TooLarge;
      }
    }
  }

  lemma LoopNeedsStates(tokens: seq<Token>)
    ensures Loop(Config([], []), tokens) == Underflow
  {
  }

  function PathTotal(events: seq<Event>): nat {
    if events == [] then 0 else PathTotal(events[..|events| - 1]) + |events[|events| - 1].path|
  }

  /** Read an input to its end. The events are those of the uncapped run, as many as fit under the
      cap, and a refusal means that the very next one did not fit. */
  method Collect(tokens: seq<Token>) returns (events: seq<Event>, end: Reply)
    requires Run(START, tokens).ending != AtUnderflow
    ensures var all := Run(START, tokens);
            && events <= all.events && PathTotal(events) <= 0x80_0000
            && match end
               case Ended => events == all.events && all.ending == AtEof
               case CutShort => events == all.events && all.ending == AtUnexpectedEof
               case TooLarge => |events| < |all.events|
                   && PathTotal(all.events[..|events| + 1]) > 0x80_0000
               case Got(_) => false
  {
    hide Next, Run;
    RunStarts(tokens);
    var s := new JqJsonStream(tokens);
    ghost var all := Run(START, tokens);
    events, end := [], Ended;
    while true
      invariant fresh(s) && s.copied == PathTotal(events) <= MAX_STREAM_PATH_ELEMENTS
      invariant all == After(events, Run(s.Here(), s.tokens)) && all.ending != AtUnderflow
      decreases |s.tokens|
    {
      NextEmits(s.Here(), s.tokens);
      ghost var rest := Run(s.Here(), s.tokens);
      end := s.NextCapped();
      if !end.Got? {
        if end.TooLarge? {
          assert all.events[..|events| + 1] == events + [rest.events[0]];
          assert (events + [rest.events[0]])[..|events|] == events;
        }
        return;
      }
      AfterAfter(events, [end.event], Run(s.Here(), s.tokens));
      assert (events + [end.event])[..|events|] == events;
      events := events + [end.event];
    }
  }

  lemma RunStarts(tokens: seq<Token>)
    ensures Run(START, tokens) == After([], Run(START, tokens))
  {
  }

  lemma NextEmits(c: Config, tokens: seq<Token>)
    requires Run(c, tokens).ending != AtUnderflow
    ensures match Next(c, tokens)
            case Emit(e, d, rest) => |rest| < |tokens| && Run(c, tokens) == After([e], Run(d, rest))
            case Eof => Run(c, tokens) == Trace([], AtEof)
            case UnexpectedEof => Run(c, tokens) == Trace([], AtUnexpectedEof)
            case Underflow => false
  {
    LoopConsumes(Advance(Settle(c), More(tokens)), tokens);
  }
}
