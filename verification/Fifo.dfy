/** The in-memory FIFO (fs/fifo.go): one bounded buffer, counts of attached readers and writers,
    epochs, and handles that remember which epochs they have seen.

    Every step is one critical section of one goroutine: a blocked read or write takes its step
    again each time it is woken, and the checks a call makes before it takes the lock are a step
    of their own, as is the flag Close sets before it takes the lock.

    Next to the state the code keeps, the model keeps the history
    that the epochs and flags stand for: what was accepted and delivered, whether a writer was
    ever attached, which handles have met a reader and which have received data.
 */
module Fifo {

  type Bytes = seq<bv8>

  const CAPACITY: nat := 0x1_0000

  /** `closed` is the flag Close sets first, `attached` says that the handle is still counted. */
  datatype Handle = Handle(
    readable: bool, writable: bool, closed: bool, attached: bool,
    readerEpoch: nat, sawReader: bool, writerEpoch: nat, sawWriter: bool)

  /** One call of Write: how much of its request has been accepted, and whether it has returned. */
  datatype Call = Call(handle: nat, request: Bytes, written: nat, done: bool)

  /** One call of Read with a buffer of `size` bytes. */
  datatype ReadCall = ReadCall(handle: nat, size: nat, done: bool)

  /** What happened to a handle: a reader was attached at some point of its life; it got data. */
  datatype Past = Past(metReader: bool, gotData: bool)

  /** A piece of a request that went into the buffer. */
  datatype Chunk = Chunk(call: nat, bytes: Bytes)

  datatype History = History(initial: Bytes, log: seq<Chunk>, delivered: Bytes, everWriter: bool, past: seq<Past>)

  datatype State = State(
    buf: Bytes, readers: int, writers: int, readerEpoch: nat, writerEpoch: nat,
    handles: seq<Handle>, calls: seq<Call>, pulls: seq<ReadCall>, history: History)

  datatype ReadResult =
    | Received(data: Bytes) | EndOfFile | ReadClosed | ReadDenied | ReadCancelled | ReadMustWait | ReadReturned

  datatype WriteResult =
    | Written(n: nat) | Complete | BrokenPipe
    | WriteClosed | WriteDenied | WriteCancelled | WriteMustWait | WriteReturned

  function Min(a: nat, b: nat): nat { if a <= b then a else b }

  // ----- the steps -----

  /** newMemoryFIFO, and clone, which starts with a copy of another buffer. */
  function Fresh(content: Bytes): State {
    State(content, 0, 0, 0, 0, [], [], [], History(content, [], [], false, []))
  }

  /** newMemoryFIFOFile: the reader side is counted first. */
  function OpenFile(s: State, readable: bool, writable: bool): State {
    var readerEpoch := if readable && s.readers == 0 then s.readerEpoch + 1 else s.readerEpoch;
    var readers := if readable then s.readers + 1 else s.readers;
    var file := Handle(readable, writable, false, true,
                       if writable then readerEpoch else 0, writable && readers > 0,
                       if readable then s.writerEpoch else 0, readable && s.writerEpoch > 0);
    s.(readers := readers, readerEpoch := readerEpoch,
       writers := if writable then s.writers + 1 else s.writers,
       writerEpoch := if writable then s.writerEpoch + 1 else s.writerEpoch,
       handles := s.handles + [file],
       history := s.history.(
         everWriter := s.history.everWriter || writable,
         past := (if readable then Met(s.handles, s.history.past) else s.history.past)
             + [Past(writable && readers > 0, false)]))
  }

  /** A reader attaches: every attached writer has now met one. */
  function Met(handles: seq<Handle>, past: seq<Past>): seq<Past> {
    seq(|past|, i requires 0 <= i < |past| =>
      past[i].(metReader := past[i].metReader || (i < |handles| && handles[i].writable && handles[i].attached)))
  }

  datatype ReadStep = ReadStep(state: State, result: ReadResult)

  /** The start of a Read, before the lock is taken. */
  function BeginRead(s: State, id: nat, size: nat): ReadStep
    requires id < |s.handles|
  {
    var f := s.handles[id];
    if f.closed then ReadStep(s, ReadClosed)
    else if !f.readable then ReadStep(s, ReadDenied)
    else if size == 0 then ReadStep(s, Received([]))
    else ReadStep(s.(pulls := s.pulls + [ReadCall(id, size, false)]), ReadMustWait)
  }

  function Returned(s: State, call: nat): State
    requires call < |s.pulls|
  {
    s.(pulls := s.pulls[call := s.pulls[call].(done := true)])
  }

  /** One pass of the read loop; `cancelled` is what the context says. Bytes that are there are
      delivered even if the handle was closed while the call was blocked. */
  function ReadOnce(s: State, call: nat, cancelled: bool): ReadStep
    requires call < |s.pulls| && s.pulls[call].handle < |s.handles| && s.pulls[call].handle < |s.history.past|
  {
    var id, size := s.pulls[call].handle, s.pulls[call].size;
    var f := s.handles[id];
    if s.pulls[call].done then ReadStep(s, ReadReturned)
    else if s.buf == [] then
      if f.closed then ReadStep(Returned(s, call), ReadClosed)
      else if s.writers == 0 && (f.sawWriter || s.writerEpoch != f.writerEpoch) then
        ReadStep(Returned(s, call), EndOfFile)
      else
        var t := s.(handles := s.handles[id := f.(sawWriter := f.sawWriter || s.writers > 0)]);
        if cancelled then ReadStep(Returned(t, call), ReadCancelled) else ReadStep(t, ReadMustWait)
    else
      var n := Min(size, |s.buf|);
      ReadStep(
        Returned(s, call).(
           buf := s.buf[n..], handles := s.handles[id := f.(sawWriter := true)],
           history := s.history.(delivered := s.history.delivered + s.buf[..n],
                                 past := s.history.past[id := s.history.past[id].(gotData := true)])),
        Received(s.buf[..n]))
  }

  datatype WriteStep = WriteStep(state: State, result: WriteResult)

  /** The start of a Write, before the lock is taken. */
  function BeginWrite(s: State, id: nat, request: Bytes): WriteStep
    requires id < |s.handles|
  {
    var f := s.handles[id];
    if f.closed then WriteStep(s, WriteClosed)
    else if !f.writable then WriteStep(s, WriteDenied)
    else if request == [] then WriteStep(s, Complete)
    else WriteStep(s.(calls := s.calls + [Call(id, request, 0, false)]), WriteMustWait)
  }

  function GivenUp(s: State, call: nat): State
    requires call < |s.calls|
  {
    s.(calls := s.calls[call := s.calls[call].(done := true)])
  }

  /** One pass of the write loop. */
  function WriteOnce(s: State, call: nat, cancelled: bool): WriteStep
    requires call < |s.calls| && s.calls[call].handle < |s.handles| && s.calls[call].written <= |s.calls[call].request|
    requires |s.buf| <= CAPACITY
  {
    var c := s.calls[call];
    var f := s.handles[c.handle];
    if c.done then WriteStep(s, WriteReturned)
    else if c.written == |c.request| then WriteStep(GivenUp(s, call), Complete)
    else if s.readers == 0 || |s.buf| >= CAPACITY then
      if f.closed then WriteStep(GivenUp(s, call), WriteClosed)
      else if s.readers == 0 && (f.sawReader || s.readerEpoch != f.readerEpoch) then
        WriteStep(GivenUp(s, call), BrokenPipe)
      else if cancelled then WriteStep(GivenUp(s, call), WriteCancelled)
      else WriteStep(s, WriteMustWait)
    else
      var n := Min(|c.request| - c.written, CAPACITY - |s.buf|);
      var chunk := c.request[c.written..c.written + n];
      WriteStep(
        s.(buf := s.buf + chunk,
           handles := s.handles[c.handle := f.(sawReader := true, readerEpoch := s.readerEpoch)],
           calls := s.calls[call := c.(written := c.written + n)],
           history := s.history.(log := s.history.log + [Chunk(call, chunk)])),
        Written(n))
  }

  /** The first part of Close: the flag, which only one call sets. */
  function CloseFlag(s: State, id: nat): State
    requires id < |s.handles|
  {
    s.(handles := s.handles[id := s.handles[id].(closed := true)])
  }

  /** The locked part of Close, by the call that set the flag. */
  function Detach(s: State, id: nat): State
    requires id < |s.handles|
  {
    var f := s.handles[id];
    if !f.closed || !f.attached then s
    else
      s.(handles := s.handles[id := f.(attached := false)],
         readers := if f.readable && s.readers > 0 then s.readers - 1 else s.readers,
         writers := if f.writable && s.writers > 0 then s.writers - 1 else s.writers)
  }

  // ----- what every step keeps -----

  function Flatten(log: seq<Chunk>): Bytes {
    if log == [] then [] else Flatten(log[..|log| - 1]) + log[|log| - 1].bytes
  }

  function OfCall(log: seq<Chunk>, call: nat): Bytes {
    if log == [] then []
    else
      var rest := OfCall(log[..|log| - 1], call);
      if log[|log| - 1].call == call then rest + log[|log| - 1].bytes else rest
  }

  function Readers(handles: seq<Handle>): nat {
    if handles == [] then 0
    else
      var h := handles[|handles| - 1];
      Readers(handles[..|handles| - 1]) + if h.readable && h.attached then 1 else 0
  }

  function Writers(handles: seq<Handle>): nat {
    if handles == [] then 0
    else
      var h := handles[|handles| - 1];
      Writers(handles[..|handles| - 1]) + if h.writable && h.attached then 1 else 0
  }

  /** Nothing is lost, invented or reordered, and the buffer stays bounded. */
  ghost predicate Conserved(s: State) {
    s.history.initial + Flatten(s.history.log) == s.history.delivered + s.buf && |s.buf| <= CAPACITY
  }

  ghost predicate Counted(s: State) {
    && s.readers == Readers(s.handles) && s.writers == Writers(s.handles) && |s.history.past| == |s.handles|
    && (forall i | 0 <= i < |s.handles| :: s.handles[i].closed || s.handles[i].attached)
    && (forall c | 0 <= c < |s.pulls| ::
          s.pulls[c].handle < |s.handles| && s.handles[s.pulls[c].handle].readable && s.pulls[c].size > 0)
  }

  /** What a call has reported as written is exactly the prefix of its request that was accepted. */
  ghost predicate Prefixes(s: State) {
    forall c: nat ::
      if c < |s.calls| then
        && s.calls[c].handle < |s.handles| && s.handles[s.calls[c].handle].writable
        && s.calls[c].written <= |s.calls[c].request|
        && OfCall(s.history.log, c) == s.calls[c].request[..s.calls[c].written]
      else OfCall(s.history.log, c) == []
  }

  /** What the writer epoch and `sawWriter` of a reader stand for. */
  ghost predicate ReadersRemember(s: State) {
    && (s.history.everWriter <==> s.writerEpoch > 0) && (s.writers > 0 ==> s.history.everWriter)
    && |s.history.past| == |s.handles|
    && forall i | 0 <= i < |s.handles| && s.handles[i].readable ::
         && (s.handles[i].sawWriter ==> s.history.everWriter || s.history.past[i].gotData)
         && (s.history.past[i].gotData ==> s.handles[i].sawWriter)
         && (!s.handles[i].sawWriter ==> s.handles[i].writerEpoch == 0)
  }

  /** What the reader epoch and `sawReader` of a writer stand for. */
  ghost predicate WritersRemember(s: State) {
    && |s.history.past| == |s.handles|
    && forall i | 0 <= i < |s.handles| && s.handles[i].writable && s.handles[i].attached ::
         && s.handles[i].readerEpoch <= s.readerEpoch
         && (s.history.past[i].metReader <==> s.handles[i].sawReader || s.handles[i].readerEpoch != s.readerEpoch)
         && (s.readers > 0 ==> s.history.past[i].metReader)
  }

  ghost predicate Inv(s: State) {
    Conserved(s) && Counted(s) && Prefixes(s) && ReadersRemember(s) && WritersRemember(s)
  }

  lemma LogExtends(log: seq<Chunk>, c: Chunk)
    ensures Flatten(log + [c]) == Flatten(log) + c.bytes
    ensures OfCall(log + [c], c.call) == OfCall(log, c.call) + c.bytes
    ensures forall call: nat | call != c.call :: OfCall(log + [c], call) == OfCall(log, call)
  {
    assert (log + [c])[..|log|] == log;
  }

  lemma CountsAppend(handles: seq<Handle>, h: Handle)
    ensures Readers(handles + [h]) == Readers(handles) + if h.readable && h.attached then 1 else 0
    ensures Writers(handles + [h]) == Writers(handles) + if h.writable && h.attached then 1 else 0
  {
    assert (handles + [h])[..|handles|] == handles;
  }

  lemma {:induction false} CountsUpdate(handles: seq<Handle>, i: nat, h: Handle)
    requires i < |handles|
    ensures Readers(handles[i := h]) == Readers(handles) + (if h.readable && h.attached then 1 else 0)
                                        - (if handles[i].readable && handles[i].attached then 1 else 0)
    ensures Writers(handles[i := h]) == Writers(handles) + (if h.writable && h.attached then 1 else 0)
                                        - (if handles[i].writable && handles[i].attached then 1 else 0)
    decreases |handles|
  {
    var n := |handles| - 1;
    if i < n {
      CountsUpdate(handles[..n], i, h);
      assert handles[i := h][..n] == handles[..n][i := h];
    } else {
      assert handles[i := h][..n] == handles[..n];
    }
  }

  lemma FreshKeeps(content: Bytes)
    requires |content| <= CAPACITY
    ensures Inv(Fresh(content))
  {
  }

  lemma OpenKeeps(s: State, readable: bool, writable: bool)
    requires Inv(s)
    ensures Inv(OpenFile(s, readable, writable))
  {
    hide Conserved, Counted, ReadersRemember, WritersRemember, Prefixes, OpenFile;
    OpenKeepsBooks(s, readable, writable);
    OpenKeepsReaders(s, readable, writable);
    OpenKeepsWriters(s, readable, writable);
  }

  lemma OpenKeepsBooks(s: State, readable: bool, writable: bool)
    requires Inv(s)
    ensures var t := OpenFile(s, readable, writable); Conserved(t) && Counted(t) && Prefixes(t)
  {
    hide OfCall, Flatten, ReadersRemember, WritersRemember, Readers, Writers;
    var t := OpenFile(s, readable, writable);
    CountsAppend(s.handles, t.handles[|s.handles|]);
  }

  lemma OpenKeepsReaders(s: State, readable: bool, writable: bool)
    requires Inv(s)
    ensures ReadersRemember(OpenFile(s, readable, writable))
  {
    hide Conserved, WritersRemember, Prefixes, Readers, Writers;
  }

  lemma OpenKeepsWriters(s: State, readable: bool, writable: bool)
    requires Inv(s)
    ensures WritersRemember(OpenFile(s, readable, writable))
  {
    hide Conserved, ReadersRemember, Prefixes, Readers, Writers;
  }

  lemma BeginReadKeeps(s: State, id: nat, size: nat)
    requires Inv(s) && id < |s.handles|
    ensures Inv(BeginRead(s, id, size).state)
  {
    hide Flatten, Readers, Writers, OfCall;
  }

  lemma ReadKeeps(s: State, call: nat, cancelled: bool)
    requires Inv(s) && call < |s.pulls|
    ensures Inv(ReadOnce(s, call, cancelled).state)
  {
    hide ReadOnce, OfCall, Flatten, Readers, Writers, Conserved, Counted, Prefixes, ReadersRemember, WritersRemember;
    ReadKeepsBytes(s, call, cancelled);
    ReadKeepsCounts(s, call, cancelled);
    ReadKeepsReaders(s, call, cancelled);
    ReadKeepsWriters(s, call, cancelled);
  }

  lemma ReadKeepsBytes(s: State, call: nat, cancelled: bool)
    requires Inv(s) && call < |s.pulls|
    ensures var t := ReadOnce(s, call, cancelled).state; Conserved(t) && Prefixes(t)
  {
    hide OfCall, Flatten, Readers, Writers, ReadersRemember, WritersRemember;
    var n := Min(s.pulls[call].size, |s.buf|);
    assert s.buf == s.buf[..n] + s.buf[n..];
    assert s.history.delivered + s.buf == (s.history.delivered + s.buf[..n]) + s.buf[n..];
  }

  lemma ReadKeepsCounts(s: State, call: nat, cancelled: bool)
    requires Inv(s) && call < |s.pulls|
    ensures Counted(ReadOnce(s, call, cancelled).state)
  {
    hide OfCall, Flatten, Readers, Writers, Conserved, Prefixes, ReadersRemember, WritersRemember;
    var t, id := ReadOnce(s, call, cancelled).state, s.pulls[call].handle;
    CountsUpdate(s.handles, id, t.handles[id]);
    assert t.handles == s.handles[id := t.handles[id]];
  }

  lemma ReadKeepsReaders(s: State, call: nat, cancelled: bool)
    requires Inv(s) && call < |s.pulls|
    ensures ReadersRemember(ReadOnce(s, call, cancelled).state)
  {
    hide OfCall, Flatten, Readers, Writers, Conserved, Prefixes, WritersRemember;
  }

  lemma ReadKeepsWriters(s: State, call: nat, cancelled: bool)
    requires Inv(s) && call < |s.pulls|
    ensures WritersRemember(ReadOnce(s, call, cancelled).state)
  {
    hide OfCall, Flatten, Readers, Writers, Conserved, Prefixes, ReadersRemember;
  }

  lemma BeginKeeps(s: State, id: nat, request: Bytes)
    requires Inv(s) && id < |s.handles|
    ensures Inv(BeginWrite(s, id, request).state)
  {
    hide Flatten, Readers, Writers, OfCall;
  }

  lemma WriteKeeps(s: State, call: nat, cancelled: bool)
    requires Inv(s) && call < |s.calls|
    ensures Inv(WriteOnce(s, call, cancelled).state)
  {
    hide ReadersRemember, WritersRemember, Prefixes, Counted, Flatten, OfCall, Readers, Writers;
    CallsFit(s, call);
    WriteKeepsBytes(s, call, cancelled);
    WriteKeepsFlags(s, call, cancelled);
  }

  lemma WriteKeepsBytes(s: State, call: nat, cancelled: bool)
    requires Inv(s) && call < |s.calls|
    ensures var t := WriteOnce(s, call, cancelled).state; Conserved(t) && Prefixes(t)
  {
    hide OfCall, Flatten, Readers, Writers, Counted, ReadersRemember, WritersRemember;
    if WriteOnce(s, call, cancelled).result.Written? {
      AcceptConserves(s, call, cancelled);
      AcceptExtends(s, call, cancelled);
    }
  }

  lemma AcceptConserves(s: State, call: nat, cancelled: bool)
    requires Inv(s) && call < |s.calls| && WriteOnce(s, call, cancelled).result.Written?
    ensures Conserved(WriteOnce(s, call, cancelled).state)
  {
    hide OfCall, Flatten, Readers, Writers, Counted, ReadersRemember, WritersRemember;
    var t := WriteOnce(s, call, cancelled).state;
    var c, d := s.calls[call], t.calls[call];
    var chunk := c.request[c.written..d.written];
    LogExtends(s.history.log, Chunk(call, chunk));
    var h := s.history;
    assert h.initial + (Flatten(h.log) + chunk) == (h.initial + Flatten(h.log)) + chunk;
    assert h.delivered + (s.buf + chunk) == (h.delivered + s.buf) + chunk;
  }

  lemma AcceptExtends(s: State, call: nat, cancelled: bool)
    requires Inv(s) && call < |s.calls| && WriteOnce(s, call, cancelled).result.Written?
    ensures Prefixes(WriteOnce(s, call, cancelled).state)
  {
    hide OfCall, Flatten, Readers, Writers, Counted, ReadersRemember, WritersRemember, Conserved;
    var t := WriteOnce(s, call, cancelled).state;
    var c, d := s.calls[call], t.calls[call];
    var chunk := c.request[c.written..d.written];
    LogExtends(s.history.log, Chunk(call, chunk));
    assert c.request[..d.written] == c.request[..c.written] + chunk;
  }

  lemma WriteKeepsFlags(s: State, call: nat, cancelled: bool)
    requires Inv(s) && call < |s.calls|
    ensures var t := WriteOnce(s, call, cancelled).state; Counted(t) && ReadersRemember(t) && WritersRemember(t)
  {
    hide OfCall, Flatten, Readers, Writers;
    CallsFit(s, call);
    var t := WriteOnce(s, call, cancelled).state;
    var id := s.calls[call].handle;
    CountsUpdate(s.handles, id, t.handles[id]);
    assert t.handles == s.handles[id := t.handles[id]];
  }

  lemma CloseKeeps(s: State, id: nat)
    requires Inv(s) && id < |s.handles|
    ensures Inv(CloseFlag(s, id))
  {
    hide OfCall, Flatten, Readers, Writers;
    CountsUpdate(s.handles, id, s.handles[id].(closed := true));
  }

  lemma DetachKeeps(s: State, id: nat)
    requires Inv(s) && id < |s.handles|
    ensures Inv(Detach(s, id))
  {
    hide OfCall, Flatten, Readers, Writers;
    CountsUpdate(s.handles, id, s.handles[id].(attached := false));
  }

  // ----- the end conditions are about history -----

  /** A read reports the end exactly when the buffer is empty, its handle is open, no writer is
      attached, and a writer was attached before or this handle has received data; it reports a
      closed handle only when there is nothing to deliver. */
  lemma EndOfFileIff(s: State, call: nat, cancelled: bool)
    requires Inv(s) && call < |s.pulls| && !s.pulls[call].done
    ensures var id := s.pulls[call].handle;
            ReadOnce(s, call, cancelled).result == EndOfFile <==>
            && s.buf == [] && !s.handles[id].closed && Writers(s.handles) == 0
            && (s.history.everWriter || s.history.past[id].gotData)
    ensures ReadOnce(s, call, cancelled).result == ReadClosed <==> s.buf == [] && s.handles[s.pulls[call].handle].closed
  {
    hide Writers, Readers, Flatten, OfCall, WritersRemember, Prefixes;
  }

  /** A write reports a broken pipe exactly when its handle is open, no reader is attached, but one
      was at some point of the writer's life. */
  lemma BrokenPipeIff(s: State, call: nat, cancelled: bool)
    requires Inv(s) && call < |s.calls| && s.calls[call].written < |s.calls[call].request| && !s.calls[call].done
    ensures var id := s.calls[call].handle;
            WriteOnce(s, call, cancelled).result == BrokenPipe <==>
            !s.handles[id].closed && Readers(s.handles) == 0 && s.history.past[id].metReader
  {
    hide Writers, Readers, Flatten, OfCall, ReadersRemember;
  }

  /** A read waits exactly while its handle is open, there is nothing to deliver, and a writer is
      attached or has yet to come. */
  lemma ReadWaitsIff(s: State, read: nat)
    requires Inv(s) && read < |s.pulls| && !s.pulls[read].done
    ensures var id := s.pulls[read].handle;
            ReadOnce(s, read, false).result == ReadMustWait <==>
            && s.buf == [] && !s.handles[id].closed
            && (Writers(s.handles) > 0 || (!s.history.everWriter && !s.history.past[id].gotData))
  {
    hide Writers, Readers, Flatten, OfCall;
  }

  /** A write waits exactly while its handle is open and the buffer is full under some reader, or no
      reader was ever met. */
  lemma WriteWaitsIff(s: State, call: nat)
    requires Inv(s) && call < |s.calls| && !s.calls[call].done && s.calls[call].written < |s.calls[call].request|
    ensures var id := s.calls[call].handle;
            WriteOnce(s, call, false).result == WriteMustWait <==>
            && !s.handles[id].closed
            && (if Readers(s.handles) > 0 then |s.buf| == CAPACITY else !s.history.past[id].metReader)
  {
    hide Writers, Readers, Flatten, OfCall;
  }

  lemma {:induction false} AttachedReaderCounts(handles: seq<Handle>, i: nat)
    requires i < |handles| && handles[i].readable && handles[i].attached
    ensures Readers(handles) > 0
    decreases |handles|
  {
    if i < |handles| - 1 { AttachedReaderCounts(handles[..|handles| - 1], i); }
  }

  /** A waiting read and a waiting write never wait on each other: one of them can go on. */
  lemma NeverBothWait(s: State, read: nat, call: nat)
    requires Inv(s) && read < |s.pulls| && !s.pulls[read].done
    requires call < |s.calls| && !s.calls[call].done && s.calls[call].written < |s.calls[call].request|
    ensures !(ReadOnce(s, read, false).result == ReadMustWait && WriteOnce(s, call, false).result == WriteMustWait)
  {
    hide Readers, Writers, Flatten, OfCall, ReadOnce, WriteOnce, Conserved, Prefixes, ReadersRemember, WritersRemember;
    ReadWaitsIff(s, read);
    WriteWaitsIff(s, call);
    var id := s.pulls[read].handle;
    if !s.handles[id].closed {
      AttachedReaderCounts(s.handles, id);
    }
  }

  // ----- every run -----

  datatype Step =
    | OpenStep(readable: bool, writable: bool)
    | StartRead(id: nat, size: nat)
    | PullRead(call: nat, cancelled: bool)
    | StartWrite(id: nat, request: Bytes)
    | PushWrite(call: nat, cancelled: bool)
    | CloseStep(id: nat)
    | DetachStep(id: nat)

  /** One step of any goroutine; a step on a handle or call that does not exist does nothing. */
  function Act(s: State, step: Step): State {
    match step
    case OpenStep(readable, writable) => OpenFile(s, readable, writable)
    case StartRead(id, size) => if id < |s.handles| then BeginRead(s, id, size).state else s
    case PullRead(call, cancelled) =>
      if call < |s.pulls| && s.pulls[call].handle < |s.handles| && s.pulls[call].handle < |s.history.past| then
        ReadOnce(s, call, cancelled).state
      else s
    case StartWrite(id, request) => if id < |s.handles| then BeginWrite(s, id, request).state else s
    case PushWrite(call, cancelled) =>
      if call < |s.calls| && s.calls[call].handle < |s.handles| && s.calls[call].written <= |s.calls[call].request|
         && |s.buf| <= CAPACITY then WriteOnce(s, call, cancelled).state else s
    case CloseStep(id) => if id < |s.handles| then CloseFlag(s, id) else s
    case DetachStep(id) => if id < |s.handles| then Detach(s, id) else s
  }

  /** The state after a schedule. */
  function Play(s: State, schedule: seq<Step>): State
    decreases |schedule|
  {
    if schedule == [] then s else Act(Play(s, schedule[..|schedule| - 1]), schedule[|schedule| - 1])
  }

  class MemoryFifo {
    var buf: Bytes
    var readers: int
    var writers: int
    var readerEpoch: nat
    var writerEpoch: nat
    var handles: seq<Handle>
    var calls: seq<Call>
    var pulls: seq<ReadCall>
    ghost var history: History

    ghost function Now(): State
      reads this
    {
      State(buf, readers, writers, readerEpoch, writerEpoch, handles, calls, pulls, history)
    }

    constructor (content: Bytes)
      ensures Now() == Fresh(content)
    {
      buf, readers, writers, readerEpoch, writerEpoch, handles, calls, pulls := content, 0, 0, 0, 0, [], [], [];
      history := History(content, [], [], false, []);
    }

    /** newMemoryFIFOFile */
    method Open(readable: bool, writable: bool) returns (id: nat)
      modifies this
      ensures id == old(|handles|) && Now() == OpenFile(old(Now()), readable, writable)
    {
      id := |handles|;
      var file := Handle(readable, writable, false, true, 0, false, 0, false);
      ghost var past := history.past;
      if readable {
        if readers == 0 {
          readerEpoch := readerEpoch + 1;
        }
        readers := readers + 1;
        file := file.(writerEpoch := writerEpoch, sawWriter := writerEpoch > 0);
        past := Met(handles, past);
      }
      if writable {
        file := file.(readerEpoch := readerEpoch, sawReader := readers > 0);
        writerEpoch := writerEpoch + 1;
        writers := writers + 1;
      }
      handles := handles + [file];
      history := history.(everWriter := history.everWriter || writable,
                          past := past + [Past(writable && readers > 0, false)]);
    }

    method StartReading(id: nat, size: nat) returns (r: ReadResult)
      requires id < |handles|
      modifies this
      ensures ReadStep(Now(), r) == BeginRead(old(Now()), id, size)
    {
      var f := handles[id];
      if f.closed {
        return ReadClosed;
      }
      if !f.readable {
        return ReadDenied;
      }
      if size == 0 {
        return Received([]);
      }
      pulls := pulls + [ReadCall(id, size, false)];
      return ReadMustWait;
    }

    /** One pass of the loop of Read, up to the wait, or to the return. */
    method Read(call: nat, cancelled: bool) returns (r: ReadResult)
      requires call < |pulls| && pulls[call].handle < |handles| && pulls[call].handle < |history.past|
      modifies this
      ensures ReadStep(Now(), r) == ReadOnce(old(Now()), call, cancelled)
    {
      var id := pulls[call].handle;
      var f := handles[id];
      if pulls[call].done {
        return ReadReturned;
      }
      if |buf| == 0 {
        if !f.closed && !(writers == 0 && (f.sawWriter || writerEpoch != f.writerEpoch)) {
          handles := handles[id := f.(sawWriter := f.sawWriter || writers > 0)];
          if !cancelled {
            return ReadMustWait;
          }
          pulls := pulls[call := pulls[call].(done := true)];
          return ReadCancelled;
        }
        pulls := pulls[call := pulls[call].(done := true)];
        return if f.closed then ReadClosed else EndOfFile;
      }
      handles := handles[id := f.(sawWriter := true)];
      var n := Min(pulls[call].size, |buf|);
      var data := buf[..n];
      buf := buf[n..];
      pulls := pulls[call := pulls[call].(done := true)];
      history := history.(delivered := history.delivered + data,
                          past := history.past[id := history.past[id].(gotData := true)]);
      return Received(data);
    }

    method StartWriting(id: nat, request: Bytes) returns (r: WriteResult)
      requires id < |handles|
      modifies this
      ensures WriteStep(Now(), r) == BeginWrite(old(Now()), id, request)
    {
      var f := handles[id];
      if f.closed {
        return WriteClosed;
      }
      if !f.writable {
        return WriteDenied;
      }
      if request == [] {
        return Complete;
      }
      calls := calls + [Call(id, request, 0, false)];
      return WriteMustWait;
    }

    /** One pass of the loop of Write. */
    method Write(call: nat, cancelled: bool) returns (r: WriteResult)
      requires call < |calls| && calls[call].handle < |handles| && calls[call].written <= |calls[call].request|
      requires |buf| <= CAPACITY
      modifies this
      ensures WriteStep(Now(), r) == WriteOnce(old(Now()), call, cancelled)
    {
      var c := calls[call];
      var f := handles[c.handle];
      if c.done {
        return WriteReturned;
      }
      if c.written == |c.request| {
        calls := calls[call := c.(done := true)];
        return Complete;
      }
      if readers == 0 || |buf| >= CAPACITY {
        var broken := readers == 0 && (f.sawReader || readerEpoch != f.readerEpoch);
        if !f.closed && !broken && !cancelled {
          return WriteMustWait;
        }
        calls := calls[call := c.(done := true)];
        return if f.closed then WriteClosed else if broken then BrokenPipe else WriteCancelled;
      }
      handles := handles[c.handle := f.(sawReader := true, readerEpoch := readerEpoch)];
      var n := Min(|c.request| - c.written, CAPACITY - |buf|);
      var chunk := c.request[c.written..c.written + n];
      buf := buf + chunk;
      calls := calls[call := c.(written := c.written + n)];
      history := history.(log := history.log + [Chunk(call, chunk)]);
      return Written(n);
    }

    /** The compare-and-swap at the start of Close. */
    method Close(id: nat)
      requires id < |handles|
      modifies this
      ensures Now() == CloseFlag(old(Now()), id)
    {
      handles := handles[id := handles[id].(closed := true)];
    }

    /** The locked part of Close, which only the call that set the flag reaches, once. */
    method Leave(id: nat)
      requires id < |handles|
      modifies this
      ensures Now() == Detach(old(Now()), id)
    {
      var f := handles[id];
      if !f.closed || !f.attached {
        return;
      }
      handles := handles[id := f.(attached := false)];
      if f.readable && readers > 0 {
        readers := readers - 1;
      }
      if f.writable && writers > 0 {
        writers := writers - 1;
      }
    }

    /** One step of any goroutine; a step on a handle or call that does not exist does nothing. */
    method Perform(step: Step)
      requires Inv(Now())
      modifies this
      ensures Now() == Act(old(Now()), step)
    {
      hide Conserved, Counted, ReadersRemember, WritersRemember, Prefixes;
      HandlesHavePasts(Now());
      match step
      case OpenStep(readable, writable) =>
        var id := Open(readable, writable);
      case StartRead(id, size) =>
        if id < |handles| {
          var r := StartReading(id, size);
        }
      case PullRead(call, cancelled) =>
        if call < |pulls| {
          ReadsFit(Now(), call);
          var r := Read(call, cancelled);
        }
      case StartWrite(id, request) =>
        if id < |handles| {
          var r := StartWriting(id, request);
        }
      case PushWrite(call, cancelled) =>
        if call < |calls| {
          CallsFit(Now(), call);
          var r := Write(call, cancelled);
        }
      case CloseStep(id) =>
        if id < |handles| {
          Close(id);
        }
      case DetachStep(id) =>
        if id < |handles| {
          Leave(id);
        }
    }
  }

  lemma HandlesHavePasts(s: State)
    requires Inv(s)
    ensures |s.history.past| == |s.handles| && |s.buf| <= CAPACITY
  {
  }

  lemma ReadsFit(s: State, call: nat)
    requires Inv(s) && call < |s.pulls|
    ensures s.pulls[call].handle < |s.handles| && |s.handles| == |s.history.past|
  {
  }

  lemma CallsFit(s: State, call: nat)
    requires Inv(s) && call < |s.calls|
    ensures s.calls[call].handle < |s.handles| && s.calls[call].written <= |s.calls[call].request|
  {
  }

  lemma ActKeeps(s: State, step: Step)
    requires Inv(s)
    ensures Inv(Act(s, step)) && Act(s, step).history.initial == s.history.initial
  {
    hide Conserved, Counted, ReadersRemember, WritersRemember, Prefixes, Readers, Writers, Flatten, OfCall;
    HandlesHavePasts(s);
    match step
    case OpenStep(readable, writable) => OpenKeeps(s, readable, writable);
    case StartRead(id, size) =>
      if id < |s.handles| { BeginReadKeeps(s, id, size); }
    case PullRead(call, cancelled) =>
      if call < |s.pulls| {
        ReadsFit(s, call);
        ReadKeeps(s, call, cancelled);
      }
    case StartWrite(id, request) =>
      if id < |s.handles| { BeginKeeps(s, id, request); }
    case PushWrite(call, cancelled) =>
      if call < |s.calls| {
        CallsFit(s, call);
        WriteKeeps(s, call, cancelled);
      }
    case CloseStep(id) =>
      if id < |s.handles| { CloseKeeps(s, id); }
    case DetachStep(id) =>
      if id < |s.handles| { DetachKeeps(s, id); }
  }

  /** Every reachable state of a FIFO keeps the books: whatever the interleaving, the bytes
      delivered and buffered are the bytes accepted, in order. */
  lemma {:induction false} EveryRunKeeps(content: Bytes, schedule: seq<Step>)
    requires |content| <= CAPACITY
    ensures var s := Play(Fresh(content), schedule);
            Inv(s) && content + Flatten(s.history.log) == s.history.delivered + s.buf && |s.buf| <= CAPACITY
    ensures Play(Fresh(content), schedule).history.initial == content
    decreases |schedule|
  {
    hide Counted, ReadersRemember, WritersRemember, Prefixes, Readers, Writers, Flatten, OfCall, Act;
    if schedule == [] {
      FreshKeeps(content);
    } else {
      var n := |schedule| - 1;
      EveryRunKeeps(content, schedule[..n]);
      ActKeeps(Play(Fresh(content), schedule[..n]), schedule[n]);
    }
  }

  lemma PlayNext(s: State, schedule: seq<Step>, i: nat)
    requires i < |schedule|
    ensures Play(s, schedule[..i + 1]) == Act(Play(s, schedule[..i]), schedule[i])
  {
    assert schedule[..i + 1][..i] == schedule[..i];
  }

  /** The FIFO object under any schedule is in the state of that schedule. */
  method RunAll(content: Bytes, schedule: seq<Step>) returns (f: MemoryFifo)
    requires |content| <= CAPACITY
    ensures f.Now() == Play(Fresh(content), schedule)
  {
    hide Inv, Act, Play, Fresh;
    f := new MemoryFifo(content);
    assert schedule[..0] == [] && Play(Fresh(content), []) == Fresh(content) by { PlayNothing(Fresh(content)); }
    for i := 0 to |schedule|
      invariant fresh(f) && f.Now() == Play(Fresh(content), schedule[..i])
    {
      EveryRunKeeps(content, schedule[..i]);
      f.Perform(schedule[i]);
      PlayNext(Fresh(content), schedule, i);
    }
    assert schedule[..|schedule|] == schedule;
  }

  lemma PlayNothing(s: State)
    ensures Play(s, []) == s
  {
  }
}
