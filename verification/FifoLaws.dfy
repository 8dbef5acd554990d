/** What one step of the FIFO does, told by what its caller sees, and what the history that `Fifo` keeps
    stands for (fs/fifo.go).

    The invariants of `Fifo` say what every step keeps. The laws here say what a step achieves: how
    many bytes change hands, when a call returns, and which parts of the state are left alone.
 */
module FifoLaws {
  import opened Fifo

  // ----- reading -----

  /** The counts, the epochs, the calls of Write, and everything of other handles and reads. */
  ghost predicate OnlyRead(s: State, t: State, call: nat)
    requires call < |s.pulls|
  {
    && t.readers == s.readers && t.writers == s.writers
    && t.readerEpoch == s.readerEpoch && t.writerEpoch == s.writerEpoch
    && t.calls == s.calls && |t.pulls| == |s.pulls| && |t.handles| == |s.handles|
    && (forall c | 0 <= c < |s.pulls| && c != call :: t.pulls[c] == s.pulls[c])
    && t.pulls[call].handle == s.pulls[call].handle && t.pulls[call].size == s.pulls[call].size
    && (forall i | 0 <= i < |s.handles| :: t.handles[i] == s.handles[i].(sawWriter := t.handles[i].sawWriter))
    && (forall i | 0 <= i < |s.handles| && i != s.pulls[call].handle :: t.handles[i] == s.handles[i])
  }

  /** A read delivers as soon as something is buffered: the first bytes of the buffer, as many as were
      asked for or all there are. It gives up for its context only where it would have waited. */
  lemma ReadLaw(s: State, call: nat, cancelled: bool)
    requires Inv(s) && call < |s.pulls| && !s.pulls[call].done
    ensures var t, r := ReadOnce(s, call, cancelled).state, ReadOnce(s, call, cancelled).result;
            && (r.Received? <==> s.buf != [])
            && (r.Received? ==>
                  && r.data + t.buf == s.buf && 0 < |r.data| <= s.pulls[call].size
                  && (|r.data| == s.pulls[call].size || t.buf == []))
            && (!r.Received? ==> t.buf == s.buf)
            && (r == ReadCancelled <==> cancelled && ReadOnce(s, call, false).result == ReadMustWait)
            && (r == ReadMustWait <==> !cancelled && ReadOnce(s, call, false).result == ReadMustWait)
            && (t.pulls[call].done <==> r != ReadMustWait) && r != ReadReturned && r != ReadDenied
            && OnlyRead(s, t, call)
  {
    hide Readers, Writers, Flatten, OfCall, Conserved, Prefixes, ReadersRemember, WritersRemember;
    var n := Min(s.pulls[call].size, |s.buf|);
    assert s.buf[..n] + s.buf[n..] == s.buf;
  }

  /** A read that has returned takes no further step. */
  lemma ReadOver(s: State, call: nat, cancelled: bool)
    requires Inv(s) && call < |s.pulls| && s.pulls[call].done
    ensures ReadOnce(s, call, cancelled) == ReadStep(s, ReadReturned)
  {
    hide Readers, Writers, Flatten, OfCall, Conserved, Prefixes, ReadersRemember, WritersRemember;
  }

  /** A read starts exactly when its handle is open for reading and it asks for something; otherwise it
      returns at once, and nothing has changed. */
  lemma ReadStarts(s: State, id: nat, size: nat)
    requires id < |s.handles|
    ensures var o := BeginRead(s, id, size);
            if !s.handles[id].closed && s.handles[id].readable && size > 0 then
              && o.result == ReadMustWait
              && o.state.pulls == s.pulls + [ReadCall(id, size, false)] && o.state.(pulls := s.pulls) == s
            else
              && o.state == s
              && (o.result == ReadClosed <==> s.handles[id].closed)
              && (o.result == ReadDenied <==> !s.handles[id].closed && !s.handles[id].readable)
              && (o.result == Received([]) <==> !s.handles[id].closed && s.handles[id].readable && size == 0)
  {
  }

  // ----- writing -----

  ghost predicate OnlyWritten(s: State, t: State, call: nat)
    requires call < |s.calls|
  {
    && t.readers == s.readers && t.writers == s.writers
    && t.readerEpoch == s.readerEpoch && t.writerEpoch == s.writerEpoch
    && t.pulls == s.pulls && |t.calls| == |s.calls| && |t.handles| == |s.handles|
    && (forall c | 0 <= c < |s.calls| && c != call :: t.calls[c] == s.calls[c])
    && t.calls[call].handle == s.calls[call].handle && t.calls[call].request == s.calls[call].request
    && (forall i | 0 <= i < |s.handles| ::
          t.handles[i] == s.handles[i].(sawReader := t.handles[i].sawReader, readerEpoch := t.handles[i].readerEpoch))
    && (forall i | 0 <= i < |s.handles| && i != s.calls[call].handle :: t.handles[i] == s.handles[i])
  }

  /** A write goes on exactly while a reader is attached and the buffer has room: it adds the next bytes
      of its request to the end of the buffer, as many as it reports, and stops short only when the
      buffer is full. It gives up for its context only where it would have waited. */
  lemma WriteLaw(s: State, call: nat, cancelled: bool)
    requires Inv(s) && call < |s.calls| && !s.calls[call].done
    ensures CallFits(s, call)
    ensures var t, r, c := WriteOnce(s, call, cancelled).state, WriteOnce(s, call, cancelled).result, s.calls[call];
            && (r == Complete <==> c.written == |c.request|)
            && (r.Written? <==> c.written < |c.request| && Readers(s.handles) > 0 && |s.buf| < 0x1_0000)
            && (r.Written? ==>
                  && 0 < r.n <= |c.request| - c.written && t.calls[call].written == c.written + r.n
                  && t.buf == s.buf + c.request[c.written..c.written + r.n]
                  && (t.calls[call].written == |c.request| || |t.buf| == 0x1_0000))
            && (!r.Written? ==> t.buf == s.buf && t.calls[call].written == c.written)
            && (r == WriteClosed <==>
                  && c.written < |c.request| && s.handles[c.handle].closed
                  && (Readers(s.handles) == 0 || |s.buf| == 0x1_0000))
            && (r == WriteCancelled <==> cancelled && WriteOnce(s, call, false).result == WriteMustWait)
            && (r == WriteMustWait <==> !cancelled && WriteOnce(s, call, false).result == WriteMustWait)
            && (t.calls[call].done <==> r != WriteMustWait && !r.Written?) && r != WriteReturned && r != WriteDenied
            && OnlyWritten(s, t, call)
  {
    hide Readers, Writers, Flatten, OfCall, ReadersRemember, WritersRemember;
    CallsFit(s, call);
  }

  predicate CallFits(s: State, call: nat)
    requires call < |s.calls|
  {
    s.calls[call].handle < |s.handles| && s.calls[call].written <= |s.calls[call].request| && |s.buf| <= CAPACITY
  }

  lemma WriteOver(s: State, call: nat, cancelled: bool)
    requires Inv(s) && call < |s.calls| && s.calls[call].done
    ensures CallFits(s, call) && WriteOnce(s, call, cancelled) == WriteStep(s, WriteReturned)
  {
    hide Readers, Writers, Flatten, OfCall, ReadersRemember, WritersRemember;
    CallsFit(s, call);
  }

  lemma WriteStarts(s: State, id: nat, request: Bytes)
    requires id < |s.handles|
    ensures var o := BeginWrite(s, id, request);
            if !s.handles[id].closed && s.handles[id].writable && request != [] then
              && o.result == WriteMustWait
              && o.state.calls == s.calls + [Call(id, request, 0, false)] && o.state.(calls := s.calls) == s
            else
              && o.state == s
              && (o.result == WriteClosed <==> s.handles[id].closed)
              && (o.result == WriteDenied <==> !s.handles[id].closed && !s.handles[id].writable)
              && (o.result == Complete <==> !s.handles[id].closed && s.handles[id].writable && request == [])
  {
  }

  // ----- opening and closing -----

  /** A new handle is open and attached, and counts for the sides it was opened for. */
  lemma OpenLaw(s: State, readable: bool, writable: bool)
    requires Inv(s)
    ensures var t, n := OpenFile(s, readable, writable), |s.handles|;
            && |t.handles| == n + 1 && t.handles[..n] == s.handles
            && t.handles[n].readable == readable && t.handles[n].writable == writable
            && t.handles[n].attached && !t.handles[n].closed
            && t.readers == s.readers + (if readable then 1 else 0)
            && t.writers == s.writers + (if writable then 1 else 0)
            && t.buf == s.buf && t.calls == s.calls && t.pulls == s.pulls
  {
    hide Readers, Writers, Flatten, OfCall, Conserved, Counted, Prefixes, ReadersRemember, WritersRemember;
  }

  /** Closing a handle takes it out of the counts once, and leaves the buffer and every other handle. */
  lemma CloseLaw(s: State, id: nat)
    requires Inv(s) && id < |s.handles|
    ensures var f, t := s.handles[id], Detach(CloseFlag(s, id), id);
            && |t.handles| == |s.handles| && t.handles[id] == f.(closed := true, attached := false)
            && (forall i | 0 <= i < |s.handles| && i != id :: t.handles[i] == s.handles[i])
            && t.readers == s.readers - (if f.readable && f.attached then 1 else 0)
            && t.writers == s.writers - (if f.writable && f.attached then 1 else 0)
            && t.buf == s.buf && t.calls == s.calls && t.pulls == s.pulls
            && t.readerEpoch == s.readerEpoch && t.writerEpoch == s.writerEpoch
            && CloseFlag(s, id) == s.(handles := s.handles[id := f.(closed := true)])
            && Detach(CloseFlag(t, id), id) == t && (!f.closed ==> Detach(s, id) == s)
  {
    hide Readers, Writers, Flatten, OfCall, Conserved, Prefixes, ReadersRemember, WritersRemember;
    CountsUpdate(s.handles, id, s.handles[id].(closed := true, attached := false));
  }

  // ----- what the history stands for -----

  /** The bytes a step hands to a reader, and those it takes from a writer. */
  function Delivered(s: State, step: Step): Bytes
    requires Inv(s)
  {
    if !step.PullRead? || step.call >= |s.pulls| then []
    else
      ReadsFit(s, step.call);
      match ReadOnce(s, step.call, step.cancelled).result
      case Received(data) => data
      case _ => []
  }

  function Accepted(s: State, step: Step): Bytes
    requires Inv(s)
  {
    if !step.PushWrite? || step.call >= |s.calls| then []
    else
      CallsFit(s, step.call);
      var c, o := s.calls[step.call], WriteOnce(s, step.call, step.cancelled);
      var d := o.state.calls[step.call];
      if o.result.Written? && c.written <= d.written <= |c.request| then c.request[c.written..d.written] else []
  }

  /** Everything delivered, and everything accepted, by a whole run. */
  ghost function Output(content: Bytes, schedule: seq<Step>): Bytes
    requires |content| <= CAPACITY
    decreases |schedule|
  {
    if schedule == [] then []
    else
      var n := |schedule| - 1;
      EveryRunKeeps(content, schedule[..n]);
      Output(content, schedule[..n]) + Delivered(Play(Fresh(content), schedule[..n]), schedule[n])
  }

  ghost function Input(content: Bytes, schedule: seq<Step>): Bytes
    requires |content| <= CAPACITY
    decreases |schedule|
  {
    if schedule == [] then []
    else
      var n := |schedule| - 1;
      EveryRunKeeps(content, schedule[..n]);
      Input(content, schedule[..n]) + Accepted(Play(Fresh(content), schedule[..n]), schedule[n])
  }

  lemma StepRecords(s: State, step: Step)
    requires Inv(s)
    ensures Act(s, step).history.delivered == s.history.delivered + Delivered(s, step)
    ensures Flatten(Act(s, step).history.log) == Flatten(s.history.log) + Accepted(s, step)
  {
    hide Readers, Writers, Flatten, OfCall, ReadersRemember, WritersRemember;
    if step.PullRead? && step.call < |s.pulls| {
      ReadsFit(s, step.call);
    } else if step.PushWrite? && step.call < |s.calls| {
      CallsFit(s, step.call);
      var o := WriteOnce(s, step.call, step.cancelled);
      if o.result.Written? { LogExtends(s.history.log, Chunk(step.call, Accepted(s, step))); }
    }
  }

  /** First in, first out, over every run: what was there at first and what the writers have put in is
      what the readers have got, followed by what is still buffered. */
  lemma {:induction false} FirstInFirstOut(content: Bytes, schedule: seq<Step>)
    requires |content| <= CAPACITY
    ensures content + Input(content, schedule) == Output(content, schedule) + Play(Fresh(content), schedule).buf
    ensures var h := Play(Fresh(content), schedule).history;
            h.delivered == Output(content, schedule) && Flatten(h.log) == Input(content, schedule)
    decreases |schedule|
  {
    hide Act, Delivered, Accepted, Inv;
    EveryRunKeeps(content, schedule);
    if schedule != [] {
      var n := |schedule| - 1;
      EveryRunKeeps(content, schedule[..n]);
      FirstInFirstOut(content, schedule[..n]);
      StepRecords(Play(Fresh(content), schedule[..n]), schedule[n]);
    }
  }

  /** This step gives data to handle i. */
  ghost predicate Feeds(s: State, step: Step, i: nat) {
    && step.PullRead? && step.call < |s.pulls| && s.pulls[step.call].handle == i
    && i < |s.handles| && i < |s.history.past|
    && ReadOnce(s, step.call, step.cancelled).result.Received?
  }

  /** Handle i is attached while a reader is. */
  ghost predicate Meets(s: State, i: nat) {
    i < |s.handles| && s.handles[i].attached && Readers(s.handles) > 0
  }

  lemma OpenRemembers(s: State, readable: bool, writable: bool, i: nat)
    requires Inv(s)
    ensures var t := OpenFile(s, readable, writable);
            && (t.history.everWriter <==> s.history.everWriter || writable)
            && |t.handles| == |t.history.past| == |s.handles| + 1 && |s.handles| == |s.history.past|
            && (i < |s.handles| ==>
                  && t.handles[i] == s.handles[i] && t.history.past[i].gotData == s.history.past[i].gotData
                  && (s.history.past[i].metReader ==> t.history.past[i].metReader))
            && (i == |s.handles| ==> !t.history.past[i].gotData)
            && (i < |t.handles| && t.history.past[i].metReader ==>
                  (i < |s.handles| && s.history.past[i].metReader) || Meets(t, i))
  {
    hide Flatten, OfCall, Conserved, Prefixes, ReadersRemember, Readers, Writers;
    CountsAppend(s.handles, OpenFile(s, readable, writable).handles[|s.handles|]);
  }

  // No other step attaches anything.
  lemma OthersRemember(s: State, step: Step, i: nat)
    requires Inv(s) && !step.OpenStep?
    ensures var t := Act(s, step);
            && t.history.everWriter == s.history.everWriter
            && |t.handles| == |s.handles| == |t.history.past| == |s.history.past|
            && (i < |s.handles| ==>
                  && t.handles[i].writable == s.handles[i].writable
                  && t.history.past[i].metReader == s.history.past[i].metReader
                  && (t.history.past[i].gotData <==> s.history.past[i].gotData || Feeds(s, step, i)))
  {
    hide Flatten, OfCall, Conserved, ReadersRemember, WritersRemember, Readers, Writers;
    if step.PullRead? && step.call < |s.pulls| {
      ReadsFit(s, step.call);
    } else if step.PushWrite? && step.call < |s.calls| {
      CallsFit(s, step.call);
    }
  }

  // Whoever is attached while a reader is has met one.
  lemma MeetingIsRemembered(s: State, i: nat)
    requires Inv(s) && i < |s.handles| && s.handles[i].writable && Meets(s, i)
    ensures i < |s.history.past| && s.history.past[i].metReader
  {
    hide Flatten, OfCall, Conserved, Prefixes, ReadersRemember, Readers, Writers;
  }

  lemma StepRemembers(s: State, step: Step, i: nat)
    requires Inv(s)
    ensures var t := Act(s, step);
            && (t.history.everWriter <==> s.history.everWriter || (step.OpenStep? && step.writable))
            && |s.handles| <= |t.handles| == |t.history.past| && |s.handles| == |s.history.past|
            && (i < |t.handles| ==>
                  (t.history.past[i].gotData <==> (i < |s.handles| && s.history.past[i].gotData) || Feeds(s, step, i)))
            && (i < |s.handles| ==> t.handles[i].writable == s.handles[i].writable)
            && (i < |t.handles| && t.handles[i].writable ==>
                  (t.history.past[i].metReader <==> (i < |s.handles| && s.history.past[i].metReader) || Meets(t, i)))
  {
    hide Inv, OpenFile, ReadOnce, Readers, Meets;
    ActKeeps(s, step);
    var t := Act(s, step);
    if step.OpenStep? {
      OpenRemembers(s, step.readable, step.writable, i);
    } else {
      OthersRemember(s, step, i);
    }
    if i < |t.handles| && t.handles[i].writable && Meets(t, i) { MeetingIsRemembered(t, i); }
  }

  /** Handle i got data in some step of the run. */
  ghost predicate WasFed(content: Bytes, schedule: seq<Step>, i: nat) {
    exists k | 0 <= k < |schedule| :: Feeds(Play(Fresh(content), schedule[..k]), schedule[k], i)
  }

  /** At some moment of the run handle i was attached and a reader was. */
  ghost predicate WasMet(content: Bytes, schedule: seq<Step>, i: nat) {
    exists k | 0 <= k <= |schedule| :: Meets(Play(Fresh(content), schedule[..k]), i)
  }

  /** The history flags over every run: whether any writer was ever opened, whether a handle ever got
      data, and whether a reader was ever attached in the life of a writer. */
  lemma {:induction false} HistoryMeans(content: Bytes, schedule: seq<Step>, i: nat)
    requires |content| <= CAPACITY
    ensures var s := Play(Fresh(content), schedule);
            && |s.handles| == |s.history.past|
            && (s.history.everWriter <==>
                  exists k | 0 <= k < |schedule| :: schedule[k].OpenStep? && schedule[k].writable)
            && (WasFed(content, schedule, i) <==> i < |s.handles| && s.history.past[i].gotData)
            && (WasMet(content, schedule, i) ==> i < |s.handles|)
            && (i < |s.handles| && s.handles[i].writable ==>
                  (WasMet(content, schedule, i) <==> s.history.past[i].metReader))
    decreases |schedule|
  {
    hide Act, Feeds, Meets, Inv, WasFed, WasMet;
    if schedule == [] {
      NothingYet(content, i);
    } else {
      var n := |schedule| - 1;
      EveryRunKeeps(content, schedule[..n]);
      HistoryMeans(content, schedule[..n], i);
      StepRemembers(Play(Fresh(content), schedule[..n]), schedule[n], i);
      OneStepMore(content, schedule, i);
      OnlyExisting(Play(Fresh(content), schedule[..n]), Play(Fresh(content), schedule), schedule[n], i);
    }
  }

  lemma NothingYet(content: Bytes, i: nat)
    ensures !WasFed(content, [], i) && !WasMet(content, [], i)
  {
  }

  lemma OneStepMore(content: Bytes, schedule: seq<Step>, i: nat)
    requires schedule != []
    ensures var n := |schedule| - 1;
            && (WasFed(content, schedule, i) <==>
                  WasFed(content, schedule[..n], i) || Feeds(Play(Fresh(content), schedule[..n]), schedule[n], i))
            && (WasMet(content, schedule, i) <==>
                  WasMet(content, schedule[..n], i) || Meets(Play(Fresh(content), schedule), i))
  {
    hide Act, Feeds, Meets;
    var n := |schedule| - 1;
    assert schedule[..n + 1] == schedule;
    assert forall k | 0 <= k <= n :: schedule[..n][..k] == schedule[..k];
    assert forall k | 0 <= k < n :: schedule[..n][k] == schedule[k];
  }

  lemma OnlyExisting(s: State, t: State, step: Step, i: nat)
    ensures Feeds(s, step, i) ==> i < |s.handles|
    ensures Meets(t, i) ==> i < |t.handles|
  {
  }
}
