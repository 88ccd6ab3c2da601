/** The edge-triggered reader (terminal-io-epoll-et.c:173-221) as a system of interleaved steps:
  a writer, the kernel's pending edge for the one registered descriptor, and the parent's loop.
 */
module EdgeLoop {
  import opened ReadyList

  const PIPE := Event(3, 1)         // the read end, registered for EPOLLIN
  const CHUNK := 4                  // sizeof msg

  // Where the parent is: about to call epoll_wait, adding the events it returned, reading the
  // ready list at i, or about to choose the next timeout.
  datatype Pc = Waiting | Adding(ready: seq<Event>, i: nat) | Reading(i: nat) | Settling

  datatype State = State(
    written: seq<int>,      // every byte written so far
    pipe: seq<int>,         // bytes not read yet
    output: seq<int>,       // bytes the parent has printed
    edge: bool,             // an edge the kernel has not reported yet
    list: seq<Event>,
    timeout: int,
    pc: Pc)

  // Registering a descriptor with unread data reports it once.
  function Init(unread: seq<int>): State {
    State(unread, unread, [], unread != [], [], -1, Waiting)
  }

  // New data raises the edge.
  function Write(s: State, data: seq<int>): State {
    s.(written := s.written + data, pipe := s.pipe + data, edge := true)
  }

  predicate Blocked(s: State) {
    s.pc == Waiting && s.timeout == -1 && !s.edge
  }

  // What one read takes.
  function Chunk(pipe: seq<int>): nat {
    if |pipe| < CHUNK then |pipe| else CHUNK
  }

  // Reads that still find data when n bytes are left.
  function Chunks(n: nat): nat {
    (n + CHUNK - 1) / CHUNK
  }

  // One step of the parent; `block` is what a removal's new block holds.
  function ParentStep(s: State, block: int -> Event): State
    requires !Blocked(s)
  {
    match s.pc
    case Waiting =>
      if s.edge then s.(edge := false, pc := Adding([PIPE], 0)) else s.(pc := Adding([], 0))
    case Adding(ready, i) =>
      if i < |ready| then s.(list := Added(s.list, ready[i]), pc := Adding(ready, i + 1))
      else s.(pc := Reading(0))
    case Reading(i) =>
      if i >= |s.list| then s.(pc := Settling)
      else if s.pipe == [] then       // EAGAIN
        s.(list := Removed(s.list, s.list[i].fd, block), pc := Reading(i + 1))
      else
        var n := Chunk(s.pipe);
        s.(output := s.output + s.pipe[..n], pipe := s.pipe[n..], pc := Reading(i + 1))
    case Settling =>
      s.(timeout := if |s.list| == 0 then -1 else 0, pc := Waiting)
  }

  ghost predicate Step(s: State, t: State) {
    || (exists data :: data != [] && t == Write(s, data))
    || (!Blocked(s) && exists block :: t == ParentStep(s, block))
  }

  // Unread data is always about to be noticed: an edge is pending, an event is about to be
  // added, or the descriptor is in the ready list.
  predicate DataNoticed(s: State) {
    s.pipe == [] || s.edge || s.list != [] || (s.pc.Adding? && s.pc.i < |s.pc.ready|)
  }

  predicate Inv(s: State) {
    && s.output + s.pipe == s.written
    && (s.list == [] || s.list == [PIPE])
    && (s.timeout == -1 || s.timeout == 0)
    && (s.pc.Waiting? ==> (s.timeout == -1 <==> s.list == []))
    && (s.pc.Adding? ==> s.pc.i <= |s.pc.ready| && (s.pc.ready == [] || s.pc.ready == [PIPE]))
    && DataNoticed(s)
  }

  lemma AddPipe(list: seq<Event>)
    requires list == [] || list == [PIPE]
    ensures Added(list, PIPE) == [PIPE]
  {
    if list == [PIPE] {
      assert list[0].fd == PIPE.fd;
    }
  }

  lemma RemovePipe(block: int -> Event)
    ensures Removed([PIPE], PIPE.fd, block) == []
  {
    assert [PIPE][0].fd == PIPE.fd;
  }

  lemma ChunkOff(output: seq<int>, pipe: seq<int>)
    requires pipe != []
    ensures var n := Chunk(pipe);
            && 0 < n <= |pipe| && (output + pipe[..n]) + pipe[n..] == output + pipe
            && Chunks(|pipe| - n) == Chunks(|pipe|) - 1
  {
    assert pipe == pipe[..Chunk(pipe)] + pipe[Chunk(pipe)..];
  }

  lemma ParentKeepsInv(s: State, block: int -> Event)
    requires Inv(s) && !Blocked(s)
    ensures Inv(ParentStep(s, block))
  {
    hide Added, Removed, Chunk, Chunks;
    AddPipe(s.list);
    RemovePipe(block);
    if s.pipe != [] {
      ChunkOff(s.output, s.pipe);
    }
  }

  lemma StepKeepsInv(s: State, t: State)
    requires Inv(s) && Step(s, t)
    ensures Inv(t)
  {
    if !Blocked(s) && exists block :: t == ParentStep(s, block) {
      var block :| t == ParentStep(s, block);
      ParentKeepsInv(s, block);
    } else {
      var data :| data != [] && t == Write(s, data);
      assert s.output + (s.pipe + data) == (s.output + s.pipe) + data;
    }
  }

  // ---------------------------------------------------------------- all runs

  ghost predicate Run(states: seq<State>) {
    && states != []
    && (exists unread :: states[0] == Init(unread))
    && forall k :: 0 < k < |states| ==> Step(states[k - 1], states[k])
  }

  lemma {:induction false} RunKeepsInv(states: seq<State>, k: nat)
    requires Run(states) && k < |states|
    ensures Inv(states[k])
  {
    if k == 0 {
      var unread :| states[0] == Init(unread);
    } else {
      RunKeepsInv(states, k - 1);
      StepKeepsInv(states[k - 1], states[k]);
    }
  }

  // In every reachable state, what was printed and what is unread make up what was written;
  // and a parent that sleeps without a timeout has printed all of it.
  lemma NoLostWakeup(states: seq<State>, k: nat)
    requires Run(states) && k < |states|
    ensures var s := states[k];
            && s.output + s.pipe == s.written
            && (Blocked(s) ==> s.pipe == [] && s.output == s.written)
  {
    RunKeepsInv(states, k);
  }

  // ---------------------------------------------------------------- one turn of the loop

  // The parent alone, until it is about to call epoll_wait or has made as many steps as there
  // are blocks.
  function ToWaiting(s: State, blocks: seq<int -> Event>): State
    decreases |blocks|
  {
    if |blocks| == 0 || s.pc == Waiting then s else ToWaiting(ParentStep(s, blocks[0]), blocks[1..])
  }

  // The loop body once, with its epoll_wait.
  function Turn(s: State, blocks: seq<int -> Event>): State
    requires !Blocked(s) && |blocks| > 0
  {
    ToWaiting(ParentStep(s, blocks[0]), blocks[1..])
  }

  lemma {:induction false} OneStep(s: State, blocks: seq<int -> Event>)
    requires s.pc != Waiting && |blocks| > 0
    ensures ToWaiting(s, blocks) == ToWaiting(ParentStep(s, blocks[0]), blocks[1..])
  {
  }

  // Three steps read the pipe once and settle.
  lemma {:induction false} ReadsOnce(s: State, blocks: seq<int -> Event>)
    requires Inv(s) && s.pc == Reading(0) && s.list == [PIPE] && |blocks| >= 3
    ensures var n := if |s.pipe| < 4 then |s.pipe| else 4;
            var list := if s.pipe == [] then [] else [PIPE];
            ToWaiting(s, blocks)
            == s.(output := s.output + s.pipe[..n], pipe := s.pipe[n..], list := list,
                  timeout := if list == [] then -1 else 0, pc := Waiting)
  {
    hide Removed;
    RemovePipe(blocks[0]);
    var x := ParentStep(s, blocks[0]);
    assert s.pipe == [] ==> x.output == s.output + s.pipe[..0] && x.pipe == s.pipe[0..];
    var y := ParentStep(x, blocks[1..][0]);
    assert y.pc == Settling;
    assert ToWaiting(y, blocks[1..][1..]) == ToWaiting(ParentStep(y, blocks[1..][1..][0]), blocks[1..][1..][1..]);
  }

  // From any reachable state in which it is about to call epoll_wait and not blocked, the
  // parent alone calls it again within six steps.  In between it has printed what one read of
  // four bytes takes and no more, whatever is left to read, and keeps the descriptor in its
  // list until a read finds nothing.
  lemma {:induction false} OneReadPerTurn(states: seq<State>, k: nat, blocks: seq<int -> Event>)
    requires Run(states) && k < |states| && |blocks| >= 6
    requires states[k].pc == Waiting && !Blocked(states[k])
    ensures var s, t := states[k], Turn(states[k], blocks);
            var n := if |s.pipe| < 4 then |s.pipe| else 4;
            && t.pc == Waiting && !t.edge && t.written == s.written
            && t.output == s.output + s.pipe[..n] && t.pipe == s.pipe[n..]
            && t.list == (if s.pipe == [] then [] else [PIPE])
            && t.timeout == (if s.pipe == [] then -1 else 0)
  {
    RunKeepsInv(states, k);
    var s := states[k];
    AddPipe(s.list);
    hide Added, Removed;
    var ready := if s.edge then [PIPE] else [];
    var reading := s.(edge := false, list := [PIPE], pc := Reading(0));
    var rest := blocks[1..];
    assert ParentStep(s, blocks[0]) == s.(edge := false, pc := Adding(ready, 0));
    if s.edge {
      OneStep(s.(edge := false, pc := Adding(ready, 0)), rest);
      OneStep(s.(edge := false, list := [PIPE], pc := Adding(ready, 1)), rest[1..]);
      ReadsOnce(reading, rest[1..][1..]);
    } else {
      OneStep(s.(edge := false, pc := Adding(ready, 0)), rest);
      ReadsOnce(reading, rest[1..]);
    }
  }

  // How often the parent has gone back to epoll_wait.
  function Turns(states: seq<State>): nat {
    if |states| < 2 then 0
    else
      var n := |states| - 1;
      Turns(states[..n]) + if states[n - 1].pc == Settling && states[n].pc == Waiting then 1 else 0
  }

  // It has read in this turn of the loop.
  predicate HasRead(pc: Pc) {
    pc == Settling || (pc.Reading? && pc.i > 0)
  }

  lemma StepReads(s: State, t: State)
    requires Inv(s) && Step(s, t)
    ensures var turn := if s.pc == Settling && t.pc == Waiting then 4 else 0;
            |t.output| + (if HasRead(s.pc) then 4 else 0)
            <= |s.output| + (if HasRead(t.pc) then 4 else 0) + turn
  {
  }

  // However the writer's steps fall in between, the parent prints at most four bytes for each
  // time it goes back to epoll_wait.
  lemma {:induction false} FourBytesPerTurn(states: seq<State>)
    requires Run(states)
    ensures var s := states[|states| - 1];
            |s.output| <= 4 * Turns(states) + if HasRead(s.pc) then 4 else 0
    decreases |states|
  {
    var n := |states| - 1;
    if n == 0 {
      var unread :| states[0] == Init(unread);
    } else {
      assert Run(states[..n]);
      FourBytesPerTurn(states[..n]);
      RunKeepsInv(states, n - 1);
      StepReads(states[n - 1], states[n]);
    }
  }

  // ---------------------------------------------------------------- draining

  // Steps the parent needs to come to rest when the writer is silent.
  function Remaining(s: State): nat {
    5 * Chunks(|s.pipe|) + (if s.edge then 7 else 0)
    + match s.pc
      case Waiting => if s.list == [] then 0 else 5
      case Adding(ready, i) => (if i < |ready| then |ready| - i else 0) + 4
      case Reading(i) => if i < |s.list| then 3 else if s.list == [] then 2 else 7
      case Settling => if s.list == [] then 1 else 6
  }

  lemma {:induction false} ParentMakesProgress(s: State, block: int -> Event)
    requires Inv(s) && !Blocked(s)
    ensures Remaining(ParentStep(s, block)) < Remaining(s)
  {
    hide Added, Removed, Chunk, Chunks;
    AddPipe(s.list);
    RemovePipe(block);
    if s.pipe != [] {
      ChunkOff(s.output, s.pipe);
    }
  }

  // The parent alone, until it blocks or has made as many steps as there are blocks.
  function ParentRun(s: State, blocks: seq<int -> Event>): State
    decreases |blocks|
  {
    if |blocks| == 0 || Blocked(s) then s else ParentRun(ParentStep(s, blocks[0]), blocks[1..])
  }

  lemma {:induction false} RunComesToRest(s: State, blocks: seq<int -> Event>)
    requires Inv(s) && |blocks| >= Remaining(s)
    ensures Inv(ParentRun(s, blocks)) && Blocked(ParentRun(s, blocks))
    ensures ParentRun(s, blocks).written == s.written
    decreases |blocks|
  {
    if !Blocked(s) {
      ParentMakesProgress(s, blocks[0]);
      ParentKeepsInv(s, blocks[0]);
      RunComesToRest(ParentStep(s, blocks[0]), blocks[1..]);
    }
  }

  // From every reachable state with n unread bytes, if the writer stays silent, the parent
  // has printed everything, emptied its list and gone back to sleeping without a timeout
  // after at most 5 * ceil(n / 4) + 14 steps.
  lemma SilentWriterDrains(states: seq<State>, k: nat, blocks: seq<int -> Event>)
    requires Run(states) && k < |states|
    requires |blocks| >= 5 * ((|states[k].pipe| + 3) / 4) + 14
    ensures var t := ParentRun(states[k], blocks);
            && t.written == states[k].written && t.output == t.written
            && t.pipe == [] && t.list == [] && t.timeout == -1 && t.pc == Waiting
  {
    RunKeepsInv(states, k);
    RunComesToRest(states[k], blocks);
  }
}
