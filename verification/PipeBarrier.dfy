/** A parent waits for all its children on a pipe nobody writes to: every child closes its copy
  of the write end when its work is done, and the parent's read sees end of file once no copy
  is left (multiprocess-sync.cpp:43-97).  Any number of children, any interleaving; a fork or a
  close may fail.
 */
module PipeBarrier {

  // The parent forks, closes its write end, reads, closes its read end and succeeds; or fails.
  datatype Parent = Forking | Reading | ClosingRead | Done | Failed

  // A forked child closes its read end, sleeps, closes its write end, exits.
  datatype Child = ClosingRead | Asleep | ClosingWrite | Exiting | Gone

  datatype State = State(
    parent: Parent,
    children: seq<Child>,   // those forked so far
    writers: nat,           // the kernel's count of open write ends
    readers: nat)           // and of open read ends

  datatype Event =
    | Fork
    | ParentFails           // a failed fork, close or read: the parent exits
    | ParentClosesWrite
    | ParentReadsEof
    | ParentClosesRead
    | ChildClosesRead(i: nat)
    | ChildWakes(i: nat)
    | ChildClosesWrite(i: nat)
    | ChildExits(i: nat)
    | ChildDies(i: nat)     // a failed close, or a signal: the kernel closes what is left

  function Init(): State {
    State(Forking, [], 1, 1)
  }

  predicate ChildAt(s: State, i: nat, c: Child) {
    i < |s.children| && s.children[i] == c
  }

  function HoldsWrite(c: Child): nat {
    if c == Exiting || c == Gone then 0 else 1
  }

  function HoldsRead(c: Child): nat {
    if c == Child.ClosingRead then 1 else 0
  }

  // `n` is the number of children the command line asks for.
  predicate Enabled(n: nat, s: State, e: Event) {
    match e
    case Fork => s.parent == Forking && |s.children| < n
    case ParentFails => s.parent != Done && s.parent != Failed
    case ParentClosesWrite => s.parent == Forking && |s.children| == n
    case ParentReadsEof => s.parent == Reading && s.writers == 0
    case ParentClosesRead => s.parent == Parent.ClosingRead
    case ChildClosesRead(i) => ChildAt(s, i, Child.ClosingRead)
    case ChildWakes(i) => ChildAt(s, i, Asleep)
    case ChildClosesWrite(i) => ChildAt(s, i, ClosingWrite)
    case ChildExits(i) => ChildAt(s, i, Exiting)
    case ChildDies(i) => i < |s.children| && s.children[i] != Exiting && s.children[i] != Gone
  }

  function SetChild(s: State, i: nat, c: Child): State
    requires i < |s.children|
  {
    s.(children := s.children[i := c])
  }

  function Dec(x: nat): nat {
    if x > 0 then x - 1 else 0
  }

  function Minus(x: nat, y: nat): nat {
    if x >= y then x - y else 0
  }

  // What each event does; a child inherits both ends, and an exit closes what is still open.
  function Next(n: nat, s: State, e: Event): State
    requires Enabled(n, s, e)
  {
    match e
    case Fork =>
      s.(children := s.children + [Child.ClosingRead], writers := s.writers + 1, readers := s.readers + 1)
    case ParentFails =>
      var writers := if s.parent == Forking then Dec(s.writers) else s.writers;
      s.(parent := Failed, writers := writers, readers := Dec(s.readers))
    case ParentClosesWrite => s.(parent := Reading, writers := Dec(s.writers))
    case ParentReadsEof => s.(parent := Parent.ClosingRead)
    case ParentClosesRead => s.(parent := Done, readers := Dec(s.readers))
    case ChildClosesRead(i) => SetChild(s, i, Asleep).(readers := Dec(s.readers))
    case ChildWakes(i) => SetChild(s, i, ClosingWrite)
    case ChildClosesWrite(i) => SetChild(s, i, Exiting).(writers := Dec(s.writers))
    case ChildExits(i) => SetChild(s, i, Gone)
    case ChildDies(i) =>
      SetChild(s, i, Gone).(writers := Dec(s.writers), readers := Minus(s.readers, HoldsRead(s.children[i])))
  }

  // ---------------------------------------------------------------- counting ends

  function WriteEnds(children: seq<Child>): nat {
    if children == [] then 0 else HoldsWrite(children[0]) + WriteEnds(children[1..])
  }

  function ReadEnds(children: seq<Child>): nat {
    if children == [] then 0 else HoldsRead(children[0]) + ReadEnds(children[1..])
  }

  lemma {:induction false} EndsSnoc(children: seq<Child>, c: Child)
    ensures WriteEnds(children + [c]) == WriteEnds(children) + HoldsWrite(c)
    ensures ReadEnds(children + [c]) == ReadEnds(children) + HoldsRead(c)
  {
    if children == [] {
      assert children + [c] == [c];
      assert [c][1..] == [];
    } else {
      assert (children + [c])[1..] == children[1..] + [c];
      EndsSnoc(children[1..], c);
    }
  }

  lemma {:induction false} EndsUpdate(children: seq<Child>, i: nat, c: Child)
    requires i < |children|
    ensures WriteEnds(children[i := c]) == WriteEnds(children) - HoldsWrite(children[i]) + HoldsWrite(c)
    ensures ReadEnds(children[i := c]) == ReadEnds(children) - HoldsRead(children[i]) + HoldsRead(c)
    ensures WriteEnds(children) >= HoldsWrite(children[i]) && ReadEnds(children) >= HoldsRead(children[i])
  {
    if i == 0 {
      assert children[i := c][1..] == children[1..];
    } else {
      assert children[i := c][1..] == children[1..][i - 1 := c];
      EndsUpdate(children[1..], i - 1, c);
    }
  }

  lemma {:induction false} NoWriteEnds(children: seq<Child>)
    ensures WriteEnds(children) == 0 <==> forall i :: 0 <= i < |children| ==> HoldsWrite(children[i]) == 0
  {
    if children != [] {
      NoWriteEnds(children[1..]);
      assert forall i :: 1 <= i < |children| ==> children[1..][i - 1] == children[i];
    }
  }

  // The kernel's counts are the parent's ends plus one for each child that holds one.
  predicate Inv(n: nat, s: State) {
    && |s.children| <= n
    && s.writers == (if s.parent == Forking then 1 else 0) + WriteEnds(s.children)
    && s.readers == (if s.parent == Done || s.parent == Failed then 0 else 1) + ReadEnds(s.children)
    && (s.parent == Reading || s.parent == Parent.ClosingRead || s.parent == Done ==> |s.children| == n)
    && (s.parent == Parent.ClosingRead || s.parent == Done ==> s.writers == 0)
  }

  lemma {:induction false} NextKeepsInv(n: nat, s: State, e: Event)
    requires Inv(n, s) && Enabled(n, s, e)
    ensures Inv(n, Next(n, s, e))
  {
    hide WriteEnds, ReadEnds;
    match e
    case Fork => EndsSnoc(s.children, Child.ClosingRead);
    case ChildClosesRead(i) => EndsUpdate(s.children, i, Asleep);
    case ChildWakes(i) => EndsUpdate(s.children, i, ClosingWrite);
    case ChildClosesWrite(i) => EndsUpdate(s.children, i, Exiting);
    case ChildExits(i) => EndsUpdate(s.children, i, Gone);
    case ChildDies(i) => EndsUpdate(s.children, i, Gone);
    case _ =>
  }

  // ---------------------------------------------------------------- all runs

  ghost predicate Run(n: nat, states: seq<State>, events: seq<Event>) {
    && |states| == |events| + 1 && states[0] == Init()
    && forall k :: 0 <= k < |events| ==>
         Enabled(n, states[k], events[k]) && states[k + 1] == Next(n, states[k], events[k])
  }

  lemma {:induction false} RunKeepsInv(n: nat, states: seq<State>, events: seq<Event>, k: nat)
    requires Run(n, states, events) && k < |states|
    ensures Inv(n, states[k])
  {
    if k > 0 {
      RunKeepsInv(n, states, events, k - 1);
      NextKeepsInv(n, states[k - 1], events[k - 1]);
    }
  }

  // In every reachable state in which the parent's read may return, and in every later one,
  // all n children have been forked and have closed their write ends; and the read may return
  // as soon as that is so.
  lemma BarrierHolds(n: nat, states: seq<State>, events: seq<Event>, k: nat)
    requires Run(n, states, events) && k < |states|
    ensures var s := states[k]; var closed := forall i :: 0 <= i < |s.children| ==> s.children[i] in {Exiting, Gone};
            && (s.parent == Reading ==> |s.children| == n && (Enabled(n, s, ParentReadsEof) <==> closed))
            && (s.parent == Parent.ClosingRead || s.parent == Done ==> |s.children| == n && closed)
  {
    RunKeepsInv(n, states, events, k);
    NoWriteEnds(states[k].children);
  }

  ghost predicate Happened(events: seq<Event>, k: nat, e: Event) {
    exists j :: 0 <= j < k && j < |events| && events[j] == e
  }

  // What the position of a child says about its past.
  ghost predicate Past(events: seq<Event>, k: nat, i: nat, c: Child) {
    && (c == ClosingWrite || c == Exiting ==> Happened(events, k, ChildWakes(i)))
    && (c == Exiting ==> Happened(events, k, ChildClosesWrite(i)))
    && (c == Gone ==>
          || (Happened(events, k, ChildWakes(i)) && Happened(events, k, ChildClosesWrite(i)))
          || Happened(events, k, ChildDies(i)))
  }

  lemma LongerPast(events: seq<Event>, k: nat, i: nat, c: Child)
    requires k < |events| && Past(events, k, i, c)
    ensures Past(events, k + 1, i, c) && Happened(events, k + 1, events[k])
  {
  }

  lemma NewPast(events: seq<Event>, k: nat, i: nat)
    ensures Past(events, k, i, Child.ClosingRead)
  {
  }

  lemma {:induction false} StepPast(n: nat, s: State, events: seq<Event>, k: nat, i: nat)
    requires k < |events| && Enabled(n, s, events[k]) && i < |s.children| && Past(events, k, i, s.children[i])
    ensures var t := Next(n, s, events[k]); i < |t.children| && Past(events, k + 1, i, t.children[i])
  {
    hide Happened;
    LongerPast(events, k, i, s.children[i]);
  }

  lemma {:induction false} ChildPast(n: nat, states: seq<State>, events: seq<Event>, k: nat, i: nat)
    requires Run(n, states, events) && k < |states| && i < |states[k].children|
    ensures Past(events, k, i, states[k].children[i])
  {
    if k > 0 {
      hide Past;
      assert Enabled(n, states[k - 1], events[k - 1]) && states[k] == Next(n, states[k - 1], events[k - 1]);
      if i < |states[k - 1].children| {
        ChildPast(n, states, events, k - 1, i);
        StepPast(n, states[k - 1], events, k - 1, i);
      } else {
        NewPast(events, k, i);
      }
    }
  }

  // When the parent's read returns, every one of the n children has woken up and closed its
  // write end, or has died.
  lemma {:induction false} BarrierInEvents(n: nat, states: seq<State>, events: seq<Event>, k: nat, i: nat)
    requires Run(n, states, events) && k < |events| && events[k] == ParentReadsEof && i < n
    ensures || (Happened(events, k, ChildWakes(i)) && Happened(events, k, ChildClosesWrite(i)))
            || Happened(events, k, ChildDies(i))
  {
    hide Happened;
    BarrierHolds(n, states, events, k);
    assert states[k].parent == Reading;
    ChildPast(n, states, events, k, i);
  }

  // ---------------------------------------------------------------- every run ends

  predicate Over(s: State) {
    && (s.parent == Done || s.parent == Failed)
    && forall i :: 0 <= i < |s.children| ==> s.children[i] == Gone
  }

  // A child, or the parent, that can move.
  function Candidate(s: State): Event {
    match s.parent
    case Forking => Fork
    case Reading => ParentReadsEof
    case ClosingRead => ParentClosesRead
    case _ => ParentFails
  }

  function ChildMove(c: Child, i: nat): Event {
    match c
    case ClosingRead => ChildClosesRead(i)
    case Asleep => ChildWakes(i)
    case ClosingWrite => ChildClosesWrite(i)
    case _ => ChildExits(i)
  }

  // No deadlock: a state is either over or has an enabled event, even if nothing
  // fails.
  lemma NoDeadlock(n: nat, states: seq<State>, events: seq<Event>, k: nat)
    requires Run(n, states, events) && k < |states|
    ensures Over(states[k])
            <==> forall e :: Enabled(n, states[k], e) ==> e.ParentFails? || e.ChildDies?
  {
    var s := states[k];
    BarrierHolds(n, states, events, k);
    RunKeepsInv(n, states, events, k);
    if !Over(s) {
      if i :| 0 <= i < |s.children| && s.children[i] != Gone {
        assert Enabled(n, s, ChildMove(s.children[i], i));
      } else {
        assert forall i :: 0 <= i < |s.children| ==> HoldsWrite(s.children[i]) == 0;
        assert Enabled(n, s, if s.parent == Forking && |s.children| == n then ParentClosesWrite else Candidate(s));
      }
    }
  }

  function ChildSteps(c: Child): nat {
    match c
    case ClosingRead => 4
    case Asleep => 3
    case ClosingWrite => 2
    case Exiting => 1
    case Gone => 0
  }

  function ChildrenSteps(children: seq<Child>): nat {
    if children == [] then 0 else ChildSteps(children[0]) + ChildrenSteps(children[1..])
  }

  // Events still to come when nothing fails: five for each child not forked yet (its fork
  // included), the rest of every live child's, and the parent's three closes and reads.
  function Measure(n: nat, s: State): int {
    ChildrenSteps(s.children)
    + match s.parent
      case Forking => 5 * (n - |s.children|) + 3
      case Reading => 2
      case ClosingRead => 1
      case _ => 0
  }

  lemma {:induction false} ChildrenStepsSnoc(children: seq<Child>, c: Child)
    ensures ChildrenSteps(children + [c]) == ChildrenSteps(children) + ChildSteps(c)
  {
    if children == [] {
      assert children + [c] == [c];
      assert [c][1..] == [];
    } else {
      assert (children + [c])[1..] == children[1..] + [c];
      ChildrenStepsSnoc(children[1..], c);
    }
  }

  lemma {:induction false} ChildrenStepsUpdate(children: seq<Child>, i: nat, c: Child)
    requires i < |children|
    ensures ChildrenSteps(children[i := c]) == ChildrenSteps(children) - ChildSteps(children[i]) + ChildSteps(c)
  {
    if i == 0 {
      assert children[i := c][1..] == children[1..];
    } else {
      assert children[i := c][1..] == children[1..][i - 1 := c];
      ChildrenStepsUpdate(children[1..], i - 1, c);
    }
  }

  predicate Failure(e: Event) {
    e.ParentFails? || e.ChildDies?
  }

  // Every event lowers the measure; one that is no failure lowers it by exactly one.
  lemma {:induction false} NextLowersMeasure(n: nat, s: State, e: Event)
    requires Inv(n, s) && Enabled(n, s, e)
    ensures 0 <= Measure(n, Next(n, s, e)) < Measure(n, s)
    ensures !Failure(e) ==> Measure(n, Next(n, s, e)) == Measure(n, s) - 1
  {
    hide ChildrenSteps, WriteEnds, ReadEnds;
    match e
    case Fork => ChildrenStepsSnoc(s.children, Child.ClosingRead);
    case ChildClosesRead(i) => ChildrenStepsUpdate(s.children, i, Asleep);
    case ChildWakes(i) => ChildrenStepsUpdate(s.children, i, ClosingWrite);
    case ChildClosesWrite(i) => ChildrenStepsUpdate(s.children, i, Exiting);
    case ChildExits(i) => ChildrenStepsUpdate(s.children, i, Gone);
    case ChildDies(i) => ChildrenStepsUpdate(s.children, i, Gone);
    case _ =>
  }

  lemma FirstMeasure(n: nat)
    ensures Measure(n, Init()) == 5 * n + 3
  {
  }

  lemma {:induction false} StepMeasure(n: nat, s: State, e: Event, t: State)
    requires Inv(n, s) && Enabled(n, s, e) && t == Next(n, s, e)
    ensures 0 <= Measure(n, t) < Measure(n, s)
    ensures !Failure(e) ==> Measure(n, t) == Measure(n, s) - 1
    ensures !e.ParentFails? && s.parent != Failed ==> t.parent != Failed
  {
    hide Measure, Inv;
    NextLowersMeasure(n, s, e);
  }

  lemma {:induction false} RunMeasure(n: nat, states: seq<State>, events: seq<Event>, k: nat)
    requires Run(n, states, events) && k < |states|
    ensures 0 <= Measure(n, states[k]) <= 5 * n + 3 - k
    ensures (forall j :: 0 <= j < k ==> !Failure(events[j])) ==> Measure(n, states[k]) == 5 * n + 3 - k
    ensures (forall j :: 0 <= j < k ==> !events[j].ParentFails?) ==> states[k].parent != Failed
  {
    hide Measure, Inv, Failure;
    if k == 0 {
      FirstMeasure(n);
    } else {
      RunMeasure(n, states, events, k - 1);
      RunKeepsInv(n, states, events, k - 1);
      StepMeasure(n, states[k - 1], events[k - 1], states[k]);
    }
  }

  lemma {:induction false} NoSteps(children: seq<Child>)
    ensures ChildrenSteps(children) == 0 <==> forall i :: 0 <= i < |children| ==> children[i] == Gone
  {
    if children != [] {
      NoSteps(children[1..]);
      assert forall i :: 1 <= i < |children| ==> children[1..][i - 1] == children[i];
    }
  }

  // No run is longer than 5n + 3 events.  One without failures is over exactly when it has
  // that many, and the parent has then succeeded after all n children.
  lemma {:induction false} EveryRunFinishes(n: nat, states: seq<State>, events: seq<Event>)
    requires Run(n, states, events)
    ensures |events| <= 5 * n + 3
    ensures (forall k :: 0 <= k < |events| ==> !Failure(events[k])) ==>
              var last := states[|events|];
              (Over(last) <==> |events| == 5 * n + 3) && (Over(last) ==> last.parent == Done && |last.children| == n)
  {
    RunMeasure(n, states, events, |events|);
    RunKeepsInv(n, states, events, |events|);
    NoSteps(states[|events|].children);
  }
}
