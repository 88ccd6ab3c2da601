/** The worker of the TCP broadcast server: a deque of (remaining, message) pairs counted down
  as connected clients take the message (`_thread_func`, socket-server-tcp-select.cpp:26-120).

  A pass works on whatever `select` reports; how many sends a client takes before one fails is
  a parameter.  `traces` records, next to the deque, which clients a message was stamped for
  (the deque holds only their number) and with which line, which clients got it and what text
  they were sent, which were writable meanwhile and whether every send succeeded; `done` keeps
  that record once a message is dropped.
 */
module BroadcastQueue {
  import opened CString
  import opened FdSet
  import opened Option
  import opened Ordering

  type Message = (int, string)        // remaining sends, text

  // A message since its stamping.
  datatype Trace = Trace(
    line: string,               // what was read
    clients: seq<int>,          // the clients connected at its stamping
    to: seq<int>,               // those it was sent to
    texts: seq<string>,         // what they were sent, send by send
    offered: seq<int>,          // the writable clients, pass after pass
    clean: bool)                // no send has failed

  function Counts(msgs: seq<Message>): (counts: seq<int>)
    ensures |counts| == |msgs|
    ensures forall k :: 0 <= k < |msgs| ==> counts[k] == msgs[k].0
  {
    seq(|msgs|, k requires 0 <= k < |msgs| => msgs[k].0)
  }

  // How many messages still wait for somebody.
  function Live(counts: seq<int>): nat {
    if counts == [] then 0 else (if counts[0] > 0 then 1 else 0) + Live(counts[1..])
  }

  // The deque is walked from its back: message k is sent to a client that takes `takes` sends
  // exactly when it is live and fewer than that many live messages lie behind it.
  predicate Gets(counts: seq<int>, takes: nat, k: int) {
    0 <= k < |counts| && counts[k] > 0 && Live(counts[k + 1..]) < takes
  }

  function AfterOne(counts: seq<int>, takes: nat): (after: seq<int>)
    ensures |after| == |counts|
    ensures forall k :: 0 <= k < |counts| ==> after[k] == counts[k] - if Gets(counts, takes, k) then 1 else 0
  {
    seq(|counts|, k requires 0 <= k < |counts| => counts[k] - if Gets(counts, takes, k) then 1 else 0)
  }

  // The counts after the given clients, in turn.
  function After(counts: seq<int>, clients: seq<int>, takes: int -> nat): (after: seq<int>)
    ensures |after| == |counts|
    decreases |clients|
  {
    if clients == [] then counts
    else
      var c, before := clients[|clients| - 1], After(counts, clients[..|clients| - 1], takes);
      AfterOne(before, takes(c))
  }

  // The clients that get message k, in turn.
  function Recipients(counts: seq<int>, clients: seq<int>, takes: int -> nat, k: int): seq<int>
    decreases |clients|
  {
    if clients == [] then []
    else
      var c, earlier := clients[|clients| - 1], clients[..|clients| - 1];
      Recipients(counts, earlier, takes, k)
      + if Gets(After(counts, earlier, takes), takes(c), k) then [c] else []
  }

  function Writable(fds: seq<int>, writable: set<int>): seq<int> {
    if fds == [] then []
    else
      Writable(fds[..|fds| - 1], writable)
      + if fds[|fds| - 1] in writable then [fds[|fds| - 1]] else []
  }

  // ---------------------------------------------------------------- one pass on the counts

  // Each send takes one off, so what is left plus what was sent is what there was, and a
  // count never goes below zero.
  lemma {:induction false} PassConserves(counts: seq<int>, clients: seq<int>, takes: int -> nat, k: nat)
    requires k < |counts| && counts[k] >= 0
    ensures After(counts, clients, takes)[k] + |Recipients(counts, clients, takes, k)| == counts[k]
    ensures After(counts, clients, takes)[k] >= 0
    decreases |clients|
  {
    if clients != [] {
      PassConserves(counts, clients[..|clients| - 1], takes, k);
    }
  }

  // No client gets a message twice in a pass, and the order is that of the descriptors.
  lemma {:induction false} RecipientsAscend(counts: seq<int>, clients: seq<int>, takes: int -> nat, k: int)
    requires Ascending(clients)
    ensures var to := Recipients(counts, clients, takes, k);
            Ascending(to) && forall c :: c in to ==> c in clients
    decreases |clients|
  {
    if clients != [] {
      var n := |clients| - 1;
      var earlier := clients[..n];
      RecipientsAscend(counts, earlier, takes, k);
      var to := Recipients(counts, earlier, takes, k);
      forall j | 0 <= j < |to| ensures to[j] < clients[n] {
        assert to[j] in to;
        assert to[j] in earlier;
      }
    }
  }

  lemma {:induction false} OneMore(counts: seq<int>, clients: seq<int>, c: int, takes: int -> nat, k: int)
    ensures var before := After(counts, clients, takes);
            && After(counts, clients + [c], takes) == AfterOne(before, takes(c))
            && Recipients(counts, clients + [c], takes, k)
               == Recipients(counts, clients, takes, k) + if Gets(before, takes(c), k) then [c] else []
  {
    assert (clients + [c])[..|clients|] == clients;
  }

  lemma PrefixMore(earlier: seq<int>, c: int, r: nat)
    ensures earlier[..Min(r, |earlier|)] + (if |earlier| < r then [c] else [])
            == (earlier + [c])[..Min(r, |earlier| + 1)]
  {
  }

  // No send of the pass fails: every client takes what is live at its turn.
  predicate NoneFails(counts: seq<int>, clients: seq<int>, takes: int -> nat)
    decreases |clients|
  {
    clients == []
    || (var c, earlier := clients[|clients| - 1], clients[..|clients| - 1];
        NoneFails(counts, earlier, takes) && Live(After(counts, earlier, takes)) <= takes(c))
  }

  // Message k went to the first clients, as many as it had sends left.
  predicate WentToFirst(counts: seq<int>, clients: seq<int>, takes: int -> nat, k: nat)
    requires k < |counts| && counts[k] >= 0
  {
    Recipients(counts, clients, takes, k) == clients[..Min(counts[k], |clients|)]
  }

  lemma {:induction false} LeftOver(counts: seq<int>, clients: seq<int>, takes: int -> nat, k: nat)
    requires k < |counts| && counts[k] >= 0 && WentToFirst(counts, clients, takes, k)
    ensures After(counts, clients, takes)[k] == counts[k] - Min(counts[k], |clients|)
  {
    hide After, Recipients;
    PassConserves(counts, clients, takes, k);
  }

  lemma {:induction false} LiveSuffix(counts: seq<int>, j: nat, k: nat)
    requires j <= k <= |counts|
    ensures Live(counts[j..]) >= Live(counts[k..])
    ensures j < k && counts[j] > 0 ==> Live(counts[j..]) > Live(counts[k..])
    decreases k - j
  {
    if j < k {
      LiveSuffix(counts, j + 1, k);
      assert counts[j..][1..] == counts[j + 1..];
    }
  }

  lemma GetsMeans(counts: seq<int>, takes: nat, k: nat)
    requires k < |counts|
    ensures Gets(counts, takes, k) <==> counts[k] > 0 && Live(counts[k + 1..]) < takes
  {
  }

  lemma {:induction false} LiveStep(counts: seq<int>, i: nat)
    requires i < |counts|
    ensures Live(counts[i..]) == Live(counts[i + 1..]) + if counts[i] > 0 then 1 else 0
  {
  }

  // How many messages a client gets.
  function Gotten(counts: seq<int>, takes: nat, from: nat): nat
    requires from <= |counts|
    decreases |counts| - from
  {
    if from == |counts| then 0
    else (if Gets(counts, takes, from) then 1 else 0) + Gotten(counts, takes, from + 1)
  }

  lemma {:induction false} GottenIsMin(counts: seq<int>, takes: nat, from: nat)
    requires from <= |counts|
    ensures Gotten(counts, takes, from) == Min(takes, Live(counts[from..]))
    decreases |counts| - from
  {
    if from < |counts| {
      hide Live, Gets;
      GottenIsMin(counts, takes, from + 1);
      LiveStep(counts, from);
      GetsMeans(counts, takes, from);
    } else {
      assert counts[from..] == [];
    }
  }

  // A client gets as many messages as it takes and as there are, live ones only, and none before
  // every newer live one.
  lemma {:induction false} NewestFirst(counts: seq<int>, takes: nat, j: nat, k: nat)
    requires j <= k < |counts|
    ensures Gets(counts, takes, j) ==> counts[j] > 0 && (counts[k] > 0 ==> Gets(counts, takes, k))
    ensures Gotten(counts, takes, 0) == Min(takes, Live(counts))
  {
    hide Live, Gets;
    GottenIsMin(counts, takes, 0);
    assert counts[0..] == counts;
    GetsMeans(counts, takes, j);
    GetsMeans(counts, takes, k);
    LiveSuffix(counts, j + 1, k + 1);
  }

  lemma {:induction false} TakesAllLive(before: seq<int>, takes: nat, k: nat)
    requires k < |before| && Live(before) <= takes
    ensures Gets(before, takes, k) <==> before[k] > 0
  {
    hide Live, Gets;
    GetsMeans(before, takes, k);
    LiveStep(before, k);
    LiveSuffix(before, 0, k);
    assert before[0..] == before;
  }

  // Without failures and with k writable clients, a message with remaining count r goes to
  // exactly the first min(r, k) of them, in order, and is left with r - min(r, k).
  lemma {:induction false} FailureFreePass(counts: seq<int>, clients: seq<int>, takes: int -> nat, k: nat)
    requires k < |counts| && counts[k] >= 0 && NoneFails(counts, clients, takes)
    ensures WentToFirst(counts, clients, takes, k)
    ensures After(counts, clients, takes)[k] == counts[k] - Min(counts[k], |clients|)
    decreases |clients|
  {
    if clients == [] {
      assert clients[..0] == [];
    } else {
      hide Live, Gets, After, Recipients;
      var n := |clients| - 1;
      var c, earlier := clients[n], clients[..n];
      assert clients == earlier + [c];
      FailureFreePass(counts, earlier, takes, k);
      OneMore(counts, earlier, c, takes, k);
      TakesAllLive(After(counts, earlier, takes), takes(c), k);
      PrefixMore(earlier, c, counts[k]);
      LeftOver(counts, clients, takes, k);
    }
  }

  lemma {:induction false} LoneMessageSent(count: int, c: int, takes: int -> nat)
    requires takes(c) >= 1
    ensures NoneFails([count], [c], takes)
  {
    assert [c][..0] == [] && [count][1..] == [];
    assert After([count], [], takes) == [count] && Live([count]) <= 1;
  }

  lemma {:induction false} FirstLive(counts: seq<int>) returns (k: nat)
    requires Live(counts) > 0
    ensures k < |counts| && counts[k] > 0 && Live(counts) == 1 + Live(counts[k + 1..])
  {
    if counts[0] > 0 {
      k := 0;
    } else {
      var j := FirstLive(counts[1..]);
      k := j + 1;
      assert counts[1..][j + 1..] == counts[k + 1..];
    }
  }

  lemma LastOnly(earlier: seq<int>, c: int, i: nat)
    requires i <= |earlier| && (earlier + [c])[i] == c && c !in earlier
    ensures i == |earlier|
  {
  }

  lemma {:induction false} RecipientsBound(counts: seq<int>, clients: seq<int>, takes: int -> nat, k: nat)
    ensures |Recipients(counts, clients, takes, k)| <= |clients|
    decreases |clients|
  {
    if clients != [] {
      RecipientsBound(counts, clients[..|clients| - 1], takes, k);
    }
  }

  // If message k went to the first of all clients, it did so without the last one too.
  lemma {:induction false} WentToFirstEarlier(counts: seq<int>, earlier: seq<int>, c: int, takes: int -> nat, k: nat)
    requires k < |counts| && counts[k] >= 0 && c !in earlier
    requires WentToFirst(counts, earlier + [c], takes, k)
    ensures WentToFirst(counts, earlier, takes, k)
    ensures Gets(After(counts, earlier, takes), takes(c), k) <==> |earlier| < counts[k]
  {
    hide After, Recipients, Gets;
    OneMore(counts, earlier, c, takes, k);
    PassConserves(counts, earlier, takes, k);
    RecipientsBound(counts, earlier, takes, k);
    var to, n := Recipients(counts, earlier, takes, k), |earlier|;
    if Gets(After(counts, earlier, takes), takes(c), k) {
      assert (to + [c])[|to|] == c;
      assert (earlier + [c])[..Min(counts[k], n + 1)][|to|] == c;
      LastOnly(earlier, c, |to|);
      assert to == (to + [c])[..|to|] == (earlier + [c])[..|to|] == earlier[..|to|];
    } else {
      assert to == to + [] == (earlier + [c])[..Min(counts[k], n + 1)];
    }
  }

  // A client at which a send fails misses a message that still has sends left.
  lemma {:induction false} OneMissesOut(counts: seq<int>, earlier: seq<int>, c: int, takes: int -> nat)
    requires c !in earlier && forall k :: 0 <= k < |counts| ==> counts[k] >= 0
    requires NoneFails(counts, earlier, takes) && Live(After(counts, earlier, takes)) > takes(c)
    ensures exists k: nat :: k < |counts| && !WentToFirst(counts, earlier + [c], takes, k)
  {
    hide After, Live, Gets, WentToFirst, NoneFails;
    var before := After(counts, earlier, takes);
    var k := FirstLive(before);
    GetsMeans(before, takes(c), k);
    FailureFreePass(counts, earlier, takes, k);
    if WentToFirst(counts, earlier + [c], takes, k) {
      WentToFirstEarlier(counts, earlier, c, takes, k);
    }
  }

  // The other way round: every message goes to the first min(r, k) clients only in a pass in
  // which no send fails.
  lemma {:induction false} FailureFreeExactly(counts: seq<int>, clients: seq<int>, takes: int -> nat)
    requires Ascending(clients) && forall k :: 0 <= k < |counts| ==> counts[k] >= 0
    ensures NoneFails(counts, clients, takes)
            <==> forall k: nat :: k < |counts| ==> WentToFirst(counts, clients, takes, k)
    decreases |clients|
  {
    hide WentToFirst;
    if NoneFails(counts, clients, takes) {
      forall k: nat | k < |counts| ensures WentToFirst(counts, clients, takes, k) {
        FailureFreePass(counts, clients, takes, k);
      }
    } else if forall k: nat :: k < |counts| ==> WentToFirst(counts, clients, takes, k) {
      var n := |clients| - 1;
      var c, earlier := clients[n], clients[..n];
      assert clients == earlier + [c] && c !in earlier;
      forall k: nat | k < |counts| ensures WentToFirst(counts, earlier, takes, k) {
        WentToFirstEarlier(counts, earlier, c, takes, k);
      }
      FailureFreeExactly(counts, earlier, takes);
      OneMissesOut(counts, earlier, c, takes);
    }
  }

  lemma {:induction false} WritableAscends(fds: seq<int>, writable: set<int>)
    requires Ascending(fds)
    ensures Ascending(Writable(fds, writable))
    ensures forall fd :: fd in Writable(fds, writable) <==> fd in fds && fd in writable
  {
    if fds != [] {
      var n := |fds| - 1;
      WritableAscends(fds[..n], writable);
      assert fds == fds[..n] + [fds[n]];
      var earlier := Writable(fds[..n], writable);
      forall j | 0 <= j < |earlier| ensures earlier[j] < fds[n] {
        assert earlier[j] in earlier;
        assert earlier[j] in fds[..n];
      }
    }
  }

  lemma {:induction false} AllWritable(fds: seq<int>, writable: set<int>)
    requires forall i :: 0 <= i < |fds| ==> fds[i] in writable
    ensures Writable(fds, writable) == fds
  {
    if fds != [] {
      AllWritable(fds[..|fds| - 1], writable);
      assert fds == fds[..|fds| - 1] + [fds[|fds| - 1]];
    }
  }

  // ---------------------------------------------------------------- deque and traces

  datatype Outcome = Outcome(
    line: Option<string>,       // what standard input has, if it is ready
    writable: set<int>,
    readable: set<int>,
    takes: int -> nat,          // sends that succeed before one fails
    hungUp: set<int>)           // clients whose recv fails

  function Enqueued(msgs: seq<Message>, clients: nat, line: Option<string>): seq<Message> {
    match line
    case None => msgs
    case Some(text) => msgs + [(clients, text)]
  }

  function EnqueuedTraces(traces: seq<Trace>, clients: seq<int>, line: Option<string>): seq<Trace> {
    if line.Some? then traces + [Trace(line.value, clients, [], [], [], true)] else traces
  }

  // The messages, and their traces, that clean-up keeps, and those it drops.
  function Kept(msgs: seq<Message>): seq<Message> {
    if msgs == [] then []
    else Kept(msgs[..|msgs| - 1]) + if msgs[|msgs| - 1].0 > 0 then [msgs[|msgs| - 1]] else []
  }

  function Selected(msgs: seq<Message>, traces: seq<Trace>, live: bool): seq<Trace>
    requires |msgs| == |traces|
  {
    if msgs == [] then []
    else
      var n := |msgs| - 1;
      Selected(msgs[..n], traces[..n], live) + if (msgs[n].0 > 0) == live then [traces[n]] else []
  }

  // Every send of the message carried the line, up to its first NUL.
  predicate Verbatim(trace: Trace) {
    |trace.texts| == |trace.to| && forall j :: 0 <= j < |trace.texts| ==> trace.texts[j] == UpToNul(trace.line)
  }

  // Sends made plus sends to come are as many as the clients stamped for, and all carry the
  // line.  As long as no send fails, those made went to the first clients that were writable.
  predicate Balanced(msg: Message, trace: Trace) {
    && msg.1 == trace.line && Verbatim(trace)
    && msg.0 >= 0 && |trace.to| + msg.0 == |trace.clients| && Ascending(trace.clients)
    && (trace.clean ==> trace.to == trace.offered[..Min(|trace.clients|, |trace.offered|)])
  }

  predicate InBalance(msgs: seq<Message>, traces: seq<Trace>) {
    |msgs| == |traces| && forall k :: 0 <= k < |msgs| ==> Balanced(msgs[k], traces[k])
  }

  predicate Complete(trace: Trace) {
    && |trace.to| == |trace.clients| && Ascending(trace.clients) && Verbatim(trace)
    && (trace.clean ==> |trace.clients| <= |trace.offered| && trace.to == trace.offered[..|trace.clients|])
  }

  predicate Fulfilled(done: seq<Trace>) {
    forall k :: 0 <= k < |done| ==> Complete(done[k])
  }

  lemma LastBalances(msgs: seq<Message>, traces: seq<Trace>)
    requires InBalance(msgs, traces) && msgs != []
    ensures var n := |msgs| - 1;
            n < |traces| && InBalance(msgs[..n], traces[..n]) && Balanced(msgs[n], traces[n])
  {
    hide Balanced;
  }

  lemma NothingLeft(msg: Message, trace: Trace)
    requires Balanced(msg, trace)
    ensures msg.0 <= 0 ==> Complete(trace)
  {
  }

  lemma OneMoreBalances(msg: Message, trace: Trace, kept: seq<Message>, traces: seq<Trace>, done: seq<Trace>)
    requires Balanced(msg, trace) && InBalance(kept, traces) && Fulfilled(done)
    ensures InBalance(kept + [msg], traces + [trace])
    ensures msg.0 <= 0 ==> Fulfilled(done + [trace])
  {
    hide Balanced, Complete;
    NothingLeft(msg, trace);
  }

  lemma {:induction false} CleanUpBalances(msgs: seq<Message>, traces: seq<Trace>)
    requires InBalance(msgs, traces)
    ensures InBalance(Kept(msgs), Selected(msgs, traces, true))
    ensures Fulfilled(Selected(msgs, traces, false))
    ensures |Kept(msgs)| + |Selected(msgs, traces, false)| == |msgs|
  {
    if msgs != [] {
      hide Balanced, Complete, InBalance, Fulfilled;
      var n := |msgs| - 1;
      LastBalances(msgs, traces);
      CleanUpBalances(msgs[..n], traces[..n]);
      OneMoreBalances(msgs[n], traces[n], Kept(msgs[..n]), Selected(msgs[..n], traces[..n], true),
                      Selected(msgs[..n], traces[..n], false));
      assert Kept(msgs[..n]) + [] == Kept(msgs[..n]);
      assert Selected(msgs[..n], traces[..n], true) + [] == Selected(msgs[..n], traces[..n], true);
      assert Selected(msgs[..n], traces[..n], false) + [] == Selected(msgs[..n], traces[..n], false);
    }
  }

  // A message with sends left is the p-th of those kept, beside its trace; the trace of any
  // other is among those dropped, after as many as were dropped before it.
  predicate InPlace(kept: seq<Message>, live: seq<Trace>, dropped: seq<Trace>, p: nat, k: nat,
                    msg: Message, trace: Trace) {
    if msg.0 > 0 then p < |kept| == |live| && kept[p] == msg && live[p] == trace
    else 0 <= k - p < |dropped| && dropped[k - p] == trace
  }

  lemma InPlaceMore(kept: seq<Message>, live: seq<Trace>, dropped: seq<Trace>, p: nat, k: nat,
                    msg: Message, trace: Trace, x: seq<Message>, y: seq<Trace>, z: seq<Trace>)
    requires InPlace(kept, live, dropped, p, k, msg, trace) && |x| == |y|
    ensures InPlace(kept + x, live + y, dropped + z, p, k, msg, trace)
  {
  }

  lemma LastInPlace(kept: seq<Message>, live: seq<Trace>, dropped: seq<Trace>, k: nat, msg: Message, trace: Trace)
    requires |kept| == |live| && |dropped| == k - |kept|
    ensures InPlace(kept + (if msg.0 > 0 then [msg] else []), live + (if msg.0 > 0 then [trace] else []),
                    dropped + (if msg.0 > 0 then [] else [trace]), |kept|, k, msg, trace)
  {
  }

  lemma {:induction false} SelectedLength(msgs: seq<Message>, traces: seq<Trace>)
    requires |msgs| == |traces|
    ensures |Selected(msgs, traces, true)| == |Kept(msgs)|
    ensures |Selected(msgs, traces, false)| == |msgs| - |Kept(msgs)|
  {
    if msgs != [] {
      SelectedLength(msgs[..|msgs| - 1], traces[..|msgs| - 1]);
    }
  }

  // Clean-up keeps exactly the messages with sends left, and keeps their order.
  lemma {:induction false} CleanUpPlaces(msgs: seq<Message>, traces: seq<Trace>, k: nat)
    requires |msgs| == |traces| && k < |msgs|
    ensures InPlace(Kept(msgs), Selected(msgs, traces, true), Selected(msgs, traces, false),
                    |Kept(msgs[..k])|, k, msgs[k], traces[k])
    decreases |msgs|
  {
    hide InPlace;
    var n := |msgs| - 1;
    var kept := Kept(msgs[..n]);
    var live, dropped := Selected(msgs[..n], traces[..n], true), Selected(msgs[..n], traces[..n], false);
    var x, y, z := if msgs[n].0 > 0 then [msgs[n]] else [], if msgs[n].0 > 0 then [traces[n]] else [],
                   if msgs[n].0 > 0 then [] else [traces[n]];
    SelectedLength(msgs[..n], traces[..n]);
    if k < n {
      CleanUpPlaces(msgs[..n], traces[..n], k);
      assert msgs[..n][..k] == msgs[..k];
      InPlaceMore(kept, live, dropped, |Kept(msgs[..k])|, k, msgs[k], traces[k], x, y, z);
    } else {
      LastInPlace(kept, live, dropped, k, msgs[k], traces[k]);
    }
  }

  // The deque with new counts, and the traces with this pass's recipients.
  function WithCounts(msgs: seq<Message>, counts: seq<int>): (r: seq<Message>)
    requires |counts| == |msgs|
    ensures |r| == |msgs| && Counts(r) == counts
    ensures forall k :: 0 <= k < |msgs| ==> r[k] == (counts[k], msgs[k].1)
  {
    seq(|msgs|, k requires 0 <= k < |msgs| => (counts[k], msgs[k].1))
  }

  // A send hands on `msg.c_str()` and its strlen.
  function SentTo(trace: Trace, to: seq<int>, text: string): (r: Trace)
    ensures r.line == trace.line && r.clients == trace.clients && r.offered == trace.offered && r.clean == trace.clean
  {
    trace.(to := trace.to + to, texts := trace.texts + seq(|to|, _ => UpToNul(text)))
  }

  lemma SentToMore(trace: Trace, to: seq<int>, more: seq<int>, text: string)
    ensures SentTo(SentTo(trace, to, text), more, text) == SentTo(trace, to + more, text)
    ensures SentTo(trace, [], text) == trace
  {
  }

  function WithRecipients(traces: seq<Trace>, msgs: seq<Message>, clients: seq<int>, takes: int -> nat): (r: seq<Trace>)
    requires |msgs| == |traces|
    ensures |r| == |traces|
    ensures forall k :: 0 <= k < |traces| ==>
              r[k] == SentTo(traces[k], Recipients(Counts(msgs), clients, takes, k), msgs[k].1)
  {
    seq(|traces|, k requires 0 <= k < |traces| =>
      SentTo(traces[k], Recipients(Counts(msgs), clients, takes, k), msgs[k].1))
  }

  // The traces after a pass with the given writable clients.
  function Noted(traces: seq<Trace>, clients: seq<int>, noneFails: bool): (r: seq<Trace>)
    ensures |r| == |traces|
    ensures forall k :: 0 <= k < |traces| ==>
              r[k] == traces[k].(offered := traces[k].offered + clients, clean := traces[k].clean && noneFails)
  {
    seq(|traces|, k requires 0 <= k < |traces| =>
      traces[k].(offered := traces[k].offered + clients, clean := traces[k].clean && noneFails))
  }

  // ---------------------------------------------------------------- who gets a message

  // When every client is writable and no send fails, a message stamped with the number of
  // clients goes to each of them once, nothing is left, and clean-up drops it.
  lemma {:induction false} FullBroadcast(msgs: seq<Message>, was: seq<Trace>, fds: seq<int>, writable: set<int>,
                                         takes: int -> nat, k: nat)
    requires |was| == |msgs| && k < |msgs| && msgs[k].0 == |fds| && NoneFails(Counts(msgs), fds, takes)
    requires forall i :: 0 <= i < |fds| ==> fds[i] in writable
    ensures var clients := Writable(fds, writable);
            var left := WithCounts(msgs, After(Counts(msgs), clients, takes));
            var sent := Noted(WithRecipients(was, msgs, clients, takes), clients, true);
            && Recipients(Counts(msgs), clients, takes, k) == fds && left[k].0 == 0
            && SentTo(was[k], fds, msgs[k].1).(offered := was[k].offered + fds)
               in Selected(left, sent, false)
  {
    hide After, Recipients, NoneFails, Selected, Kept;
    AllWritable(fds, writable);
    FailureFreePass(Counts(msgs), fds, takes, k);
    assert fds[..|fds|] == fds;
    var left := WithCounts(msgs, After(Counts(msgs), fds, takes));
    var sent := Noted(WithRecipients(was, msgs, fds, takes), fds, true);
    CleanUpPlaces(left, sent, k);
    assert sent[k] == SentTo(was[k], fds, msgs[k].1).(offered := was[k].offered + fds);
  }

  predicate NoRepeats(to: seq<int>) {
    forall i, j :: 0 <= i < j < |to| ==> to[i] != to[j]
  }

  function Elements(to: seq<int>): set<int> {
    set c | c in to
  }

  lemma {:induction false} DistinctSet(to: seq<int>)
    requires NoRepeats(to)
    ensures |Elements(to)| == |to|
    ensures forall c :: multiset(to)[c] == if c in to then 1 else 0
  {
    if to != [] {
      var n := |to| - 1;
      DistinctSet(to[..n]);
      assert to == to[..n] + [to[n]];
      assert to[n] !in to[..n];
      assert Elements(to) == Elements(to[..n]) + {to[n]};
    }
  }

  lemma SubsetOfSameSize(a: set<int>, b: set<int>)
    requires a <= b && |a| == |b|
    ensures a == b
  {
    assert |b - a| == |b| - |a|;
    assert b == a + (b - a);
  }

  predicate NoneTwice(to: seq<int>, clients: seq<int>) {
    NoRepeats(to) && forall c :: c in to ==> c in clients
  }

  lemma AscendingDistinct(fds: seq<int>)
    requires Ascending(fds)
    ensures NoRepeats(fds)
  {
  }

  lemma TwiceCounts(to: seq<int>, i: nat, j: nat)
    requires i < j < |to| && to[i] == to[j]
    ensures multiset(to)[to[i]] >= 2
  {
    assert to == to[..i] + [to[i]] + to[i + 1..j] + [to[j]] + to[j + 1..];
  }

  lemma {:induction false} SameAsDistinct(to: seq<int>, clients: seq<int>)
    requires NoRepeats(clients) && multiset(to) == multiset(clients)
    ensures NoRepeats(to) && forall c :: c in to ==> c in clients
  {
    DistinctSet(clients);
    forall c | c in to ensures c in clients {
      assert c in multiset(to);
    }
    forall i, j | 0 <= i < j < |to| ensures to[i] != to[j] {
      if to[i] == to[j] {
        TwiceCounts(to, i, j);
      }
    }
  }

  lemma {:induction false} DistinctWithin(to: seq<int>, clients: seq<int>)
    requires NoRepeats(to) && NoRepeats(clients) && |to| == |clients|
    requires forall c :: c in to ==> c in clients
    ensures multiset(to) == multiset(clients)
  {
    hide NoRepeats;
    DistinctSet(to);
    DistinctSet(clients);
    forall c | c in Elements(to) ensures c in Elements(clients) {
      assert c in to;
      assert c in clients;
    }
    SubsetOfSameSize(Elements(to), Elements(clients));
    forall c ensures multiset(to)[c] == multiset(clients)[c] {
      assert c in to <==> c in Elements(to);
      assert c in clients <==> c in Elements(clients);
    }
  }

  // As many recipients as clients are those clients, each once, exactly when no recipient
  // comes up twice and all are among the clients.
  lemma EachClientOnce(to: seq<int>, clients: seq<int>)
    requires |to| == |clients| && Ascending(clients)
    ensures multiset(to) == multiset(clients) <==> NoneTwice(to, clients)
  {
    hide NoRepeats;
    AscendingDistinct(clients);
    if multiset(to) == multiset(clients) {
      SameAsDistinct(to, clients);
    }
    if NoneTwice(to, clients) {
      DistinctWithin(to, clients);
    }
  }

  // A pass as one message goes through it: message k of the deque.
  datatype Turn = Turn(counts: seq<int>, clients: seq<int>, takes: int -> nat, k: nat)

  // What a message stamped with n has left after the passes, whom it was sent to in them, and
  // which clients were writable in them.
  function Left(turns: seq<Turn>, n: nat): int {
    if turns == [] then n
    else
      var t := turns[|turns| - 1];
      if t.k < |t.counts| then After(t.counts, t.clients, t.takes)[t.k] else 0
  }

  function SentOver(turns: seq<Turn>): seq<int> {
    if turns == [] then []
    else
      var t := turns[|turns| - 1];
      SentOver(turns[..|turns| - 1]) + Recipients(t.counts, t.clients, t.takes, t.k)
  }

  function OfferedOver(turns: seq<Turn>): seq<int> {
    if turns == [] then []
    else OfferedOver(turns[..|turns| - 1]) + turns[|turns| - 1].clients
  }

  // Passes without a failing send, one after the other: the message enters each with what the
  // one before left.  The other messages of the deque may come and go.
  predicate Chain(turns: seq<Turn>, n: nat) {
    turns == []
    || (var t, earlier := turns[|turns| - 1], turns[..|turns| - 1];
        && Chain(earlier, n)
        && t.k < |t.counts| && t.counts[t.k] == Left(earlier, n)
        && NoneFails(t.counts, t.clients, t.takes))
  }

  lemma FirstOfBoth(offered: seq<int>, clients: seq<int>, n: nat)
    ensures var k := Min(n, |offered|);
            offered[..k] + clients[..Min(n - k, |clients|)]
            == (offered + clients)[..Min(n, |offered| + |clients|)]
  {
  }

  // Over such passes a message stamped with n goes to exactly the first n writable clients, of
  // all the passes together.
  lemma {:induction false} ChainSends(turns: seq<Turn>, n: nat)
    requires Chain(turns, n)
    ensures var offered := OfferedOver(turns);
            && SentOver(turns) == offered[..Min(n, |offered|)]
            && Left(turns, n) == n - Min(n, |offered|)
  {
    if turns != [] {
      hide After, Recipients, NoneFails;
      var t, earlier := turns[|turns| - 1], turns[..|turns| - 1];
      ChainSends(earlier, n);
      FailureFreePass(t.counts, t.clients, t.takes, t.k);
      FirstOfBoth(OfferedOver(earlier), t.clients, n);
    }
  }

  // So each client it was stamped for gets it once exactly when that many were offered it and
  // the first of those do not repeat and were all connected at its stamping.
  lemma {:induction false} OnceOverChain(turns: seq<Turn>, stamped: seq<int>)
    requires Ascending(stamped) && Chain(turns, |stamped|)
    ensures var n, offered := |stamped|, OfferedOver(turns);
            multiset(SentOver(turns)) == multiset(stamped) <==> n <= |offered| && NoneTwice(offered[..n], stamped)
  {
    hide NoneTwice, Chain, SentOver, OfferedOver, Left;
    ChainSends(turns, |stamped|);
    if multiset(SentOver(turns)) == multiset(stamped) {
      assert |SentOver(turns)| == |multiset(SentOver(turns))| == |stamped|;
    }
    if |stamped| <= |OfferedOver(turns)| {
      EachClientOnce(SentOver(turns), stamped);
    }
  }

  lemma NoTurns(n: nat)
    ensures Chain([], n) && Left([], n) == n && OfferedOver([]) == []
  {
  }

  lemma {:induction false} ChainMore(earlier: seq<Turn>, t: Turn, n: nat)
    requires Chain(earlier, n) && t.k < |t.counts| && t.counts[t.k] == Left(earlier, n)
    requires NoneFails(t.counts, t.clients, t.takes)
    ensures Chain(earlier + [t], n) && OfferedOver(earlier + [t]) == OfferedOver(earlier) + t.clients
    ensures Left(earlier + [t], n) == After(t.counts, t.clients, t.takes)[t.k]
  {
    hide After, NoneFails;
    assert (earlier + [t])[..|earlier|] == earlier;
  }

  lemma NeverFive()
    ensures multiset([4, 4]) != multiset([4, 5])
  {
    assert multiset([4, 4])[5] == 0;
  }

  // Two clients, the first of them writable in two passes: it gets the message twice, the other
  // never does.
  lemma {:induction false} TwiceAndNever(takes: int -> nat)
    requires takes(4) >= 1
    ensures var turns := [Turn([2], [4], takes, 0), Turn([1], [4], takes, 0)];
            && Chain(turns, 2) && SentOver(turns) == [4, 4] && Left(turns, 2) == 0
            && multiset(SentOver(turns)) != multiset([4, 5])
  {
    hide After, Recipients, NoneFails, Chain, SentOver, OfferedOver, Left, NoneTwice;
    var first, second := Turn([2], [4], takes, 0), Turn([1], [4], takes, 0);
    assert [] + [first] == [first] && [first] + [second] == [first, second];
    NoTurns(2);
    LoneMessageSent(2, 4, takes);
    FailureFreePass([2], [4], takes, 0);
    ChainMore([], first, 2);
    LoneMessageSent(1, 4, takes);
    FailureFreePass([1], [4], takes, 0);
    ChainMore([first], second, 2);
    ChainSends([first, second], 2);
    assert ([] + [4]) + [4] == [4, 4];
    NeverFive();
  }

  // ---------------------------------------------------------------- the loops of a turn

  // The writable clients with a smaller descriptor.
  function ClientsBefore(fds: seq<int>, fd: int, writable: set<int>): seq<int> {
    if fds == [] then []
    else if fds[|fds| - 1] >= fd then ClientsBefore(fds[..|fds| - 1], fd, writable)
    else Writable(fds, writable)
  }

  // Client `fd` takes every message that is live at its turn.
  predicate TakesAllAt(counts: seq<int>, fds: seq<int>, writable: set<int>, takes: int -> nat, fd: int) {
    Live(After(counts, ClientsBefore(fds, fd, writable), takes)) <= takes(fd)
  }

  lemma {:induction false} TakesAllEarlier(counts: seq<int>, fds: seq<int>, writable: set<int>, takes: int -> nat,
                                           fd: int)
    requires Ascending(fds) && fds != [] && fd in fds[..|fds| - 1]
    ensures TakesAllAt(counts, fds, writable, takes, fd)
            <==> TakesAllAt(counts, fds[..|fds| - 1], writable, takes, fd)
  {
    hide After, Live;
    assert fd < fds[|fds| - 1];
  }

  lemma {:induction false} ClientsBeforeAt(fds: seq<int>, p: nat, writable: set<int>)
    requires Ascending(fds) && p < |fds|
    ensures ClientsBefore(fds, fds[p], writable) == Writable(fds[..p], writable)
    decreases |fds|
  {
    var n := |fds| - 1;
    if p < n {
      ClientsBeforeAt(fds[..n], p, writable);
      assert fds[..n][..p] == fds[..p];
    } else if n > 0 {
      assert fds[..n][n - 1] < fds[n];
    }
  }

  lemma {:induction false} NoneFailsMore(counts: seq<int>, fds: seq<int>, writable: set<int>, takes: int -> nat)
    requires Ascending(fds) && fds != []
    ensures var n := |fds| - 1;
            NoneFails(counts, Writable(fds, writable), takes)
            <==> && NoneFails(counts, Writable(fds[..n], writable), takes)
                 && (fds[n] in writable ==> TakesAllAt(counts, fds, writable, takes, fds[n]))
  {
    hide After, Live;
    var n := |fds| - 1;
    ClientsBeforeAt(fds, n, writable);
    var earlier := Writable(fds[..n], writable);
    assert (earlier + [fds[n]])[..|earlier|] == earlier && earlier + [] == earlier;
  }

  lemma NothingFails(counts: seq<int>, writable: set<int>, takes: int -> nat)
    ensures NoneFails(counts, Writable([], writable), takes)
  {
  }

  // No send of a pass fails exactly when every writable client takes all that is live at its
  // turn; then none leaves but those that hung up.
  lemma {:induction false} NoneFailsExactly(counts: seq<int>, fds: seq<int>, writable: set<int>, takes: int -> nat)
    requires Ascending(fds)
    ensures NoneFails(counts, Writable(fds, writable), takes)
            <==> forall fd :: fd in fds && fd in writable ==> TakesAllAt(counts, fds, writable, takes, fd)
    decreases |fds|
  {
    hide NoneFails, Writable, TakesAllAt;
    if fds == [] {
      NothingFails(counts, writable, takes);
    } else {
      var n := |fds| - 1;
      NoneFailsExactly(counts, fds[..n], writable, takes);
      NoneFailsMore(counts, fds, writable, takes);
      assert forall fd :: fd in fds <==> fd in fds[..n] || fd == fds[n] by {
        assert fds == fds[..n] + [fds[n]];
      }
      forall fd | fd in fds[..n]
        ensures TakesAllAt(counts, fds, writable, takes, fd) <==> TakesAllAt(counts, fds[..n], writable, takes, fd)
      {
        TakesAllEarlier(counts, fds, writable, takes, fd);
      }
    }
  }

  // A client leaves when a send to it fails or its connection is gone; `earlier` are the
  // writable clients before it.
  predicate Leaves(counts: seq<int>, earlier: seq<int>, o: Outcome, fd: int) {
    || (fd in o.writable && Live(After(counts, earlier, o.takes)) > o.takes(fd))
    || (fd in o.readable && fd in o.hungUp)
  }

  // Deque and traces once the given clients have been served.
  predicate Offered(msgs: seq<Message>, was: seq<Trace>, clients: seq<int>, takes: int -> nat,
                    q: seq<Message>, t: seq<Trace>)
    requires |msgs| == |was|
  {
    q == WithCounts(msgs, After(Counts(msgs), clients, takes)) && t == WithRecipients(was, msgs, clients, takes)
  }

  lemma OfferedMeans(msgs: seq<Message>, was: seq<Trace>, clients: seq<int>, takes: int -> nat,
                     q: seq<Message>, t: seq<Trace>)
    requires |msgs| == |was| && Offered(msgs, was, clients, takes, q, t)
    ensures |q| == |t| == |msgs|
    ensures q == WithCounts(msgs, After(Counts(msgs), clients, takes))
    ensures t == WithRecipients(was, msgs, clients, takes)
  {
  }

  function ToOne(trace: Trace, gets: bool, fd: int, text: string): Trace {
    if gets then SentTo(trace, [fd], text) else trace
  }

  lemma {:induction false} OneClientMore(
    msgs: seq<Message>, was: seq<Trace>, clients: seq<int>, c: int, takes: int -> nat,
    q: seq<Message>, t: seq<Trace>, q': seq<Message>, t': seq<Trace>)
    requires |msgs| == |was| && Offered(msgs, was, clients, takes, q, t)
    requires q' == WithCounts(q, AfterOne(Counts(q), takes(c)))
    requires |t'| == |t|
    requires forall k :: 0 <= k < |t| ==> t'[k] == ToOne(t[k], Gets(Counts(q), takes(c), k), c, q[k].1)
    ensures Offered(msgs, was, clients + [c], takes, q', t')
  {
    hide After, Recipients, Gets, SentTo;
    var counts := Counts(msgs);
    OneMore(counts, clients, c, takes, 0);
    assert Counts(q) == After(counts, clients, takes);
    var r := WithRecipients(was, msgs, clients + [c], takes);
    forall k | 0 <= k < |t| ensures t'[k] == r[k] {
      OneMore(counts, clients, c, takes, k);
      var earlier := Recipients(counts, clients, takes, k);
      SentToMore(was[k], earlier, [c], msgs[k].1);
      assert earlier + [] == earlier;
    }
  }

  lemma EnqueueBalances(msgs: seq<Message>, traces: seq<Trace>, fds: seq<int>, line: Option<string>)
    requires InBalance(msgs, traces) && Ascending(fds)
    ensures InBalance(Enqueued(msgs, |fds|, line), EnqueuedTraces(traces, fds, line))
  {
  }

  lemma {:induction false} DoneBalances(done: seq<Trace>, msgs: seq<Message>, traces: seq<Trace>)
    requires Fulfilled(done) && InBalance(msgs, traces)
    ensures Fulfilled(done + Selected(msgs, traces, false))
  {
    hide Complete;
    CleanUpBalances(msgs, traces);
  }

  lemma SentVerbatim(trace: Trace, to: seq<int>)
    requires Verbatim(trace)
    ensures Verbatim(SentTo(trace, to, trace.line))
  {
  }

  // A message's trace after a pass.
  function Passed(msgs: seq<Message>, trace: Trace, clients: seq<int>, takes: int -> nat, k: nat): Trace
    requires k < |msgs|
  {
    SentTo(trace, Recipients(Counts(msgs), clients, takes, k), msgs[k].1)
    .(offered := trace.offered + clients, clean := trace.clean && NoneFails(Counts(msgs), clients, takes))
  }

  lemma SameTexts(a: Trace, b: Trace)
    requires Verbatim(a) && b == a.(offered := b.offered, clean := b.clean)
    ensures Verbatim(b)
  {
  }

  lemma {:induction false} PassBalances(msgs: seq<Message>, trace: Trace, clients: seq<int>, takes: int -> nat, k: nat)
    requires k < |msgs| && Balanced(msgs[k], trace)
    ensures Balanced((After(Counts(msgs), clients, takes)[k], msgs[k].1), Passed(msgs, trace, clients, takes, k))
  {
    hide After, Recipients, NoneFails, Verbatim;
    PassConserves(Counts(msgs), clients, takes, k);
    var to := Recipients(Counts(msgs), clients, takes, k);
    SentVerbatim(trace, to);
    SameTexts(SentTo(trace, to, trace.line), Passed(msgs, trace, clients, takes, k));
    if trace.clean && NoneFails(Counts(msgs), clients, takes) {
      FailureFreePass(Counts(msgs), clients, takes, k);
      FirstOfBoth(trace.offered, clients, |trace.clients|);
    }
  }

  lemma {:induction false} BalanceKept(msgs: seq<Message>, traces: seq<Trace>, clients: seq<int>, takes: int -> nat)
    requires InBalance(msgs, traces)
    ensures InBalance(WithCounts(msgs, After(Counts(msgs), clients, takes)),
                      Noted(WithRecipients(traces, msgs, clients, takes), clients,
                            NoneFails(Counts(msgs), clients, takes)))
  {
    hide Balanced, After, Recipients, NoneFails, SentTo;
    forall k: nat | k < |msgs|
      ensures Balanced((After(Counts(msgs), clients, takes)[k], msgs[k].1), Passed(msgs, traces[k], clients, takes, k))
      ensures Noted(WithRecipients(traces, msgs, clients, takes), clients, NoneFails(Counts(msgs), clients, takes))[k]
              == Passed(msgs, traces[k], clients, takes, k)
    {
      PassBalances(msgs, traces[k], clients, takes, k);
    }
  }

  predicate AllLive(msgs: seq<Message>) {
    forall k :: 0 <= k < |msgs| ==> msgs[k].0 > 0
  }

  lemma {:induction false} KeptAreLive(msgs: seq<Message>)
    ensures AllLive(Kept(msgs))
  {
    if msgs != [] {
      KeptAreLive(msgs[..|msgs| - 1]);
    }
  }

  // The deque with its traces, and the traces of the messages dropped so far.
  datatype Board = Board(msgs: seq<Message>, traces: seq<Trace>, done: seq<Trace>)

  // One turn of the loop: the line read is queued, the queue offered to every writable client
  // in descriptor order, and what nobody waits for any more dropped.
  function Turned(b: Board, fds: seq<int>, o: Outcome): Board
    requires |b.msgs| == |b.traces|
  {
    var msgs, was := Enqueued(b.msgs, |fds|, o.line), EnqueuedTraces(b.traces, fds, o.line);
    var clients := Writable(fds, o.writable);
    var left := WithCounts(msgs, After(Counts(msgs), clients, o.takes));
    var sent := Noted(WithRecipients(was, msgs, clients, o.takes), clients,
                      NoneFails(Counts(msgs), clients, o.takes));
    Board(Kept(left), Selected(left, sent, true), b.done + Selected(left, sent, false))
  }

  // The line read in a turn is stamped for the clients connected then: its record is among those
  // of the messages still queued or of those just dropped.
  lemma {:induction false} LineIsStamped(b: Board, fds: seq<int>, o: Outcome)
    requires |b.msgs| == |b.traces| && o.line.Some?
    ensures var after := Turned(b, fds, o);
            exists t :: t in after.traces + after.done[|b.done|..]
                        && t.line == o.line.value && t.clients == fds && t.offered == Writable(fds, o.writable)
  {
    hide After, Recipients, NoneFails, Writable, Selected, Kept, SentTo;
    var msgs, was := Enqueued(b.msgs, |fds|, o.line), EnqueuedTraces(b.traces, fds, o.line);
    var clients, k := Writable(fds, o.writable), |b.msgs|;
    var left := WithCounts(msgs, After(Counts(msgs), clients, o.takes));
    var sent := Noted(WithRecipients(was, msgs, clients, o.takes), clients, NoneFails(Counts(msgs), clients, o.takes));
    CleanUpPlaces(left, sent, k);
    var dropped := Selected(left, sent, false);
    assert (b.done + dropped)[|b.done|..] == dropped;
    assert sent[k].line == o.line.value && sent[k].clients == fds && sent[k].offered == clients by {
      assert was[k] == Trace(o.line.value, fds, [], [], [], true);
      assert [] + clients == clients;
    }
    assert sent[k] in Selected(left, sent, true) + dropped;
  }

  lemma {:induction false} NobodyWritable(fds: seq<int>, writable: set<int>)
    requires forall i :: 0 <= i < |fds| ==> fds[i] !in writable
    ensures Writable(fds, writable) == []
  {
    if fds != [] {
      NobodyWritable(fds[..|fds| - 1], writable);
    }
  }

  lemma SplitLast<T>(s: seq<T>)
    requires s != []
    ensures s == s[..|s| - 1] + [s[|s| - 1]]
  {
  }

  lemma AllLiveLess(msgs: seq<Message>)
    requires AllLive(msgs) && msgs != []
    ensures AllLive(msgs[..|msgs| - 1]) && msgs[|msgs| - 1].0 > 0
  {
  }

  lemma {:induction false} AllKept(msgs: seq<Message>, traces: seq<Trace>)
    requires |msgs| == |traces| && AllLive(msgs)
    ensures Kept(msgs) == msgs && Selected(msgs, traces, true) == traces && Selected(msgs, traces, false) == []
  {
    if msgs != [] {
      hide AllLive;
      var n := |msgs| - 1;
      AllLiveLess(msgs);
      AllKept(msgs[..n], traces[..n]);
      SplitLast(msgs);
      SplitLast(traces);
    }
  }

  // When nobody is writable, a turn does nothing but queue the line read behind the others, with
  // the number of clients.
  lemma {:induction false} OnlyStamps(b: Board, fds: seq<int>, o: Outcome)
    requires |b.msgs| == |b.traces| && AllLive(b.msgs)
    requires fds != [] && forall i :: 0 <= i < |fds| ==> fds[i] !in o.writable
    ensures Turned(b, fds, o)
            == match o.line
               case None => b
               case Some(text) =>
                 Board(b.msgs + [(|fds|, text)], b.traces + [Trace(text, fds, [], [], [], true)], b.done)
  {
    hide Kept, Selected, SentTo, Writable;
    NobodyWritable(fds, o.writable);
    var msgs, was := Enqueued(b.msgs, |fds|, o.line), EnqueuedTraces(b.traces, fds, o.line);
    assert WithCounts(msgs, Counts(msgs)) == msgs;
    var sent := WithRecipients(was, msgs, [], o.takes);
    forall k | 0 <= k < |was| ensures sent[k] == was[k] {
      SentToMore(was[k], [], [], msgs[k].1);
    }
    assert sent == was;
    var noted := Noted(was, [], true);
    forall k | 0 <= k < |was| ensures noted[k] == was[k] {
      assert was[k].offered + [] == was[k].offered;
    }
    assert noted == was;
    AllKept(msgs, was);
    assert b.done + [] == b.done;
  }

  // The first p messages have been looked at: i of them are kept, the others dropped.
  ghost predicate Cleaned(msgs: seq<Message>, was: seq<Trace>, before: seq<Trace>, p: nat,
                          q: seq<Message>, t: seq<Trace>, done: seq<Trace>, i: nat) {
    && |msgs| == |was| && p <= |msgs|
    && q == Kept(msgs[..p]) + msgs[p..] && t == Selected(msgs[..p], was[..p], true) + was[p..]
    && done == before + Selected(msgs[..p], was[..p], false)
    && i == |Kept(msgs[..p])| == |Selected(msgs[..p], was[..p], true)|
  }

  lemma NothingCleaned(msgs: seq<Message>, was: seq<Trace>, before: seq<Trace>)
    requires |msgs| == |was|
    ensures Cleaned(msgs, was, before, 0, msgs, was, before, 0)
  {
    assert msgs[..0] == [] && was[..0] == [];
  }

  lemma {:induction false} AllCleaned(msgs: seq<Message>, was: seq<Trace>, before: seq<Trace>,
                                      q: seq<Message>, t: seq<Trace>, done: seq<Trace>)
    requires Cleaned(msgs, was, before, |msgs|, q, t, done, |q|)
    ensures |msgs| == |was| && q == Kept(msgs) && t == Selected(msgs, was, true)
    ensures done == before + Selected(msgs, was, false)
  {
    hide Kept, Selected;
    assert msgs[..|msgs|] == msgs && was[..|was|] == was;
  }

  lemma {:induction false} SelectedOne(msgs: seq<Message>, was: seq<Trace>, p: nat, live: bool)
    requires |msgs| == |was| && p < |msgs|
    ensures Kept(msgs[..p + 1]) == Kept(msgs[..p]) + if msgs[p].0 > 0 then [msgs[p]] else []
    ensures Selected(msgs[..p + 1], was[..p + 1], live)
            == Selected(msgs[..p], was[..p], live) + if (msgs[p].0 > 0) == live then [was[p]] else []
  {
    assert msgs[..p + 1][..p] == msgs[..p] && was[..p + 1][..p] == was[..p];
  }

  lemma EraseAt<T>(kept: seq<T>, all: seq<T>, p: nat)
    requires p < |all|
    ensures var s, i := kept + all[p..], |kept|;
            && s[i] == all[p]
            && s[..i] + s[i + 1..] == kept + all[p + 1..]
            && s == (kept + [all[p]]) + all[p + 1..]
  {
  }

  lemma {:induction false} CleanStep(msgs: seq<Message>, was: seq<Trace>, before: seq<Trace>, p: nat,
                                     q: seq<Message>, t: seq<Trace>, done: seq<Trace>, i: nat)
    requires i < |q| == |t| && Cleaned(msgs, was, before, p, q, t, done, i)
    ensures p < |msgs| == |was|
    ensures if q[i].0 <= 0
            then Cleaned(msgs, was, before, p + 1, q[..i] + q[i + 1..], t[..i] + t[i + 1..], done + [t[i]], i)
            else Cleaned(msgs, was, before, p + 1, q, t, done, i + 1)
  {
    hide Kept, Selected;
    EraseAt(Kept(msgs[..p]), msgs, p);
    EraseAt(Selected(msgs[..p], was[..p], true), was, p);
    SelectedOne(msgs, was, p, true);
    SelectedOne(msgs, was, p, false);
    if q[i].0 <= 0 {
      assert before + (Selected(msgs[..p], was[..p], false) + [was[p]]) == done + [t[i]];
    }
  }

  lemma {:induction false} WritableMore(fds: seq<int>, fd: int, writable: set<int>)
    ensures Writable(fds + [fd], writable) == Writable(fds, writable) + if fd in writable then [fd] else []
  {
    assert (fds + [fd])[..|fds|] == fds;
  }

  lemma {:induction false} OneByOne(fds: seq<int>, p: nat, writable: set<int>)
    requires Ascending(fds) && p < |fds|
    ensures fds[p..] == [fds[p]] + fds[p + 1..]
    ensures fds[..p + 1] == fds[..p] + [fds[p]] && fds[p] !in fds[..p]
    ensures Writable(fds[..p + 1], writable)
            == Writable(fds[..p], writable) + if fds[p] in writable then [fds[p]] else []
    ensures ClientsBefore(fds, fds[p], writable) == Writable(fds[..p], writable)
  {
    hide ClientsBefore, Writable;
    ClientsBeforeAt(fds, p, writable);
    WritableMore(fds[..p], fds[p], writable);
    assert fds[..p + 1] == fds[..p] + [fds[p]];
  }

  lemma LeavesMeans(msgs: seq<Message>, was: seq<Trace>, earlier: seq<int>, o: Outcome,
                    q: seq<Message>, t: seq<Trace>, fd: int)
    requires |msgs| == |was| && Offered(msgs, was, earlier, o.takes, q, t)
    ensures |q| == |t|
    ensures Leaves(Counts(msgs), earlier, o, fd) <==>
            || (fd in o.writable && Live(Counts(q)) > o.takes(fd))
            || (fd in o.readable && fd in o.hungUp)
  {
  }

  lemma NoneWritable(writable: set<int>)
    ensures Writable([], writable) == []
  {
  }

  lemma Unoffered(msgs: seq<Message>, traces: seq<Trace>, takes: int -> nat)
    requires |msgs| == |traces|
    ensures Offered(msgs, traces, [], takes, msgs, traces)
  {
    forall k | 0 <= k < |traces|
      ensures SentTo(traces[k], Recipients(Counts(msgs), [], takes, k), msgs[k].1) == traces[k]
    {
      SentToMore(traces[k], [], [], msgs[k].1);
      assert Recipients(Counts(msgs), [], takes, k) == [];
    }
  }

  function MinusOne(msg: Message, gets: bool): Message {
    if gets then (msg.0 - 1, msg.1) else msg
  }

  lemma CountedDown(msgs: seq<Message>, q: seq<Message>, takes: nat)
    requires |q| == |msgs|
    requires forall k :: 0 <= k < |msgs| ==> q[k] == MinusOne(msgs[k], Gets(Counts(msgs), takes, k))
    ensures q == WithCounts(msgs, AfterOne(Counts(msgs), takes))
  {
    hide Gets;
  }

  lemma NoneBefore(counts: seq<int>, takes: nat, i: nat)
    requires i < |counts| && counts[i] > 0 && Live(counts[i + 1..]) == takes
    ensures forall k :: 0 <= k <= i ==> !Gets(counts, takes, k)
    ensures Live(counts) > takes
  {
    LiveSuffix(counts, 0, i);
    LiveStep(counts, i);
    assert counts[0..] == counts;
    forall k | 0 <= k <= i ensures !Gets(counts, takes, k) {
      LiveSuffix(counts, k + 1, i + 1);
    }
  }

  lemma NoneLive(counts: seq<int>)
    ensures Live(counts[|counts|..]) == 0
  {
  }

  class Worker {
    var fds: seq<int>
    var queMsgs: seq<Message>
    ghost var traces: seq<Trace>
    ghost var done: seq<Trace>

    ghost function Contents(): Board
      reads this`queMsgs, this`traces, this`done
    {
      Board(queMsgs, traces, done)
    }

    // For every message still queued, the sends made plus the positive remaining count are as
    // many as the clients stamped for; every dropped message was sent exactly that often.  As
    // long as no send fails, those sends went to the first clients that were writable.
    ghost predicate Valid()
      reads this
    {
      && Ascending(fds)
      && InBalance(queMsgs, traces)
      && AllLive(queMsgs)
      && Fulfilled(done)
    }

    constructor ()
      ensures Valid() && fds == [] && queMsgs == [] && done == []
    {
      fds, queMsgs, traces, done := [], [], [], [];
    }

    // In every state of every run: each send of a message, dropped or still queued, carried the
    // line it was stamped with, up to its first NUL, and the queued text is that line.
    lemma EverySendIsTheLine(k: nat, j: nat)
      requires Valid()
      ensures k < |queMsgs| ==> k < |traces| && queMsgs[k].1 == traces[k].line
      ensures k < |queMsgs| && j < |traces[k].to| ==>
                j < |traces[k].texts| && traces[k].texts[j] == UpToNul(traces[k].line)
      ensures k < |done| && j < |done[k].to| ==>
                j < |done[k].texts| && done[k].texts[j] == UpToNul(done[k].line)
    {
      if k < |queMsgs| {
        assert Balanced(queMsgs[k], traces[k]);
      }
      if k < |done| {
        assert Complete(done[k]);
      }
    }

    // In every state of every run: a message dropped without a failing send since its stamping
    // reached each client it was stamped for once exactly when the first clients that were
    // writable since then, as many as stamped for, do not repeat and are among those.
    lemma DroppedAfterOnce(k: nat)
      requires Valid() && k < |done| && done[k].clean
      ensures var n := |done[k].clients|;
              && n <= |done[k].offered|
              && (multiset(done[k].to) == multiset(done[k].clients)
                  <==> NoneTwice(done[k].offered[..n], done[k].clients))
    {
      hide NoneTwice;
      assert Complete(done[k]);
      EachClientOnce(done[k].to, done[k].clients);
    }

    method Accept(fd: int)
      requires Valid()
      modifies this`fds
      ensures Valid()
      ensures forall x :: x in fds <==> x in old(fds) || x == fd
    {
      InsertKeepsOrder(fds, fd);
      InsertAdds(fds, fd);
      fds := Insert(fds, fd);
    }

    // Offer every live message to one client, the newest first, until a send fails.
    method SendAll(fd: int, takes: nat) returns (failed: bool)
      requires |queMsgs| == |traces|
      modifies this`queMsgs, this`traces
      ensures queMsgs == WithCounts(old(queMsgs), AfterOne(Counts(old(queMsgs)), takes))
      ensures |traces| == |queMsgs|
      ensures forall k :: 0 <= k < |traces| ==>
                traces[k] == ToOne(old(traces)[k], Gets(Counts(old(queMsgs)), takes, k), fd, old(queMsgs)[k].1)
      ensures failed <==> Live(Counts(old(queMsgs))) > takes
    {
      hide Live, Gets, WithCounts, AfterOne;
      ghost var msgs, was := queMsgs, traces;
      ghost var counts := Counts(queMsgs);
      failed := false;
      var tried := 0;
      var i := |queMsgs| - 1;
      NoneLive(counts);
      while i >= 0
        invariant -1 <= i < |queMsgs| == |traces| == |msgs|
        invariant tried == Live(counts[i + 1..]) <= takes
        invariant forall k :: 0 <= k <= i ==> queMsgs[k] == msgs[k] && traces[k] == was[k]
        invariant forall k :: i < k < |msgs| ==> queMsgs[k] == MinusOne(msgs[k], Gets(counts, takes, k))
        invariant forall k :: i < k < |msgs| ==> traces[k] == ToOne(was[k], Gets(counts, takes, k), fd, msgs[k].1)
      {
        LiveStep(counts, i);
        GetsMeans(counts, takes, i);
        if queMsgs[i].0 <= 0 {
          i := i - 1;
          continue;
        }
        if tried == takes {
          failed := true;
          break;
        }
        queMsgs := queMsgs[i := (queMsgs[i].0 - 1, queMsgs[i].1)];
        traces := traces[i := SentTo(traces[i], [fd], queMsgs[i].1)];
        tried := tried + 1;
        i := i - 1;
      }
      if failed {
        NoneBefore(counts, takes, i);
      }
      assert counts[0..] == counts;
      CountedDown(msgs, queMsgs, takes);
    }

    // The loop over the clients.
    method OfferAll(o: Outcome, ghost msgs: seq<Message>, ghost was: seq<Trace>)
      requires Ascending(fds) && queMsgs == msgs && traces == was && |msgs| == |was|
      modifies this`fds, this`queMsgs, this`traces
      ensures Ascending(fds)
      ensures var clients := Writable(old(fds), o.writable);
              && queMsgs == WithCounts(msgs, After(Counts(msgs), clients, o.takes))
              && traces == WithRecipients(was, msgs, clients, o.takes)
      ensures forall fd :: fd in fds <==>
                fd in old(fds) && !Leaves(Counts(msgs), ClientsBefore(old(fds), fd, o.writable), o, fd)
    {
      hide Ascending, Offered, Leaves, Writable, ClientsBefore, After, AfterOne, Live, Gets, ToOne, WithCounts,
           WithRecipients;
      ghost var all, p := fds, 0;
      ghost var clients := [];
      var i := 0;
      Unoffered(msgs, was, o.takes);
      NoneWritable(o.writable);
      while i < |fds|
        invariant 0 <= i <= |fds| && 0 <= p <= |all| && Ascending(fds)
        invariant fds[i..] == all[p..]
        invariant clients == Writable(all[..p], o.writable)
        invariant Offered(msgs, was, clients, o.takes, queMsgs, traces)
        invariant forall fd :: fd in fds <==>
                    fd in all && (fd in all[..p] ==> !Leaves(Counts(msgs), ClientsBefore(all, fd, o.writable), o, fd))
        decreases |fds| - i
      {
        var fd := fds[i];
        assert fd == fds[i..][0] == all[p..][0];
        OneByOne(all, p, o.writable);
        LeavesMeans(msgs, was, clients, o, queMsgs, traces, fd);
        var closed := false;
        if fd in o.writable {
          ghost var q, t := queMsgs, traces;
          closed := SendAll(fd, o.takes(fd));
          OneClientMore(msgs, was, clients, fd, o.takes, q, t, queMsgs, traces);
          clients := clients + [fd];
        }
        if fd in o.readable && fd in o.hungUp {
          closed := true;
        }
        Without(fds, i);
        assert fds[i + 1..] == fds[i..][1..] == all[p..][1..] == all[p + 1..];
        if closed {
          assert (fds[..i] + fds[i + 1..])[i..] == fds[i + 1..];
          fds := fds[..i] + fds[i + 1..];
        } else {
          i := i + 1;
        }
        p := p + 1;
      }
      assert all[..p] == all;
      OfferedMeans(msgs, was, clients, o.takes, queMsgs, traces);
    }

    // The loop that erases every message nobody waits for.
    method CleanUp()
      requires |queMsgs| == |traces|
      modifies this`queMsgs, this`traces, this`done
      ensures queMsgs == Kept(old(queMsgs))
      ensures traces == Selected(old(queMsgs), old(traces), true)
      ensures done == old(done) + Selected(old(queMsgs), old(traces), false)
    {
      hide Cleaned, Kept, Selected;
      ghost var msgs, was, before, p := queMsgs, traces, done, 0;
      var i := 0;
      NothingCleaned(msgs, was, before);
      while i < |queMsgs|
        invariant 0 <= i <= |queMsgs| == |traces| && p + |queMsgs| - i == |msgs| == |was| && p >= 0
        invariant Cleaned(msgs, was, before, p, queMsgs, traces, done, i)
        decreases |queMsgs| - i
      {
        CleanStep(msgs, was, before, p, queMsgs, traces, done, i);
        if queMsgs[i].0 <= 0 {
          ghost var t := traces;
          var q := queMsgs;
          done := done + [t[i]];
          queMsgs, traces := q[..i] + q[i + 1..], t[..i] + t[i + 1..];
        } else {
          i := i + 1;
        }
        p := p + 1;
      }
      AllCleaned(msgs, was, before, queMsgs, traces, done);
    }

    // One turn of the loop; it waits while nobody is connected.
    method Pass(o: Outcome)
      requires Valid()
      modifies this
      ensures Valid()
      ensures if old(fds) == [] then fds == [] && Contents() == old(Contents())
              else Contents() == Turned(old(Contents()), old(fds), o)
      ensures forall fd :: fd in fds <==>
                && fd in old(fds)
                && (fd in o.writable ==>
                      var msgs := Enqueued(old(queMsgs), |old(fds)|, o.line);
                      TakesAllAt(Counts(msgs), old(fds), o.writable, o.takes, fd))
                && !(fd in o.readable && fd in o.hungUp)
      ensures old(fds) != [] && (forall i :: 0 <= i < |old(fds)| ==> old(fds)[i] !in o.writable) ==>
                queMsgs == old(queMsgs) + if o.line.Some? then [(|old(fds)|, o.line.value)] else []
    {
      hide After, Recipients, NoneFails, Writable, Kept, Selected, Balanced, Complete, ClientsBefore;
      if fds == [] {
        return;
      }
      ghost var all := fds;
      if o.line.Some? {
        queMsgs := queMsgs + [(|fds|, o.line.value)];
        traces := traces + [Trace(o.line.value, fds, [], [], [], true)];
      }
      ghost var msgs, was := queMsgs, traces;
      OfferAll(o, msgs, was);
      ghost var clients := Writable(all, o.writable);
      traces := Noted(traces, clients, NoneFails(Counts(msgs), clients, o.takes));
      EnqueueBalances(old(queMsgs), old(traces), all, o.line);
      BalanceKept(msgs, was, clients, o.takes);
      DoneBalances(old(done), queMsgs, traces);
      CleanUpBalances(queMsgs, traces);
      KeptAreLive(queMsgs);
      CleanUp();
      if forall i :: 0 <= i < |all| ==> all[i] !in o.writable {
        OnlyStamps(old(Contents()), all, o);
      }
    }
  }

  // ---------------------------------------------------------------- a run of two turns

  lemma {:induction false} FourWritable(writable: set<int>)
    requires writable == {4}
    ensures Writable([4, 5], writable) == [4]
  {
    hide Writable;
    NoneWritable(writable);
    WritableMore([], 4, writable);
    WritableMore([4], 5, writable);
    assert [] + [4] == [4] && [4] + [5] == [4, 5] && [4] + [] == [4];
  }

  lemma {:induction false} ToFour(msgs: seq<Message>, count: nat, traces: seq<Trace>, o: Outcome)
    requires |msgs| == 1 && msgs[0].0 == count >= 1 && |traces| == 1
    requires o.writable == {4} && o.takes(4) >= 1
    ensures Counts(msgs) == [count] && Writable([4, 5], o.writable) == [4] && NoneFails([count], [4], o.takes)
    ensures WithCounts(msgs, After([count], [4], o.takes)) == [(count - 1, msgs[0].1)]
    ensures WithRecipients(traces, msgs, [4], o.takes) == [SentTo(traces[0], [4], msgs[0].1)]
  {
    hide After, Recipients, NoneFails, Writable;
    FourWritable(o.writable);
    LoneMessageSent(count, 4, o.takes);
    FailureFreePass([count], [4], o.takes, 0);
    assert [4][..1] == [4];
  }

  lemma {:induction false} CleanUpOne(msgs: seq<Message>, traces: seq<Trace>)
    requires |msgs| == |traces| == 1
    ensures Kept(msgs) == if msgs[0].0 > 0 then msgs else []
    ensures Selected(msgs, traces, true) == if msgs[0].0 > 0 then traces else []
    ensures Selected(msgs, traces, false) == if msgs[0].0 > 0 then [] else traces
  {
    assert msgs[..0] == [] && traces[..0] == [];
  }

  lemma {:induction false} FourTakesAll(count: nat, writable: set<int>, takes: int -> nat)
    requires takes(4) >= 1
    ensures TakesAllAt([count], [4, 5], writable, takes, 4)
  {
    ClientsBeforeAt([4, 5], 0, writable);
    NoneWritable(writable);
    assert [4, 5][..0] == [];
    assert [count][1..] == [] && Live([count]) <= 1;
  }

  // Two clients, one message, and only client 4 writable: a turn sends the message to it.
  lemma {:induction false} OnlyToFour(msgs: seq<Message>, traces: seq<Trace>, o: Outcome, count: nat, text: string,
                                      trace: Trace)
    requires |msgs| == |traces| && count >= 1
    requires Enqueued(msgs, 2, o.line) == [(count, text)] && EnqueuedTraces(traces, [4, 5], o.line) == [trace]
    requires o.writable == {4} && o.readable == {} && o.takes(4) >= 1
    ensures var next := SentTo(trace, [4], text).(offered := trace.offered + [4]);
            Turned(Board(msgs, traces, []), [4, 5], o)
            == if count == 1 then Board([], [], [next]) else Board([(count - 1, text)], [next], [])
    ensures TakesAllAt([count], [4, 5], o.writable, o.takes, 4) && Counts([(count, text)]) == [count]
  {
    hide Writable, After, Recipients, NoneFails, Kept, Selected, SentTo, TakesAllAt;
    FourTakesAll(count, o.writable, o.takes);
    ToFour([(count, text)], count, [trace], o);
    var sent := Noted([SentTo(trace, [4], text)], [4], true);
    assert sent == [SentTo(trace, [4], text).(offered := trace.offered + [4])];
    CleanUpOne([(count - 1, text)], sent);
  }

  lemma SentTwice(text: string)
    requires '\0' !in text
    ensures var once := SentTo(Trace(text, [4, 5], [], [], [], true), [4], text).(offered := [] + [4]);
            && once == Trace(text, [4, 5], [4], [text], [4], true)
            && SentTo(once, [4], text).(offered := once.offered + [4])
               == Trace(text, [4, 5], [4, 4], [text, text], [4, 4], true)
  {
    NoNulNoCut(text);
  }

  method BothAccepted() returns (w: Worker)
    ensures w.Valid() && fresh(w) && w.fds == [4, 5] && w.Contents() == Board([], [], [])
  {
    w := new Worker();
    w.Accept(4);
    w.Accept(5);
    SameElements(w.fds, [4, 5]);
  }

  // TwiceAndNever as a run: both clients connect, a line is read, and client 4 alone is
  // writable in that pass and in the next.
  method TwiceInTwoPasses(text: string, takes: int -> nat) returns (w: Worker)
    requires takes(4) >= 1 && '\0' !in text
    ensures w.Valid() && fresh(w) && w.fds == [4, 5]
    ensures w.Contents() == Board([], [], [Trace(text, [4, 5], [4, 4], [text, text], [4, 4], true)])
  {
    hide Turned, TakesAllAt, InBalance, Fulfilled, Live, SentTo;
    ghost var stamped, once := Trace(text, [4, 5], [], [], [], true), Trace(text, [4, 5], [4], [text], [4], true);
    SentTwice(text);
    w := BothAccepted();
    var o := Outcome(Some(text), {4}, {}, takes, {});
    OnlyToFour([], [], o, 2, text, stamped);
    w.Pass(o);
    SameElements(w.fds, [4, 5]);
    assert w.Contents() == Board([(1, text)], [once], []);
    o := Outcome(None, {4}, {}, takes, {});
    OnlyToFour([(1, text)], [once], o, 1, text, once);
    w.Pass(o);
    SameElements(w.fds, [4, 5]);
  }
}
