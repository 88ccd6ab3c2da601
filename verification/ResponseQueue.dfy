/** The worker of the HTTP server: the set of connected descriptors and the list of responses
  waiting to be sent (`_thread_func`, socket-server-http-select.cpp:322-415).

  One pass works on whatever `select` reports.  How many sends a descriptor takes before one
  fails, what `recv` yields and which response belongs to a parsed request are parameters, so a
  pass stands for every way they can turn out.  The list is keyed by descriptor number, and so
  are the statements here.
 */
module ResponseQueue {
  import opened CString
  import opened FdSet
  import opened HttpParser
  import opened Option
  import opened Ordering
  import HttpRoundTrip

  type Message = (int, string)

  // The messages for one descriptor, in order.
  function ForFd(msgs: seq<Message>, fd: int): seq<Message> {
    if msgs == [] then []
    else (if msgs[0].0 == fd then [msgs[0]] else []) + ForFd(msgs[1..], fd)
  }

  lemma {:induction false} ForFdConcat(a: seq<Message>, b: seq<Message>, fd: int)
    ensures ForFd(a + b, fd) == ForFd(a, fd) + ForFd(b, fd)
  {
    if a == [] {
      assert a + b == b;
    } else {
      assert (a + b)[1..] == a[1..] + b;
      ForFdConcat(a[1..], b, fd);
      var head: seq<Message> := if a[0].0 == fd then [a[0]] else [];
      var x, y := ForFd(a[1..], fd), ForFd(b, fd);
      assert ForFd(a + b, fd) == head + (x + y);
      assert head + (x + y) == (head + x) + y;
    }
  }

  lemma ForFdOne(msgs: seq<Message>, msg: Message, fd: int)
    ensures ForFd(msgs + [msg], fd) == ForFd(msgs, fd) + if msg.0 == fd then [msg] else []
  {
    ForFdConcat(msgs, [msg], fd);
    assert [msg][1..] == [];
  }

  // A request as it was read, with what its response depends on: what the method field of the
  // new struct happens to hold, and make_http_response as it is at that moment.
  datatype Asked = Asked(fd: int, text: string, unset: Method, respond: (int, HttpRequest) -> string)

  // The buffer is parsed as a C string, the parser's verdict is ignored, and the response is
  // made from whatever fields it filled.
  function Answer(a: Asked): Message {
    (a.fd, a.respond(a.fd, ParsedRequest(UpToNul(a.text), Fresh(a.unset)).1))
  }

  function Answers(asked: seq<Asked>): (msgs: seq<Message>)
    ensures |msgs| == |asked| && forall k :: 0 <= k < |asked| ==> msgs[k] == Answer(asked[k])
  {
    seq(|asked|, k requires 0 <= k < |asked| => Answer(asked[k]))
  }

  // The requests read from one descriptor, in order.
  function AskedOn(asked: seq<Asked>, fd: int): seq<Asked> {
    if |asked| == 0 then []
    else
      AskedOn(asked[..|asked| - 1], fd)
      + if asked[|asked| - 1].fd == fd then [asked[|asked| - 1]] else []
  }

  lemma {:induction false} AskedOnOne(asked: seq<Asked>, a: Asked)
    ensures forall fd :: AskedOn(asked + [a], fd) == AskedOn(asked, fd) + if a.fd == fd then [a] else []
  {
    assert (asked + [a])[..|asked|] == asked;
  }

  lemma {:induction false} AskedOnThat(asked: seq<Asked>, fd: int, k: nat)
    requires k < |AskedOn(asked, fd)|
    ensures AskedOn(asked, fd)[k].fd == fd && AskedOn(asked, fd)[k] in asked
  {
    var n := |asked| - 1;
    if k < |AskedOn(asked[..n], fd)| {
      AskedOnThat(asked[..n], fd, k);
    }
  }

  // The queue, every request read so far, and every response sent so far.
  datatype Logs = Logs(queue: seq<Message>, asked: seq<Asked>, sent: seq<Message>)

  // The answers to the requests read from `fd` are the responses sent to it and then those
  // queued for it.
  ghost predicate InOrder(a: Logs, fd: int) {
    Answers(AskedOn(a.asked, fd)) == ForFd(a.sent, fd) + ForFd(a.queue, fd)
  }

  ghost predicate Accounted(a: Logs) {
    |a.asked| == |a.sent| + |a.queue| && forall fd :: InOrder(a, fd)
  }

  // How a pass turns out: what select reports, and what send and recv do.
  datatype Outcome = Outcome(
    writable: set<int>,
    readable: set<int>,
    takes: int -> nat,                  // sends that succeed before one fails
    received: int -> Option<string>,    // what recv read; None if it failed
    unset: Method,
    respond: (int, HttpRequest) -> string)

  const MSG_SIZE := 4096

  // A recv of nothing counts as failed, and what was read leaves room for the terminator.
  predicate FitsBuffer(o: Outcome, fd: int) {
    o.received(fd).Some? ==> 0 < |o.received(fd).value| < MSG_SIZE
  }

  // What a pass sends to a connected `fd`, what it reads from it, and whether it closes it.
  function Sends(a: Logs, o: Outcome, fd: int): nat {
    if fd in o.writable then Min(o.takes(fd), |ForFd(a.queue, fd)|) else 0
  }

  function Asks(o: Outcome, fd: int): seq<Asked> {
    if fd in o.readable && o.received(fd).Some? then [Asked(fd, o.received(fd).value, o.unset, o.respond)] else []
  }

  predicate Closes(a: Logs, o: Outcome, fd: int) {
    Sends(a, o, fd) > 0 || (fd in o.readable && o.received(fd).None?)
  }

  // A well-formed request without NUL is answered from exactly what the parser reads back of it,
  // whether or not it accepts it, and whatever comes behind a NUL; so one that is Parsable is
  // answered as it was sent.
  lemma {:induction false} RequestIsAnswered(o: Outcome, fd: int, r: HttpRoundTrip.Request, tail: string)
    requires fd in o.readable && o.received(fd) == Some(HttpRoundTrip.Text(r) + tail)
    requires tail != "" ==> tail[0] == '\0'
    requires HttpRoundTrip.WellFormed(r) && '\0' !in HttpRoundTrip.Text(r)
    ensures Answers(Asks(o, fd)) == [(fd, o.respond(fd, HttpRoundTrip.ReadBack(r, o.unset).1))]
    ensures HttpRoundTrip.Parsable(r) ==> Answers(Asks(o, fd)) == [(fd, o.respond(fd, HttpRoundTrip.Expected(r)))]
  {
    hide ParsedRequest, HttpRoundTrip.ReadBack, HttpRoundTrip.Parsable;
    CutAtNul(HttpRoundTrip.Text(r), tail);
    HttpRoundTrip.RequestReads(r, o.unset);
    HttpRoundTrip.RequestRoundTrip(r, o.unset);
  }

  // What a pass does with one connected descriptor.
  ghost predicate Exchanged(a: Logs, b: Logs, o: Outcome, fd: int) {
    var queued, k := ForFd(a.queue, fd), Sends(a, o, fd);
    && ForFd(b.sent, fd) == ForFd(a.sent, fd) + queued[..k]
    && ForFd(b.queue, fd) == queued[k..] + Answers(Asks(o, fd))
    && AskedOn(b.asked, fd) == AskedOn(a.asked, fd) + Asks(o, fd)
  }

  ghost predicate Untouched(a: Logs, b: Logs, fd: int) {
    && ForFd(b.sent, fd) == ForFd(a.sent, fd)
    && ForFd(b.queue, fd) == ForFd(a.queue, fd)
    && AskedOn(b.asked, fd) == AskedOn(a.asked, fd)
  }

  lemma Regrouped(sent: seq<Message>, queued: seq<Message>, k: nat, more: seq<Message>)
    requires k <= |queued|
    ensures (sent + queued) + more == (sent + queued[..k]) + (queued[k..] + more)
  {
    assert queued == queued[..k] + queued[k..];
  }

  lemma AnswersConcat(x: seq<Asked>, y: seq<Asked>)
    ensures Answers(x + y) == Answers(x) + Answers(y)
  {
    hide Answer;
  }

  lemma SendsFit(a: Logs, o: Outcome, fd: int)
    ensures Sends(a, o, fd) <= |ForFd(a.queue, fd)|
  {
  }

  lemma {:induction false} ExchangeKeepsOrder(a: Logs, b: Logs, o: Outcome, fd: int)
    requires InOrder(a, fd) && Exchanged(a, b, o, fd)
    ensures InOrder(b, fd)
  {
    hide ForFd, AskedOn, Answers, Asks, Sends;
    SendsFit(a, o, fd);
    AnswersConcat(AskedOn(a.asked, fd), Asks(o, fd));
    Regrouped(ForFd(a.sent, fd), ForFd(a.queue, fd), Sends(a, o, fd), Answers(Asks(o, fd)));
  }

  lemma {:induction false} UntouchedKeepsOrder(a: Logs, b: Logs, fd: int)
    requires InOrder(a, fd) && Untouched(a, b, fd)
    ensures InOrder(b, fd)
  {
    hide ForFd, AskedOn, Answers;
  }

  // A pass leaves nothing queued for a descriptor exactly when everything queued was sent and
  // nothing was read.
  lemma {:induction false} NothingLeftBehind(a: Logs, b: Logs, o: Outcome, fd: int)
    requires Exchanged(a, b, o, fd)
    ensures ForFd(b.queue, fd) == [] <==> Sends(a, o, fd) == |ForFd(a.queue, fd)| && |Asks(o, fd)| == 0
  {
    hide ForFd, AskedOn, Asks, Sends;
    SendsFit(a, o, fd);
    assert |ForFd(b.queue, fd)| == |ForFd(a.queue, fd)| - Sends(a, o, fd) + |Asks(o, fd)|;
  }

  // A pass over one connected descriptor in full: what is sent is the front of its queue, as
  // much as it takes before a send fails, and nothing if it is not writable; what is read is
  // queued for it, answered, behind the rest.
  ghost predicate ServedInFull(a: Logs, b: Logs, o: Outcome, fd: int) {
    var queued, asked := ForFd(a.queue, fd), AskedOn(a.asked, fd);
    var left := if fd !in o.writable then queued
                else if o.takes(fd) < |queued| then queued[o.takes(fd)..]
                else [];
    && ForFd(b.sent, fd) + left == ForFd(a.sent, fd) + queued
    && if fd in o.readable && o.received(fd).Some?
       then
         var request := Asked(fd, o.received(fd).value, o.unset, o.respond);
         AskedOn(b.asked, fd) == asked + [request] && ForFd(b.queue, fd) == left + [Answer(request)]
       else AskedOn(b.asked, fd) == asked && ForFd(b.queue, fd) == left
  }

  lemma {:induction false} ExchangedInFull(a: Logs, b: Logs, o: Outcome, fd: int)
    requires Exchanged(a, b, o, fd)
    ensures ServedInFull(a, b, o, fd)
  {
    hide ForFd, AskedOn, Answer;
    var queued, k := ForFd(a.queue, fd), Sends(a, o, fd);
    assert queued[..k] + queued[k..] == queued;
    assert (ForFd(a.sent, fd) + queued[..k]) + queued[k..] == ForFd(a.sent, fd) + queued;
    assert Answers(Asks(o, fd)) == if |Asks(o, fd)| == 0 then [] else [Answer(Asks(o, fd)[0])];
  }

  // A pass sends everything queued for a writable descriptor exactly when no send to it fails.
  lemma {:induction false} EmptiedExactly(a: Logs, b: Logs, o: Outcome, fd: int)
    requires Exchanged(a, b, o, fd) && fd in o.writable
    ensures ForFd(b.sent, fd) == ForFd(a.sent, fd) + ForFd(a.queue, fd) <==> |ForFd(a.queue, fd)| <= o.takes(fd)
    ensures o.takes(fd) <= |ForFd(a.queue, fd)| ==>
              ForFd(b.sent, fd) == ForFd(a.sent, fd) + ForFd(a.queue, fd)[..o.takes(fd)]
  {
    hide ForFd, AskedOn, Answers, Asks;
    var queued, k := ForFd(a.queue, fd), Sends(a, o, fd);
    assert k == |queued| ==> queued[..k] == queued;
    assert |ForFd(b.sent, fd)| == |ForFd(a.sent, fd)| + k;
  }

  // A connected descriptor is closed exactly when something was sent to it or recv failed.
  lemma {:induction false} ClosedExactly(a: Logs, b: Logs, o: Outcome, fd: int)
    requires Exchanged(a, b, o, fd)
    ensures Closes(a, o, fd)
            <==> ForFd(b.sent, fd) != ForFd(a.sent, fd) || (fd in o.readable && o.received(fd) == None)
  {
    hide ForFd, AskedOn, Answers, Asks, Sends;
    SendsFit(a, o, fd);
    assert |ForFd(b.sent, fd)| == |ForFd(a.sent, fd)| + Sends(a, o, fd);
    assert Sends(a, o, fd) == 0 ==> ForFd(a.queue, fd)[..0] == [];
  }

  lemma {:induction false} Framed(a: Logs, b: Logs, c: Logs, o: Outcome, fd: int)
    ensures Untouched(a, b, fd) && Untouched(b, c, fd) ==> Untouched(a, c, fd)
    ensures Exchanged(a, b, o, fd) && Untouched(b, c, fd) ==> Exchanged(a, c, o, fd)
    ensures Untouched(a, b, fd) && Exchanged(b, c, o, fd) ==> Exchanged(a, c, o, fd)
    ensures Untouched(a, b, fd) ==> (Closes(a, o, fd) <==> Closes(b, o, fd))
  {
    hide ForFd, AskedOn, Answers, Asks;
  }

  // ---------------------------------------------------------------- one connection

  // The logs of `fd` only ever get longer, from pass to pass.
  ghost predicate Grew(a: Logs, b: Logs, fd: int) {
    ForFd(a.sent, fd) <= ForFd(b.sent, fd) && AskedOn(a.asked, fd) <= AskedOn(b.asked, fd)
  }

  lemma {:induction false} StepGrows(a: Logs, b: Logs, o: Outcome, fd: int)
    requires Exchanged(a, b, o, fd) || Untouched(a, b, fd)
    ensures Grew(a, b, fd)
  {
    hide ForFd, AskedOn, Asks, Sends;
    SendsFit(a, o, fd);
  }

  // What was sent on `fd`, and read from it, from a to b.
  ghost function SentSince(a: Logs, b: Logs, fd: int): seq<Message>
    requires Grew(a, b, fd)
  {
    ForFd(b.sent, fd)[|ForFd(a.sent, fd)|..]
  }

  ghost function AskedSince(a: Logs, b: Logs, fd: int): seq<Asked>
    requires Grew(a, b, fd)
  {
    AskedOn(b.asked, fd)[|AskedOn(a.asked, fd)|..]
  }

  lemma SameFront(front: seq<Message>, a: seq<Message>, b: seq<Message>, x: seq<Message>, y: seq<Message>)
    requires (front + a) + b == (front + x) + y
    ensures a + b == x + y
  {
    assert (front + a) + b == front + (a + b) && (front + x) + y == front + (x + y);
    assert a + b == (front + (a + b))[|front|..] == (front + (x + y))[|front|..] == x + y;
  }

  // Between two states of a run, what was sent on a descriptor number and what is queued for it
  // at the end are what was queued for it at the start and the answers to the requests read
  // from it in between.
  lemma {:induction false} ConnectionAccounts(a: Logs, b: Logs, fd: int)
    requires InOrder(a, fd) && InOrder(b, fd) && Grew(a, b, fd)
    ensures SentSince(a, b, fd) + ForFd(b.queue, fd) == ForFd(a.queue, fd) + Answers(AskedSince(a, b, fd))
  {
    hide ForFd, AskedOn, Answers;
    var before, after := ForFd(a.sent, fd), SentSince(a, b, fd);
    var answers := Answers(AskedSince(a, b, fd));
    assert ForFd(b.sent, fd) == before + after;
    assert Answers(AskedOn(b.asked, fd)) == (before + ForFd(a.queue, fd)) + answers by {
      assert AskedOn(b.asked, fd) == AskedOn(a.asked, fd) + AskedSince(a, b, fd);
      AnswersConcat(AskedOn(a.asked, fd), AskedSince(a, b, fd));
    }
    SameFront(before, after, ForFd(b.queue, fd), ForFd(a.queue, fd), answers);
  }

  // The k-th response sent on `fd` answers the k-th request read from it: one read before a.
  ghost predicate AnswersEarlier(a: Logs, fd: int, k: nat) {
    k < |AskedOn(a.asked, fd)|
  }

  // Every response sent on `fd` from a to b answers a request read from it from a to b.
  ghost predicate OwnAnswersOnly(a: Logs, b: Logs, fd: int) {
    forall k: nat :: |ForFd(a.sent, fd)| <= k < |ForFd(b.sent, fd)| ==> !AnswersEarlier(a, fd, k)
  }

  // With a the state at an accept: the new holder of the number is sent answers to its own
  // requests only, and then a prefix of them, exactly when nothing was queued for the number at
  // its accept or nothing is sent.  Otherwise the first response it is sent is the oldest one
  // left over.
  lemma {:induction false} OwnAnswersExactly(a: Logs, b: Logs, fd: int)
    requires InOrder(a, fd) && InOrder(b, fd) && Grew(a, b, fd)
    ensures OwnAnswersOnly(a, b, fd) <==> ForFd(a.queue, fd) == [] || SentSince(a, b, fd) == []
    ensures OwnAnswersOnly(a, b, fd) ==> SentSince(a, b, fd) <= Answers(AskedSince(a, b, fd))
    ensures ForFd(a.queue, fd) != [] && SentSince(a, b, fd) != [] ==> SentSince(a, b, fd)[0] == ForFd(a.queue, fd)[0]
  {
    hide ForFd, AskedOn, Answer;
    ConnectionAccounts(a, b, fd);
    var since, answers := SentSince(a, b, fd), Answers(AskedSince(a, b, fd));
    assert |AskedOn(a.asked, fd)| == |ForFd(a.sent, fd)| + |ForFd(a.queue, fd)|;
    if ForFd(a.queue, fd) == [] {
      assert since + ForFd(b.queue, fd) == answers;
    } else if since != [] {
      assert (since + ForFd(b.queue, fd))[0] == (ForFd(a.queue, fd) + answers)[0];
      assert AnswersEarlier(a, fd, |ForFd(a.sent, fd)|);
    }
  }

  // From the pass that closes a descriptor (a to b), over passes without it (b to c), to the
  // next connection with its number (c to d): whether that is sent a foreign response depends
  // on what the closing pass left, and on whether anything is sent at all.
  lemma {:induction false} NextHolderExactly(a: Logs, b: Logs, c: Logs, d: Logs, o: Outcome, fd: int)
    requires Exchanged(a, b, o, fd) && Untouched(b, c, fd)
    requires InOrder(c, fd) && InOrder(d, fd) && Grew(c, d, fd)
    ensures OwnAnswersOnly(c, d, fd)
            <==> || (Sends(a, o, fd) == |ForFd(a.queue, fd)| && |Asks(o, fd)| == 0)
                 || SentSince(c, d, fd) == []
  {
    hide ForFd, AskedOn, Answers, Asks, Sends, Exchanged, InOrder, OwnAnswersOnly;
    NothingLeftBehind(a, b, o, fd);
    OwnAnswersExactly(c, d, fd);
  }

  // ---------------------------------------------------------------- the loops of a pass

  // The first k messages queued for `fd` have been sent; nothing else has changed.
  ghost predicate Drained(queue: seq<Message>, out: seq<Message>, queue': seq<Message>, out': seq<Message>,
                          fd: int, k: nat) {
    var queued := ForFd(queue, fd);
    && k <= |queued|
    && ForFd(out', fd) == ForFd(out, fd) + queued[..k]
    && ForFd(queue', fd) == queued[k..]
    && (forall other :: other != fd ==> ForFd(out', other) == ForFd(out, other))
    && (forall other :: other != fd ==> ForFd(queue', other) == ForFd(queue, other))
    && |out'| + |queue'| == |out| + |queue|
  }

  lemma {:induction false} NothingDrained(queue: seq<Message>, out: seq<Message>, fd: int)
    ensures Drained(queue, out, queue, out, fd, 0)
    ensures queue[..0] == [] && ForFd(queue[..0], fd) == []
  {
    assert ForFd(queue, fd)[..0] == [] && ForFd(queue, fd)[0..] == ForFd(queue, fd);
  }

  lemma {:induction false} AllDrained(queue: seq<Message>, out: seq<Message>, queue': seq<Message>, out': seq<Message>,
                                      fd: int, k: nat)
    requires Drained(queue, out, queue', out', fd, k) && ForFd(queue', fd) == []
    ensures k == |ForFd(queue, fd)|
  {
    hide ForFd;
  }

  lemma TakeOne(queued: seq<Message>, k: nat, head: Message, rest: seq<Message>)
    requires k <= |queued| && queued[k..] == [head] + rest
    ensures k < |queued| && queued[k + 1..] == rest && queued[..k + 1] == queued[..k] + [head]
  {
    assert queued[k..][1..] == rest && queued[k..][0] == head;
  }

  lemma {:induction false} Erased(msgs: seq<Message>, j: nat, fd: int)
    requires j < |msgs|
    ensures ForFd(msgs, fd)
            == ForFd(msgs[..j], fd) + ((if msgs[j].0 == fd then [msgs[j]] else []) + ForFd(msgs[j + 1..], fd))
    ensures ForFd(msgs[..j] + msgs[j + 1..], fd) == ForFd(msgs[..j], fd) + ForFd(msgs[j + 1..], fd)
  {
    assert msgs == msgs[..j] + msgs[j..];
    ForFdConcat(msgs[..j], msgs[j..], fd);
    ForFdConcat(msgs[..j], msgs[j + 1..], fd);
  }

  lemma {:induction false} FirstOfTail(msgs: seq<Message>, j: nat, fd: int)
    requires j < |msgs| && msgs[j].0 == fd && ForFd(msgs[..j], fd) == []
    ensures ForFd(msgs, fd) == [msgs[j]] + ForFd(msgs[..j] + msgs[j + 1..], fd)
  {
    Erased(msgs, j, fd);
  }

  lemma {:induction false} EraseAt(msgs: seq<Message>, j: nat)
    requires j < |msgs|
    ensures forall other :: other != msgs[j].0 ==> ForFd(msgs[..j] + msgs[j + 1..], other) == ForFd(msgs, other)
  {
    forall other | other != msgs[j].0
      ensures ForFd(msgs[..j] + msgs[j + 1..], other) == ForFd(msgs, other)
    {
      Erased(msgs, j, other);
    }
  }

  lemma SendOne(msgs: seq<Message>, msg: Message)
    ensures forall fd :: ForFd(msgs + [msg], fd) == ForFd(msgs, fd) + if msg.0 == fd then [msg] else []
  {
    forall fd ensures ForFd(msgs + [msg], fd) == ForFd(msgs, fd) + if msg.0 == fd then [msg] else [] {
      ForFdOne(msgs, msg, fd);
    }
  }

  lemma {:induction false} DrainOne(queue: seq<Message>, out: seq<Message>, queue': seq<Message>, out': seq<Message>,
                                    fd: int, k: nat, j: nat)
    requires Drained(queue, out, queue', out', fd, k)
    requires j < |queue'| && queue'[j].0 == fd && ForFd(queue'[..j], fd) == []
    ensures k < |ForFd(queue, fd)|
    ensures var shorter := queue'[..j] + queue'[j + 1..];
            shorter[..j] == queue'[..j] && Drained(queue, out, shorter, out' + [queue'[j]], fd, k + 1)
  {
    hide ForFd;
    var msg, shorter := queue'[j], queue'[..j] + queue'[j + 1..];
    FirstOfTail(queue', j, fd);
    TakeOne(ForFd(queue, fd), k, msg, ForFd(shorter, fd));
    EraseAt(queue', j);
    SendOne(out', msg);
    assert ForFd(out', fd) + [msg] == ForFd(out, fd) + (ForFd(queue, fd)[..k] + [msg]);
    assert ForFd(out', fd) + [msg] == ForFd(out, fd) + ForFd(queue, fd)[..k + 1];
    forall other | other != fd ensures ForFd(out' + [msg], other) == ForFd(out, other) {
      assert ForFd(out', other) + [] == ForFd(out', other);
    }
  }

  lemma AnswerTo(a: Asked)
    ensures Answer(a).0 == a.fd
  {
  }

  // Draining and then perhaps reading makes an exchange, and touches no other descriptor.
  lemma {:induction false} Served(a: Logs, d: Logs, b: Logs, o: Outcome, fd: int)
    requires Drained(a.queue, a.sent, d.queue, d.sent, fd, Sends(a, o, fd))
    requires d.asked == a.asked && b.sent == d.sent
    requires b.queue == d.queue + Answers(Asks(o, fd)) && b.asked == d.asked + Asks(o, fd)
    ensures Exchanged(a, b, o, fd)
    ensures forall other :: other != fd ==> Untouched(a, b, other)
    ensures |b.sent| + |b.queue| - |b.asked| == |a.sent| + |a.queue| - |a.asked|
  {
    hide ForFd, AskedOn, Answer;
    if |Asks(o, fd)| == 1 {
      var msg := Answer(Asks(o, fd)[0]);
      assert Answers(Asks(o, fd)) == [msg] && msg.0 == fd by {
        AnswerTo(Asks(o, fd)[0]);
      }
      SendOne(d.queue, msg);
      AskedOnOne(a.asked, Asks(o, fd)[0]);
    } else {
      assert b.queue == d.queue && b.asked == a.asked;
    }
  }

  lemma NothingYet(a: Logs, fd: int)
    ensures Untouched(a, a, fd)
  {
  }

  lemma SplitAt(fds: seq<int>, i: nat)
    requires Ascending(fds) && i < |fds|
    ensures fds[i..] == [fds[i]] + fds[i + 1..] && fds[i] !in fds[i + 1..] && fds[i] in fds[i..]
  {
  }

  lemma {:induction false} PrefixGrows(msgs: seq<Message>, j: nat, fd: int)
    requires j < |msgs| && msgs[j].0 != fd && ForFd(msgs[..j], fd) == []
    ensures ForFd(msgs[..j + 1], fd) == []
  {
    assert msgs[..j + 1] == msgs[..j] + [msgs[j]];
    ForFdOne(msgs[..j], msgs[j], fd);
  }

  class Worker {
    var fds: seq<int>
    var listMsgs: seq<Message>
    ghost var asked: seq<Asked>
    ghost var sent: seq<Message>

    ghost function History(): Logs
      reads this`listMsgs, this`asked, this`sent
    {
      Logs(listMsgs, asked, sent)
    }

    ghost predicate Valid()
      reads this
    {
      Ascending(fds) && Accounted(History())
    }

    constructor ()
      ensures Valid() && fds == [] && History() == Logs([], [], [])
    {
      fds, listMsgs, asked, sent := [], [], [], [];
    }

    // In every state of every run, the k-th response sent on a descriptor number answers the
    // k-th request read from it, so each request is answered at most once, and in order.
    lemma SentInOrder(fd: int, k: nat)
      requires Valid() && k < |ForFd(sent, fd)|
      ensures k < |AskedOn(asked, fd)| && AskedOn(asked, fd)[k].fd == fd && AskedOn(asked, fd)[k] in asked
      ensures ForFd(sent, fd)[k] == Answer(AskedOn(asked, fd)[k])
    {
      hide ForFd, AskedOn, Answer;
      assert InOrder(History(), fd);
      assert Answers(AskedOn(asked, fd))[k] == ForFd(sent, fd)[k];
      AskedOnThat(asked, fd, k);
    }

    // The accepting thread adds a descriptor between passes.
    method Accept(fd: int)
      requires Valid()
      modifies this`fds
      ensures Valid()
      ensures forall x :: x in fds <==> x in old(fds) || x == fd
    {
      InsertKeepsOrder(fds, fd);
      InsertAdds(fds, fd);
      fds := Insert(fds, fd);
    }

    // Send what is queued for `fd` until a send fails.
    method SendQueued(fd: int, takes: nat) returns (any: bool)
      modifies this`listMsgs, this`sent
      ensures var k := Min(takes, |ForFd(old(listMsgs), fd)|);
              Drained(old(listMsgs), old(sent), listMsgs, sent, fd, k) && (any <==> k > 0)
    {
      hide ForFd, Drained;
      any := false;
      var tried := 0;
      var j := 0;
      ghost var queue, out := listMsgs, sent;
      NothingDrained(queue, out, fd);
      while j < |listMsgs|
        invariant 0 <= j <= |listMsgs| && 0 <= tried <= takes && (any <==> tried > 0)
        invariant Drained(queue, out, listMsgs, sent, fd, tried)
        invariant ForFd(listMsgs[..j], fd) == []
        decreases |listMsgs| - j
      {
        var msg := listMsgs[j];
        if msg.0 != fd {
          PrefixGrows(listMsgs, j, fd);
          j := j + 1;
          continue;
        }
        DrainOne(queue, out, listMsgs, sent, fd, tried, j);
        if tried == takes {
          break;
        }
        sent := sent + [msg];
        any := true;
        tried := tried + 1;
        listMsgs := listMsgs[..j] + listMsgs[j + 1..];
      }
      if j == |listMsgs| {
        assert listMsgs[..j] == listMsgs;
        AllDrained(queue, out, listMsgs, sent, fd, tried);
      }
    }

    // What a pass does with one descriptor: send, then receive.
    method Serve(fd: int, o: Outcome) returns (closed: bool)
      requires FitsBuffer(o, fd)
      modifies this`listMsgs, this`sent, this`asked
      ensures Exchanged(old(History()), History(), o, fd)
      ensures closed <==> Closes(old(History()), o, fd)
      ensures forall other :: other != fd ==> Untouched(old(History()), History(), other)
      ensures |sent| + |listMsgs| - |asked| == old(|sent| + |listMsgs| - |asked|)
    {
      hide ParsedRequest, ForFd, AskedOn, Drained;
      ghost var before := History();
      closed := false;
      if fd in o.writable {
        closed := SendQueued(fd, o.takes(fd));
      } else {
        NothingDrained(listMsgs, sent, fd);
      }
      ghost var drained := History();
      if fd in o.readable {
        if o.received(fd).None? {
          closed := true;
        } else {
          ghost var request := Asked(fd, o.received(fd).value, o.unset, o.respond);
          var _, httpReq := ParseHttpRequest(UpToNul(o.received(fd).value), Fresh(o.unset));
          listMsgs := listMsgs + [(fd, o.respond(fd, httpReq))];
          asked := asked + [request];
        }
      }
      Served(before, drained, History(), o, fd);
    }

    // One pass over the descriptors.  Every connected one is served, and leaves the set if a
    // response was sent to it or recv failed; nothing happens to any other.
    method Pass(o: Outcome)
      requires Valid() && forall fd :: FitsBuffer(o, fd)
      modifies this
      ensures Valid()
      ensures forall fd :: if fd in old(fds) then Exchanged(old(History()), History(), o, fd)
                           else Untouched(old(History()), History(), fd)
      ensures forall fd :: fd in old(fds) ==> ServedInFull(old(History()), History(), o, fd)
      ensures forall fd :: Grew(old(History()), History(), fd)
      ensures forall fd :: fd in fds <==>
                && fd in old(fds)
                && ForFd(sent, fd) == old(ForFd(sent, fd)) && !(fd in o.readable && o.received(fd) == None)
    {
      hide ForFd, AskedOn, Exchanged, Closes, Untouched, FitsBuffer, InOrder, Grew, ServedInFull;
      ghost var start, all := History(), fds;
      ghost var served: set<int> := {};
      forall fd ensures Untouched(start, History(), fd) { NothingYet(start, fd); }
      var i := 0;
      while i < |fds|
        invariant 0 <= i <= |fds| && Ascending(fds)
        invariant |asked| == |sent| + |listMsgs|
        invariant forall fd :: fd in fds[i..] <==> fd in all && fd !in served
        invariant forall fd :: fd in served ==> fd in all && Exchanged(start, History(), o, fd)
        invariant forall fd :: fd !in served ==> Untouched(start, History(), fd)
        invariant forall fd :: fd in fds <==> fd in all && (fd in served ==> !Closes(start, o, fd))
        decreases |fds| - i
      {
        var fd := fds[i];
        ghost var before := History();
        SplitAt(fds, i);
        var closed := Serve(fd, o);
        forall other ensures other in served ==> Exchanged(start, History(), o, other)
          ensures other !in served && other != fd ==> Untouched(start, History(), other)
        {
          Framed(start, before, History(), o, other);
        }
        Framed(start, before, History(), o, fd);
        Without(fds, i);
        if closed {
          assert (fds[..i] + fds[i + 1..])[i..] == fds[i + 1..];
          fds := fds[..i] + fds[i + 1..];
        } else {
          i := i + 1;
        }
        served := served + {fd};
      }
      forall fd
        ensures if fd in all then Exchanged(start, History(), o, fd) else Untouched(start, History(), fd)
        ensures InOrder(History(), fd) && Grew(start, History(), fd)
        ensures fd in all ==> ServedInFull(start, History(), o, fd)
        ensures fd in all ==>
                  (Closes(start, o, fd)
                   <==> ForFd(sent, fd) != ForFd(start.sent, fd) || (fd in o.readable && o.received(fd) == None))
      {
        assert InOrder(start, fd);
        StepGrows(start, History(), o, fd);
        if fd in all {
          ExchangeKeepsOrder(start, History(), o, fd);
          ExchangedInFull(start, History(), o, fd);
          ClosedExactly(start, History(), o, fd);
        } else {
          UntouchedKeepsOrder(start, History(), fd);
        }
      }
    }
  }

  // ---------------------------------------------------------------- a response left over

  lemma {:induction false} OneMoreQueued(a: Logs, b: Logs, o: Outcome, fd: int)
    requires Exchanged(a, b, o, fd) && fd !in o.writable && fd in o.readable && o.received(fd).Some?
    ensures ForFd(b.queue, fd) == ForFd(a.queue, fd) + [Answer(Asked(fd, o.received(fd).value, o.unset, o.respond))]
  {
    hide ForFd, AskedOn, Answer;
    assert ForFd(a.queue, fd)[0..] == ForFd(a.queue, fd);
    assert |Asks(o, fd)| == 1;
  }

  lemma NoneQueued(fd: int)
    ensures ForFd([], fd) == []
  {
  }

  // A run in which the next holder is sent a foreign response: two requests are read from
  // client 4, one response is sent and the client closed, and then the number is accepted again;
  // the new client, which has sent no request, is sent the second response.
  method LeftOverIsSent(first: string, second: string, unset: Method, respond: (int, HttpRequest) -> string)
    returns (w: Worker, ghost accepted: Logs)
    requires 0 < |first| < MSG_SIZE && 0 < |second| < MSG_SIZE
    ensures w.Valid() && fresh(w) && Grew(accepted, w.History(), 4) && AskedSince(accepted, w.History(), 4) == []
    ensures SentSince(accepted, w.History(), 4) == [Answer(Asked(4, second, unset, respond))]
  {
    hide ForFd, AskedOn, Answer;
    w := new Worker();
    w.Accept(4);
    ghost var x, y := Asked(4, first, unset, respond), Asked(4, second, unset, respond);
    var one, another := Outcome({}, {4}, _ => 0, _ => Some(first), unset, respond),
                        Outcome({}, {4}, _ => 0, _ => Some(second), unset, respond);
    var sends := Outcome({4}, {}, _ => 1, _ => None, unset, respond);
    NoneQueued(4);
    ghost var before := w.History();
    w.Pass(one);
    OneMoreQueued(before, w.History(), one, 4);
    before := w.History();
    w.Pass(another);
    OneMoreQueued(before, w.History(), another, 4);
    assert ForFd(w.listMsgs, 4) == [Answer(x), Answer(y)];
    w.Pass(sends);
    assert 4 !in w.fds && ForFd(w.listMsgs, 4) == [Answer(y)];
    w.Accept(4);
    accepted := w.History();
    w.Pass(sends);
    assert SentSince(accepted, w.History(), 4) == [Answer(y)][..1];
  }
}
