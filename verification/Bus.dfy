/**
 Any number of devices on one Ethernet: frames in flight are delivered in any order, an answer is put
 back on the network for any of the devices, and a device that throws sends nothing.
 */
module Bus {
  import opened Bytes
  import opened EchoDevice
  import DeviceTheorems

  /** A frame on its way to one of the devices. */
  datatype Delivery = Delivery(frame: seq<byte>, receiver: nat)

  /** The delivery that happens next, and who gets the answer to it, if there is one. */
  datatype Event = Event(index: nat, recipients: seq<nat>)

  predicate ValidDeliveries(devices: seq<Addresses>, pending: seq<Delivery>) {
    forall i :: 0 <= i < |pending| ==> pending[i].receiver < |devices|
  }

  /**
   An answer is delivered to any devices, at most as often as there are devices. This leaves open which
   devices get it, and allows a network that delivers it to one of them twice.
   */
  predicate Enabled(devices: seq<Addresses>, pending: seq<Delivery>, event: Event) {
    event.index < |pending| && |event.recipients| <= |devices|
    && forall k :: 0 <= k < |event.recipients| ==> event.recipients[k] < |devices|
  }

  predicate IsRequest(devices: seq<Addresses>, d: Delivery)
    requires d.receiver < |devices|
  {
    Respond(devices[d.receiver], d.frame).Sent?
  }

  function Broadcast(frame: seq<byte>, recipients: seq<nat>): seq<Delivery> {
    if |recipients| == 0 then [] else [Delivery(frame, recipients[0])] + Broadcast(frame, recipients[1..])
  }

  /** The deliveries an event adds. */
  function Answer(devices: seq<Addresses>, d: Delivery, recipients: seq<nat>): seq<Delivery>
    requires d.receiver < |devices|
  {
    match Respond(devices[d.receiver], d.frame)
    case Sent(frame) => Broadcast(frame, recipients)
    case _ => []
  }

  function Next(devices: seq<Addresses>, pending: seq<Delivery>, event: Event): seq<Delivery>
    requires ValidDeliveries(devices, pending) && Enabled(devices, pending, event)
  {
    pending[..event.index] + pending[event.index + 1..] + Answer(devices, pending[event.index], event.recipients)
  }

  /** None of the devices answers the frame. */
  predicate Quiet(devices: seq<Addresses>, frame: seq<byte>) {
    forall i :: 0 <= i < |devices| ==> !IsRequest(devices, Delivery(frame, i))
  }

  lemma AnswerIsQuiet(devices: seq<Addresses>, d: Delivery)
    requires d.receiver < |devices| && IsRequest(devices, d)
    ensures Quiet(devices, Respond(devices[d.receiver], d.frame).frame)
  {
    forall i | 0 <= i < |devices|
      ensures !IsRequest(devices, Delivery(Respond(devices[d.receiver], d.frame).frame, i))
    {
      DeviceTheorems.AnswersAreFinal(devices[d.receiver], d.frame, devices[i]);
    }
  }

  /** Answers have valid receivers, and are no requests for any of them. */
  lemma {:induction false} BroadcastIsQuiet(devices: seq<Addresses>, frame: seq<byte>, recipients: seq<nat>)
    requires Quiet(devices, frame)
    requires forall k :: 0 <= k < |recipients| ==> recipients[k] < |devices|
    ensures var answers := Broadcast(frame, recipients);
            |answers| == |recipients| && ValidDeliveries(devices, answers) && Requests(devices, answers) == 0
    decreases |recipients|
  {
    if |recipients| > 0 {
      BroadcastIsQuiet(devices, frame, recipients[1..]);
      assert !IsRequest(devices, Delivery(frame, recipients[0]));
    }
  }

  /** The number of deliveries that are going to be answered. */
  function Requests(devices: seq<Addresses>, pending: seq<Delivery>): nat
    requires ValidDeliveries(devices, pending)
  {
    if |pending| == 0 then 0
    else (if IsRequest(devices, pending[0]) then 1 else 0) + Requests(devices, pending[1..])
  }

  lemma {:induction false} RequestsAppend(devices: seq<Addresses>, a: seq<Delivery>, b: seq<Delivery>)
    requires ValidDeliveries(devices, a) && ValidDeliveries(devices, b)
    ensures ValidDeliveries(devices, a + b)
    ensures Requests(devices, a + b) == Requests(devices, a) + Requests(devices, b)
    decreases |a|
  {
    if |a| == 0 {
      assert a + b == b;
    } else {
      assert (a + b)[1..] == a[1..] + b;
      RequestsAppend(devices, a[1..], b);
    }
  }

  /** One event answers one request for good, or delivers a frame that is not answered. */
  lemma EventAccounting(devices: seq<Addresses>, pending: seq<Delivery>, event: Event)
    requires ValidDeliveries(devices, pending) && Enabled(devices, pending, event)
    ensures var next := Next(devices, pending, event);
            ValidDeliveries(devices, next)
            && if IsRequest(devices, pending[event.index])
               then Requests(devices, next) + 1 == Requests(devices, pending) && |next| <= |pending| - 1 + |devices|
               else Requests(devices, next) == Requests(devices, pending) && |next| == |pending| - 1
  {
    var d := pending[event.index];
    var before, after := pending[..event.index], pending[event.index + 1..];
    assert pending == before + ([d] + after);
    RequestsAppend(devices, [d], after);
    RequestsAppend(devices, before, [d] + after);
    RequestsAppend(devices, before, after);
    assert [d][1..] == [];
    assert Requests(devices, [d]) == if IsRequest(devices, d) then 1 else 0;
    if IsRequest(devices, d) {
      AnswerIsQuiet(devices, d);
      BroadcastIsQuiet(devices, Respond(devices[d.receiver], d.frame).frame, event.recipients);
    }
    RequestsAppend(devices, before + after, Answer(devices, d, event.recipients));
  }

  // ---------------------------------------------------------------------------------------------
  // Which answers are due

  /** The answer to a delivery, if there is one. */
  function AnswerTo(devices: seq<Addresses>, d: Delivery): multiset<seq<byte>>
    requires d.receiver < |devices|
  {
    match Respond(devices[d.receiver], d.frame)
    case Sent(frame) => multiset{frame}
    case _ => multiset{}
  }

  /** The answers to all deliveries in flight. */
  function AnswersDue(devices: seq<Addresses>, pending: seq<Delivery>): multiset<seq<byte>>
    requires ValidDeliveries(devices, pending)
  {
    if |pending| == 0 then multiset{} else AnswerTo(devices, pending[0]) + AnswersDue(devices, pending[1..])
  }

  lemma {:induction false} DueAppend(devices: seq<Addresses>, a: seq<Delivery>, b: seq<Delivery>)
    requires ValidDeliveries(devices, a) && ValidDeliveries(devices, b)
    ensures ValidDeliveries(devices, a + b)
    ensures AnswersDue(devices, a + b) == AnswersDue(devices, a) + AnswersDue(devices, b)
    decreases |a|
  {
    if |a| == 0 {
      assert a + b == b;
    } else {
      assert (a + b)[1..] == a[1..] + b;
      DueAppend(devices, a[1..], b);
    }
  }

  lemma {:induction false} NothingDue(devices: seq<Addresses>, pending: seq<Delivery>)
    requires ValidDeliveries(devices, pending)
    ensures |AnswersDue(devices, pending)| == Requests(devices, pending)
    ensures Requests(devices, pending) == 0 ==> AnswersDue(devices, pending) == multiset{}
  {
    if |pending| > 0 {
      NothingDue(devices, pending[1..]);
    }
  }

  /** An event sends the answer that was due for its delivery; no new answer becomes due. */
  lemma EventSettles(devices: seq<Addresses>, pending: seq<Delivery>, event: Event)
    requires ValidDeliveries(devices, pending) && Enabled(devices, pending, event)
    ensures ValidDeliveries(devices, Next(devices, pending, event))
    ensures AnswersDue(devices, Next(devices, pending, event)) + AnswerTo(devices, pending[event.index])
            == AnswersDue(devices, pending)
  {
    var d := pending[event.index];
    var before, after := pending[..event.index], pending[event.index + 1..];
    assert pending == before + ([d] + after);
    DueInsert(devices, before, d, after);
    var answers := Answer(devices, d, event.recipients);
    AnswersAreQuiet(devices, d, event.recipients);
    DueAppend(devices, before + after, answers);
  }

  /** One delivery among others. */
  lemma DueInsert(devices: seq<Addresses>, before: seq<Delivery>, d: Delivery, after: seq<Delivery>)
    requires ValidDeliveries(devices, before) && ValidDeliveries(devices, after) && d.receiver < |devices|
    ensures ValidDeliveries(devices, before + after) && ValidDeliveries(devices, before + ([d] + after))
    ensures AnswersDue(devices, before + ([d] + after)) == AnswersDue(devices, before + after) + AnswerTo(devices, d)
  {
    assert ([d] + after)[1..] == after;
    DueAppend(devices, before, [d] + after);
    DueAppend(devices, before, after);
  }

  lemma AnswersAreQuiet(devices: seq<Addresses>, d: Delivery, recipients: seq<nat>)
    requires d.receiver < |devices| && forall k :: 0 <= k < |recipients| ==> recipients[k] < |devices|
    ensures var answers := Answer(devices, d, recipients);
            ValidDeliveries(devices, answers) && AnswersDue(devices, answers) == multiset{}
  {
    if IsRequest(devices, d) {
      AnswerIsQuiet(devices, d);
      BroadcastIsQuiet(devices, Respond(devices[d.receiver], d.frame).frame, recipients);
      NothingDue(devices, Answer(devices, d, recipients));
    }
  }

  // ---------------------------------------------------------------------------------------------
  // Runs

  predicate IsRun(devices: seq<Addresses>, pending: seq<Delivery>, events: seq<Event>)
    requires ValidDeliveries(devices, pending)
    decreases |events|
  {
    |events| == 0
    || (Enabled(devices, pending, events[0]) &&
        (EventAccounting(devices, pending, events[0]); IsRun(devices, Next(devices, pending, events[0]), events[1..])))
  }

  /** What is still in flight after a run. */
  function Final(devices: seq<Addresses>, pending: seq<Delivery>, events: seq<Event>): seq<Delivery>
    requires ValidDeliveries(devices, pending) && IsRun(devices, pending, events)
    decreases |events|
  {
    if |events| == 0 then pending
    else EventAccounting(devices, pending, events[0]); Final(devices, Next(devices, pending, events[0]), events[1..])
  }

  /** The number of answers the devices send in a run. */
  function Answers(devices: seq<Addresses>, pending: seq<Delivery>, events: seq<Event>): nat
    requires ValidDeliveries(devices, pending) && IsRun(devices, pending, events)
    decreases |events|
  {
    if |events| == 0 then 0
    else
      EventAccounting(devices, pending, events[0]);
      (if IsRequest(devices, pending[events[0].index]) then 1 else 0)
      + Answers(devices, Next(devices, pending, events[0]), events[1..])
  }

  /**
   Requests are conserved: the answers sent in a run and the requests still in flight after it are
   together the requests in flight before it, in whatever order frames are delivered.
   */
  lemma {:induction false} RequestsConserved(devices: seq<Addresses>, pending: seq<Delivery>, events: seq<Event>)
    requires ValidDeliveries(devices, pending) && IsRun(devices, pending, events)
    ensures ValidDeliveries(devices, Final(devices, pending, events))
    ensures Answers(devices, pending, events) + Requests(devices, Final(devices, pending, events))
            == Requests(devices, pending)
    decreases |events|
  {
    if |events| > 0 {
      EventAccounting(devices, pending, events[0]);
      RequestsConserved(devices, Next(devices, pending, events[0]), events[1..]);
    }
  }

  /** The frames the devices send in a run. */
  function AnswersSent(devices: seq<Addresses>, pending: seq<Delivery>, events: seq<Event>): multiset<seq<byte>>
    requires ValidDeliveries(devices, pending) && IsRun(devices, pending, events)
    decreases |events|
  {
    if |events| == 0 then multiset{}
    else
      EventAccounting(devices, pending, events[0]);
      AnswerTo(devices, pending[events[0].index]) + AnswersSent(devices, Next(devices, pending, events[0]), events[1..])
  }

  /**
   The very frames are conserved. So a run that ends with nothing in flight has sent exactly the answers
   to the requests at first, in whatever order frames were delivered.
   */
  lemma {:induction false} AnswersConserved(devices: seq<Addresses>, pending: seq<Delivery>, events: seq<Event>)
    requires ValidDeliveries(devices, pending) && IsRun(devices, pending, events)
    ensures ValidDeliveries(devices, Final(devices, pending, events))
    ensures AnswersSent(devices, pending, events) + AnswersDue(devices, Final(devices, pending, events))
            == AnswersDue(devices, pending)
    ensures Final(devices, pending, events) == [] ==>
              AnswersSent(devices, pending, events) == AnswersDue(devices, pending)
    decreases |events|
  {
    if |events| > 0 {
      EventSettles(devices, pending, events[0]);
      AnswersConserved(devices, Next(devices, pending, events[0]), events[1..]);
    }
  }

  // ---------------------------------------------------------------------------------------------
  // What is in flight

  /** One delivery of the frame for each recipient. */
  function Copies(frame: seq<byte>, recipients: seq<nat>): multiset<Delivery> {
    multiset(seq(|recipients|, k requires 0 <= k < |recipients| => Delivery(frame, recipients[k])))
  }

  /** The deliveries that are made in a run. */
  function Made(devices: seq<Addresses>, pending: seq<Delivery>, events: seq<Event>): multiset<Delivery>
    requires ValidDeliveries(devices, pending) && IsRun(devices, pending, events)
    decreases |events|
  {
    if |events| == 0 then multiset{}
    else
      EventAccounting(devices, pending, events[0]);
      multiset{pending[events[0].index]} + Made(devices, Next(devices, pending, events[0]), events[1..])
  }

  /** The deliveries that come of an event: the answer, if there is one, to every recipient. */
  function PostedBy(devices: seq<Addresses>, d: Delivery, recipients: seq<nat>): multiset<Delivery>
    requires d.receiver < |devices|
  {
    if IsRequest(devices, d) then Copies(Respond(devices[d.receiver], d.frame).frame, recipients) else multiset{}
  }

  function Posted(devices: seq<Addresses>, pending: seq<Delivery>, events: seq<Event>): multiset<Delivery>
    requires ValidDeliveries(devices, pending) && IsRun(devices, pending, events)
    decreases |events|
  {
    if |events| == 0 then multiset{}
    else
      EventAccounting(devices, pending, events[0]);
      PostedBy(devices, pending[events[0].index], events[0].recipients)
      + Posted(devices, Next(devices, pending, events[0]), events[1..])
  }

  /** An answer can reach any device: then it is what is in flight, and nothing else. */
  lemma AnswerReaches(devices: seq<Addresses>, pending: seq<Delivery>, to: nat, events: seq<Event>)
    requires |pending| == 1 && ValidDeliveries(devices, pending) && IsRequest(devices, pending[0])
    requires to < |devices| && events == [Event(0, [to])]
    ensures IsRun(devices, pending, events)
    ensures Final(devices, pending, events)
            == [Delivery(Respond(devices[pending[0].receiver], pending[0].frame).frame, to)]
  {
    OnlyAnswer(devices, pending, to, events[0]);
    EventAccounting(devices, pending, events[0]);
    NoEvents(devices, Next(devices, pending, events[0]), events[1..]);
  }

  lemma OnlyAnswer(devices: seq<Addresses>, pending: seq<Delivery>, to: nat, event: Event)
    requires |pending| == 1 && ValidDeliveries(devices, pending) && IsRequest(devices, pending[0])
    requires to < |devices| && event == Event(0, [to])
    ensures Enabled(devices, pending, event)
    ensures Next(devices, pending, event)
            == [Delivery(Respond(devices[pending[0].receiver], pending[0].frame).frame, to)]
  {
    var d := pending[0];
    var frame := Respond(devices[d.receiver], d.frame).frame;
    ToOne(frame, to, event.recipients);
    assert Answer(devices, d, event.recipients) == [Delivery(frame, to)];
    assert pending[..0] + pending[1..] + [Delivery(frame, to)] == [Delivery(frame, to)];
  }

  lemma ToOne(frame: seq<byte>, to: nat, recipients: seq<nat>)
    requires recipients == [to]
    ensures Broadcast(frame, recipients) == [Delivery(frame, to)]
  {
    assert recipients[1..] == [];
    assert Broadcast(frame, recipients[1..]) == [];
  }

  lemma NoEvents(devices: seq<Addresses>, pending: seq<Delivery>, events: seq<Event>)
    requires ValidDeliveries(devices, pending) && |events| == 0
    ensures IsRun(devices, pending, events) && Final(devices, pending, events) == pending
  {
  }

  /** The network neither loses nor makes up frames: every answer sent is put in flight once for each recipient. */
  lemma {:induction false} DeliveriesConserved(devices: seq<Addresses>, pending: seq<Delivery>, events: seq<Event>)
    requires ValidDeliveries(devices, pending) && IsRun(devices, pending, events)
    ensures Made(devices, pending, events) + multiset(Final(devices, pending, events))
            == multiset(pending) + Posted(devices, pending, events)
    decreases |events|
  {
    if |events| > 0 {
      var next := Next(devices, pending, events[0]);
      EventAccounting(devices, pending, events[0]);
      EventMoves(devices, pending, events[0]);
      DeliveriesConserved(devices, next, events[1..]);
      Balance(multiset{pending[events[0].index]}, Made(devices, next, events[1..]),
              multiset(Final(devices, next, events[1..])), multiset(next),
              Posted(devices, next, events[1..]), multiset(pending),
              PostedBy(devices, pending[events[0].index], events[0].recipients));
    }
  }

  lemma Balance(one: multiset<Delivery>, made: multiset<Delivery>, final: multiset<Delivery>, next: multiset<Delivery>,
                posted: multiset<Delivery>, pending: multiset<Delivery>, more: multiset<Delivery>)
    requires made + final == next + posted && next + one == pending + more
    ensures one + made + final == pending + (more + posted)
  {
    forall d: Delivery
      ensures (one + made + final)[d] == (pending + (more + posted))[d]
    {
      assert (made + final)[d] == (next + posted)[d] && (next + one)[d] == (pending + more)[d];
    }
  }

  lemma EventMoves(devices: seq<Addresses>, pending: seq<Delivery>, event: Event)
    requires ValidDeliveries(devices, pending) && Enabled(devices, pending, event)
    ensures multiset(Next(devices, pending, event)) + multiset{pending[event.index]}
            == multiset(pending) + PostedBy(devices, pending[event.index], event.recipients)
  {
    AnswerCopies(devices, pending[event.index], event.recipients);
    TakeOut(pending, event.index, Answer(devices, pending[event.index], event.recipients));
  }

  lemma TakeOut(pending: seq<Delivery>, i: nat, more: seq<Delivery>)
    requires i < |pending|
    ensures multiset(pending[..i] + pending[i + 1..] + more) + multiset{pending[i]}
            == multiset(pending) + multiset(more)
  {
    assert pending == pending[..i] + [pending[i]] + pending[i + 1..];
  }

  lemma AnswerCopies(devices: seq<Addresses>, d: Delivery, recipients: seq<nat>)
    requires d.receiver < |devices|
    ensures multiset(Answer(devices, d, recipients)) == PostedBy(devices, d, recipients)
  {
    if IsRequest(devices, d) {
      BroadcastCopies(Respond(devices[d.receiver], d.frame).frame, recipients);
    }
  }

  lemma {:induction false} BroadcastCopies(frame: seq<byte>, recipients: seq<nat>)
    ensures Broadcast(frame, recipients)
            == seq(|recipients|, k requires 0 <= k < |recipients| => Delivery(frame, recipients[k]))
  {
    if |recipients| > 0 {
      BroadcastCopies(frame, recipients[1..]);
    }
  }

  /**
   Every run ends: it has no more events than deliveries were in flight at first, plus one for each
   device and each of the requests among them.
   */
  lemma {:induction false} RunsTerminate(devices: seq<Addresses>, pending: seq<Delivery>, events: seq<Event>)
    requires ValidDeliveries(devices, pending) && IsRun(devices, pending, events)
    ensures |events| + |Final(devices, pending, events)| <= |pending| + |devices| * Answers(devices, pending, events)
    ensures |events| <= |pending| + |devices| * Requests(devices, pending)
    decreases |events|
  {
    RequestsConserved(devices, pending, events);
    if |events| > 0 {
      EventAccounting(devices, pending, events[0]);
      var next := Next(devices, pending, events[0]);
      RunsTerminate(devices, next, events[1..]);
      OneMoreEvent(|devices|, |events| - 1 + |Final(devices, pending, events)|, |pending|, |next|,
                   Answers(devices, next, events[1..]), Answers(devices, pending, events));
    }
    MulMonotone(|devices|, Answers(devices, pending, events), Requests(devices, pending));
  }

  lemma MulMonotone(n: nat, a: nat, b: nat)
    requires a <= b
    ensures n * a <= n * b
  {
  }

  lemma OneMoreEvent(n: nat, total: nat, before: nat, after: nat, answersAfter: nat, answers: nat)
    requires total <= after + n * answersAfter
    requires || (answers == answersAfter && after + 1 == before)
             || (answers == answersAfter + 1 && after + 1 <= before + n)
    ensures total + 1 <= before + n * answers
  {
    assert n * (answersAfter + 1) == n * answersAfter + n;
  }

  /** A frame that two devices answer is for both their IP addresses: with distinct addresses there is one answer. */
  lemma OneResponder(a: Addresses, b: Addresses, frame: seq<byte>)
    requires Respond(a, frame).Sent? && Respond(b, frame).Sent?
    ensures a.ip4 == b.ip4
  {
    DeviceTheorems.AnsweredFrames(a, frame);
    DeviceTheorems.AnsweredFrames(b, frame);
  }
}
