/**
 All runs of any number of adapters that share one io_context: bytes arrive in any chunks, reads take
 any part of what has arrived, handlers of different adapters interleave in any order, and reads fail
 at any time. A stopped io_context runs no further handlers.
 */
module AdapterRuns {
  import opened Bytes
  import opened Framing
  import opened Adapter

  datatype World = World(links: seq<Link>, host: HostState)

  datatype Action =
    | Arrive(i: nat, chunk: seq<byte>)   // the operating system receives bytes for an open socket
    | ReadSome(i: nat, n: nat)           // the read under way takes some of them
    | Complete(i: nat)                   // the read has all it wants, and its handler runs
    | Fail(i: nat)                       // the read ends early with an error, and its handler runs
    | StopHost                           // the process is asked to exit

  predicate Enabled(w: World, a: Action) {
    match a
    case Arrive(i, chunk) => i < |w.links| && w.links[i].open
    case ReadSome(i, n) =>
      && i < |w.links| && w.host.stopped.None? && w.links[i].open
      && 0 < n <= |w.links[i].inbox| && w.links[i].received + n <= w.links[i].Wanted()
    case Complete(i) => i < |w.links| && w.host.stopped.None? && w.links[i].received == w.links[i].Wanted()
    case Fail(i) => i < |w.links| && w.host.stopped.None? && w.links[i].received < w.links[i].Wanted()
    case StopHost => true
  }

  predicate ValidLinks(w: World) {
    forall i :: 0 <= i < |w.links| ==> w.links[i].Valid()
  }

  function RunHandler(w: World, i: nat, failed: bool): World
    requires ValidLinks(w) && i < |w.links|
  {
    var (l, h) := if w.links[i].phase.ReadSize? then AfterSize(i, w.links[i], w.host, failed)
                  else AfterBody(i, w.links[i], w.host, failed);
    World(w.links[i := l], h)
  }

  function Next(w: World, a: Action): World
    requires ValidLinks(w) && Enabled(w, a)
  {
    match a
    case Arrive(i, chunk) => w.(links := w.links[i := AfterArrival(w.links[i], chunk)])
    case ReadSome(i, n) => w.(links := w.links[i := AfterReadSome(w.links[i], n)])
    case Complete(i) => RunHandler(w, i, false)
    case Fail(i) => RunHandler(w, i, true)
    case StopHost => if w.host.stopped.None? then w.(host := w.host.(stopped := Some(StoppedFromOutside))) else w
  }

  // ---------------------------------------------------------------------------------------------
  // The invariant of all runs

  /** The frames an adapter sent. */
  function SentBy(log: seq<SentFrame>, i: nat): seq<seq<byte>> {
    if |log| == 0 then []
    else SentBy(log[..|log| - 1], i) + if log[|log| - 1].adapter == i then [log[|log| - 1].frame] else []
  }

  /** What a link has received and not handed on: the buffers as far as they are filled, and the inbox. */
  function Pending(l: Link): seq<byte>
    requires l.Valid()
    requires l.phase.ReadBody? ==> l.phase.frameSize <= MAX_FRAME
  {
    match l.phase
    case ReadSize => l.sizeBuffer[..l.received] + l.inbox
    case ReadBody(_) => l.sizeBuffer + l.dataBuffer[..l.received] + l.inbox
  }

  /** What was handed on consists of complete frames, and these are the frames sent. */
  predicate Delivered(l: Link, sent: seq<seq<byte>>) {
    l.delivered <= |l.arrived| && Whole(l.arrived[..l.delivered]) && Frames(l.arrived[..l.delivered]) == sent
  }

  /** What the frames handed on so far left in the receive buffer. */
  function Stale(l: Link): (s: seq<byte>)
    requires l.delivered <= |l.arrived|
    ensures |s| == MAX_FRAME
  {
    Overlay(Zeros(MAX_FRAME), l.arrived[..l.delivered])
  }

  /**
   While the io_context runs, nothing that arrived is lost, and the receive buffer is stale where it is
   not filled.
   */
  predicate Running(l: Link)
    requires l.Valid()
  {
    && l.open
    && (l.phase.ReadBody? ==> SizeField(l.sizeBuffer) == l.phase.frameSize)
    && l.delivered <= |l.arrived| && Pending(l) == l.arrived[l.delivered..]
    && var filled := if l.phase.ReadBody? then l.received else 0;
       l.dataBuffer[filled..] == Stale(l)[filled..]
  }

  /** The log without the frame that was sent after a failed body read. */
  function BeforeStop(h: HostState): seq<SentFrame> {
    if h.stopped.Some? && h.stopped.value.BodyReadFailed? && |h.log| > 0 then h.log[..|h.log| - 1] else h.log
  }

  /** The bytes of the stream that were read, but not handed on. */
  function Unfinished(l: Link): seq<byte>
    requires l.delivered + |l.inbox| <= |l.arrived|
  {
    l.arrived[l.delivered..|l.arrived| - |l.inbox|]
  }

  /** The part of the unfinished body that was read, continued with what earlier frames left in the buffer. */
  function LateFrame(l: Link, received: nat, size: nat): seq<byte>
    requires l.delivered + |l.inbox| <= |l.arrived| && |Unfinished(l)| >= 4 && received <= size <= MAX_FRAME
  {
    Pad(Unfinished(l)[4..] + Stale(l)[received..size])
  }

  /** What is known of the adapter that stopped the io_context. */
  predicate StoppedBy(w: World, cause: Cause) {
    match cause
    case SizeReadFailed(i) =>
      i < |w.links| && !w.links[i].open && w.links[i].delivered + |w.links[i].inbox| <= |w.links[i].arrived|
      && |Unfinished(w.links[i])| < 4
    case FrameTooLarge(i) =>
      && i < |w.links| && !w.links[i].open && w.links[i].delivered + |w.links[i].inbox| <= |w.links[i].arrived|
      && |Unfinished(w.links[i])| == 4 && SizeField(Unfinished(w.links[i])) > MAX_FRAME
    case BodyReadFailed(i, size, received) =>
      && i < |w.links| && !w.links[i].open && w.links[i].delivered + |w.links[i].inbox| <= |w.links[i].arrived|
      && received < size <= MAX_FRAME
      && |Unfinished(w.links[i])| == 4 + received && SizeField(Unfinished(w.links[i])) == size
      && |w.host.log| > 0 && w.host.log[|w.host.log| - 1].adapter == i
      && w.host.log[|w.host.log| - 1].frame == LateFrame(w.links[i], received, size)
    case StoppedFromOutside => true
  }

  predicate Numbered(h: HostState) {
    h.transmitId == |h.log| && forall k :: 0 <= k < |h.log| ==> h.log[k].transmitId == k + 1
  }

  predicate Inv(w: World) {
    && ValidLinks(w)
    && Numbered(w.host)
    && (forall i :: 0 <= i < |w.links| ==> Delivered(w.links[i], SentBy(BeforeStop(w.host), i)))
    && (w.host.stopped.None? ==> forall i :: 0 <= i < |w.links| ==> Running(w.links[i]))
    && (w.host.stopped.Some? ==> StoppedBy(w, w.host.stopped.value))
  }

  /** `n` adapters that have connected. */
  function Start(n: nat): (w: World)
    ensures Inv(w) && |w.links| == n
  {
    World(seq(n, _ => Link(ReadSize, 0, Zeros(4), Zeros(MAX_FRAME), true, [], [], 0)), HostState(None, 0, []))
  }

  // one lemma for each kind of step

  lemma ArriveInv(w: World, i: nat, chunk: seq<byte>)
    requires Inv(w) && Enabled(w, Arrive(i, chunk))
    ensures Inv(Next(w, Arrive(i, chunk)))
  {
    ArriveLink(w.links[i], chunk, SentBy(BeforeStop(w.host), i));
  }

  lemma ArriveLink(l: Link, chunk: seq<byte>, sent: seq<seq<byte>>)
    requires l.Valid() && Delivered(l, sent)
    ensures var l' := AfterArrival(l, chunk);
            l'.Valid() && Delivered(l', sent) && (Running(l) ==> Running(l'))
            && (l.delivered + |l.inbox| <= |l.arrived| ==> Unfinished(l') == Unfinished(l))
  {
    var l' := AfterArrival(l, chunk);
    assert l'.arrived[..l.delivered] == l.arrived[..l.delivered];
    assert l'.arrived[l.delivered..] == l.arrived[l.delivered..] + chunk;
    assert Running(l) ==> Pending(l') == Pending(l) + chunk;
  }

  /** Bytes that are read stay pending. */
  lemma ReadSomePending(l: Link, n: nat)
    requires l.Valid() && l.open && n <= |l.inbox| && l.received + n <= l.Wanted()
    ensures var l' := AfterReadSome(l, n);
            l'.Valid() && Pending(l') == Pending(l)
    ensures l.phase.ReadBody? ==> AfterReadSome(l, n).sizeBuffer == l.sizeBuffer
  {
    var l' := AfterReadSome(l, n);
    if l.phase.ReadSize? {
      assert l'.sizeBuffer[..l'.received] == l.sizeBuffer[..l.received] + l.inbox[..n];
    } else {
      assert l'.dataBuffer[..l'.received] == l.dataBuffer[..l.received] + l.inbox[..n];
    }
  }

  lemma ReadSomeInv(w: World, i: nat, n: nat)
    requires Inv(w) && Enabled(w, ReadSome(i, n))
    ensures Inv(Next(w, ReadSome(i, n)))
  {
    ReadSomePending(w.links[i], n);
  }

  /** The bytes of a running link, split at the end of the frame that is being read. */
  lemma RunningSplit(l: Link)
    requires l.Valid() && Running(l)
    ensures l.delivered + |l.inbox| <= |l.arrived|
    ensures l.phase.ReadSize? ==> Unfinished(l) == l.sizeBuffer[..l.received]
    ensures l.phase.ReadBody? ==> Unfinished(l) == l.sizeBuffer + l.dataBuffer[..l.received]
    ensures l.phase.ReadBody? ==>
              SizeField(Unfinished(l)) == l.phase.frameSize && Unfinished(l)[4..] == l.dataBuffer[..l.received]
  {
    var tail := l.arrived[l.delivered..];
    assert Unfinished(l) == tail[..|tail| - |l.inbox|];
    if l.phase.ReadBody? {
      assert Unfinished(l)[..4] == l.sizeBuffer == l.sizeBuffer[..4];
    }
  }

  lemma CompleteSizeInv(w: World, i: nat)
    requires Inv(w) && Enabled(w, Complete(i)) && w.links[i].phase.ReadSize?
    ensures Inv(Next(w, Complete(i)))
  {
    var l := w.links[i];
    if SizeField(l.sizeBuffer) <= MAX_FRAME {
      SizeAcceptedInv(l, SentBy(w.host.log, i));
    } else {
      RunningSplit(l);
      assert l.sizeBuffer[..4] == l.sizeBuffer;
    }
  }

  lemma SizeAcceptedInv(l: Link, sent: seq<seq<byte>>)
    requires l.Valid() && Running(l) && Delivered(l, sent) && l.phase.ReadSize? && l.received == 4
    requires SizeField(l.sizeBuffer) <= MAX_FRAME
    ensures var l' := l.(phase := ReadBody(SizeField(l.sizeBuffer)), received := 0);
            l'.Valid() && Running(l') && Delivered(l', sent)
  {
    var l' := l.(phase := ReadBody(SizeField(l.sizeBuffer)), received := 0);
    assert Pending(l') == Pending(l) by { NothingRead(l.sizeBuffer, l.dataBuffer, l.inbox); }
  }

  lemma NothingRead(size: seq<byte>, data: seq<byte>, inbox: seq<byte>)
    requires |size| == 4
    ensures size + data[..0] + inbox == size[..4] + inbox
  {
  }

  /** Handing on a complete body extends the delivered bytes by one frame. */
  lemma DeliverOne(l: Link, sent: seq<seq<byte>>)
    requires l.Valid() && Running(l) && Delivered(l, sent) && l.phase.ReadBody? && l.received == l.phase.frameSize
    ensures l.delivered + 4 + l.phase.frameSize <= |l.arrived|
    ensures var l' := l.(phase := ReadSize, received := 0, delivered := l.delivered + 4 + l.phase.frameSize);
            Running(l') && Delivered(l', sent + [Pad(l.dataBuffer[..l.phase.frameSize])])
  {
    var end := l.delivered + 4 + l.phase.frameSize;
    assert l.delivered + |l.inbox| <= |l.arrived| by { RunningSplit(l); }
    var one := Unfinished(l);
    FrameBoundary(l, one, end);
    HandOver(l, sent, one, end);
  }

  lemma HandOver(l: Link, sent: seq<seq<byte>>, one: seq<byte>, end: nat)
    requires l.Valid() && l.open && Delivered(l, sent)
    requires l.phase.ReadBody? && l.received == l.phase.frameSize <= MAX_FRAME
    requires end == l.delivered + |one| <= |l.arrived| && l.inbox == l.arrived[end..]
    requires l.arrived[..end] == l.arrived[..l.delivered] + one
    requires |one| == 4 + l.received && SizeField(one) == l.received && one[4..] == l.dataBuffer[..l.received]
    requires l.dataBuffer[l.received..] == Stale(l)[l.received..]
    ensures Running(l.(phase := ReadSize, received := 0, delivered := end))
    ensures Delivered(l.(phase := ReadSize, received := 0, delivered := end), sent + [Pad(one[4..])])
  {
    OneMoreDelivered(l, sent, one, end);
    StaleAfterOne(l, one, end);
    NextReadRuns(l, end);
  }

  /** The next read starts with nothing read. */
  lemma NextReadRuns(l: Link, end: nat)
    requires l.Valid() && l.open && end <= |l.arrived| && l.inbox == l.arrived[end..]
    requires Overlay(Zeros(MAX_FRAME), l.arrived[..end]) == l.dataBuffer
    ensures Running(l.(phase := ReadSize, received := 0, delivered := end))
  {
  }

  lemma OneMoreDelivered(l: Link, sent: seq<seq<byte>>, one: seq<byte>, end: nat)
    requires Delivered(l, sent) && end == l.delivered + |one| <= |l.arrived|
    requires l.arrived[..end] == l.arrived[..l.delivered] + one
    requires |one| >= 4 && |one| == 4 + SizeField(one) && SizeField(one) <= MAX_FRAME
    ensures Whole(l.arrived[..end]) && Frames(l.arrived[..end]) == sent + [Pad(one[4..])]
  {
    OneFrame(one);
    assert one[4..4 + SizeField(one)] == one[4..];
    FramesAppend(l.arrived[..l.delivered], one);
  }

  /** Where the stream stands when a body is complete. */
  lemma FrameBoundary(l: Link, one: seq<byte>, end: nat)
    requires l.Valid() && Running(l) && l.phase.ReadBody? && l.received == l.phase.frameSize
    requires end == l.delivered + 4 + l.received && l.delivered + |l.inbox| <= |l.arrived| && one == Unfinished(l)
    ensures end == l.delivered + |one| <= |l.arrived| && l.inbox == l.arrived[end..]
    ensures l.arrived[..end] == l.arrived[..l.delivered] + one
    ensures |one| == 4 + l.received && SizeField(one) == l.received <= MAX_FRAME
    ensures one[4..] == l.dataBuffer[..l.received]
  {
    RunningSplit(l);
    assert l.arrived[l.delivered..] == one + l.inbox;
    SplitAt(l.arrived, l.delivered, one, l.inbox);
  }

  lemma SplitAt(stream: seq<byte>, at: nat, one: seq<byte>, rest: seq<byte>)
    requires at <= |stream| && stream[at..] == one + rest
    ensures at + |one| <= |stream| && rest == stream[at + |one|..] && stream[..at + |one|] == stream[..at] + one
  {
    assert stream == stream[..at] + stream[at..];
    assert stream == stream[..at] + one + rest;
  }

  /** The body that was handed on is what the buffer holds in front, and the rest is as stale as before. */
  lemma StaleAfterOne(l: Link, one: seq<byte>, end: nat)
    requires l.Valid() && l.phase.ReadBody? && l.received == l.phase.frameSize <= MAX_FRAME
    requires end == l.delivered + |one| <= |l.arrived| && Whole(l.arrived[..l.delivered])
    requires |one| == 4 + l.received && SizeField(one) == l.received && one[4..] == l.dataBuffer[..l.received]
    requires l.arrived[..end] == l.arrived[..l.delivered] + one
    requires l.dataBuffer[l.received..] == Stale(l)[l.received..]
    ensures Overlay(Zeros(MAX_FRAME), l.arrived[..end]) == l.dataBuffer
  {
    OverlayAppend(Zeros(MAX_FRAME), l.arrived[..l.delivered], one);
    OverlayOne(Stale(l), one);
    assert one[4..4 + l.received] == one[4..];
    assert Overwrite(Stale(l), 0, one[4..]) == l.dataBuffer[..l.received] + Stale(l)[l.received..];
    assert l.dataBuffer == l.dataBuffer[..l.received] + l.dataBuffer[l.received..];
  }

  lemma OverlayOne(buffer: seq<byte>, one: seq<byte>)
    requires |buffer| == MAX_FRAME && |one| >= 4 && |one| == 4 + SizeField(one) && SizeField(one) <= MAX_FRAME
    ensures Overlay(buffer, one) == Overwrite(buffer, 0, one[4..4 + SizeField(one)])
  {
    assert one[4 + SizeField(one)..] == [];
  }

  lemma OneFrame(one: seq<byte>)
    requires |one| >= 4 && |one| == 4 + SizeField(one) && SizeField(one) <= MAX_FRAME
    ensures Whole(one) && Frames(one) == [Pad(one[4..4 + SizeField(one)])]
  {
    assert one[4 + SizeField(one)..] == [];
    assert Frames([]) == [];
  }

  lemma SentByAppend(log: seq<SentFrame>, f: SentFrame, i: nat)
    ensures SentBy(log + [f], i) == SentBy(log, i) + if f.adapter == i then [f.frame] else []
  {
    assert (log + [f])[..|log|] == log;
  }

  /** The handler of a complete body hands on exactly what was read. */
  lemma CompleteBodyEffect(w: World, i: nat)
    requires ValidLinks(w) && Enabled(w, Complete(i)) && w.links[i].phase.ReadBody? && w.links[i].open
    ensures var l, h := w.links[i], w.host;
            var size := l.phase.frameSize;
            Next(w, Complete(i)) == World(
              w.links[i := l.(phase := ReadSize, received := 0, delivered := l.delivered + 4 + size)],
              HostState(None, h.transmitId + 1, h.log + [SentFrame(i, h.transmitId + 1, Pad(l.dataBuffer[..size]))]))
  {
    assert FrameData(w.links[i].dataBuffer, w.links[i].phase.frameSize)
           == w.links[i].dataBuffer[..w.links[i].phase.frameSize];
  }

  /** A step of one adapter that keeps the io_context running. */
  lemma StepInv(w: World, i: nat, l: Link, h: HostState)
    requires Inv(w) && i < |w.links| && w.host.stopped.None? && h.stopped.None? && Numbered(h)
    requires l.Valid() && Running(l) && Delivered(l, SentBy(h.log, i))
    requires forall j :: 0 <= j < |w.links| && j != i ==> SentBy(h.log, j) == SentBy(w.host.log, j)
    ensures Inv(World(w.links[i := l], h))
  {
  }

  /** A step of one adapter that stops the io_context. */
  lemma StopInv(w: World, i: nat, l: Link, h: HostState)
    requires Inv(w) && i < |w.links| && w.host.stopped.None? && h.stopped.Some? && Numbered(h)
    requires l.Valid() && l.arrived == w.links[i].arrived && l.delivered == w.links[i].delivered
             && BeforeStop(h) == w.host.log
    requires StoppedBy(World(w.links[i := l], h), h.stopped.value)
    ensures Inv(World(w.links[i := l], h))
  {
  }

  lemma CompleteBodyInv(w: World, i: nat)
    requires Inv(w) && Enabled(w, Complete(i)) && w.links[i].phase.ReadBody?
    ensures Inv(Next(w, Complete(i)))
  {
    CompleteBodyEffect(w, i);
    DeliverOne(w.links[i], SentBy(w.host.log, i));
    var w' := Next(w, Complete(i));
    var f := w'.host.log[|w'.host.log| - 1];
    forall j | 0 <= j < |w.links|
      ensures SentBy(w'.host.log, j) == SentBy(w.host.log, j) + if i == j then [f.frame] else []
    {
      SentByAppend(w.host.log, f, j);
    }
    StepInv(w, i, w'.links[i], w'.host);
  }

  lemma FailSizeInv(w: World, i: nat)
    requires Inv(w) && Enabled(w, Fail(i)) && w.links[i].phase.ReadSize?
    ensures Inv(Next(w, Fail(i)))
  {
    var l := w.links[i];
    RunningSplit(l);
    var (l', h') := AfterSize(i, l, w.host, true);
    assert Unfinished(l') == Unfinished(l);
    StopInv(w, i, l', h');
  }

  /** What is copied out of the buffer for an unfinished body. */
  lemma LateData(l: Link)
    requires l.Valid() && Running(l) && l.phase.ReadBody?
    ensures l.delivered + |l.inbox| <= |l.arrived|
    ensures |Unfinished(l)| == 4 + l.received && SizeField(Unfinished(l)) == l.phase.frameSize
    ensures FrameData(l.dataBuffer, l.phase.frameSize) == Unfinished(l)[4..] + Stale(l)[l.received..l.phase.frameSize]
  {
    var size := l.phase.frameSize;
    RunningSplit(l);
    assert l.dataBuffer[..size] == l.dataBuffer[..l.received] + l.dataBuffer[l.received..][..size - l.received];
    assert Stale(l)[l.received..size] == Stale(l)[l.received..][..size - l.received];
  }

  lemma FailBodyInv(w: World, i: nat)
    requires Inv(w) && Enabled(w, Fail(i)) && w.links[i].phase.ReadBody?
    ensures Inv(Next(w, Fail(i)))
    ensures StoppedBy(Next(w, Fail(i)), BodyReadFailed(i, w.links[i].phase.frameSize, w.links[i].received))
  {
    var l := w.links[i];
    LateData(l);
    var (l', h') := AfterBody(i, l, w.host, true);
    assert Unfinished(l') == Unfinished(l) && Stale(l') == Stale(l);
    assert BeforeStop(h') == w.host.log;
    StopInv(w, i, l', h');
  }

  lemma NextInv(w: World, a: Action)
    requires Inv(w) && Enabled(w, a)
    ensures Inv(Next(w, a))
  {
    match a
    case Arrive(i, chunk) => ArriveInv(w, i, chunk);
    case ReadSome(i, n) => ReadSomeInv(w, i, n);
    case Complete(i) => if w.links[i].phase.ReadSize? { CompleteSizeInv(w, i); } else { CompleteBodyInv(w, i); }
    case Fail(i) => if w.links[i].phase.ReadSize? { FailSizeInv(w, i); } else { FailBodyInv(w, i); }
    case StopHost =>
  }

  // ---------------------------------------------------------------------------------------------
  // Runs

  predicate IsRun(w: World, actions: seq<Action>)
    requires Inv(w)
    decreases |actions|
  {
    |actions| == 0 || (Enabled(w, actions[0]) && (NextInv(w, actions[0]); IsRun(Next(w, actions[0]), actions[1..])))
  }

  function Final(w: World, actions: seq<Action>): World
    requires Inv(w) && IsRun(w, actions)
    decreases |actions|
  {
    if |actions| == 0 then w else NextInv(w, actions[0]); Final(Next(w, actions[0]), actions[1..])
  }

  /** The invariant holds after every run. */
  lemma {:induction false} RunInv(w: World, actions: seq<Action>)
    requires Inv(w) && IsRun(w, actions)
    ensures Inv(Final(w, actions)) && |Final(w, actions).links| == |w.links|
    decreases |actions|
  {
    if |actions| > 0 {
      NextInv(w, actions[0]);
      RunInv(Next(w, actions[0]), actions[1..]);
    }
  }

  /** A run from one state to another. */
  ghost predicate Leads(w: World, run: seq<Action>, w': World) {
    Inv(w) && IsRun(w, run) && Final(w, run) == w'
  }

  lemma LeadsFirst(w: World, a: Action, run: seq<Action>, w': World)
    requires Inv(w) && Enabled(w, a)
    ensures Leads(w, [a] + run, w') <==> Leads(Next(w, a), run, w')
  {
    assert ([a] + run)[1..] == run;
    NextInv(w, a);
  }

  lemma FirstAction(a: seq<Action>, b: seq<Action>) returns (first: Action, others: seq<Action>)
    requires |a| > 0
    ensures first == a[0] && a == [first] + others && a + b == [first] + (others + b) && |others| < |a|
  {
    first, others := a[0], a[1..];
  }

  lemma {:induction false} RunsAppend(w: World, a: seq<Action>, w': World, b: seq<Action>, w'': World)
    requires Leads(w, a, w') && Leads(w', b, w'')
    ensures Leads(w, a + b, w'')
    decreases |a|
  {
    if |a| == 0 {
      assert a + b == b;
    } else {
      var first, others := FirstAction(a, b);
      LeadsFirst(w, first, others, w');
      RunsAppend(Next(w, first), others, w', b, w'');
      LeadsFirst(w, first, others + b, w'');
    }
  }

  /** The bytes that arrive for an adapter in a run, in the order of their arrival. */
  function Received(run: seq<Action>, i: nat): seq<byte> {
    if |run| == 0 then [] else (if run[0].Arrive? && run[0].i == i then run[0].chunk else []) + Received(run[1..], i)
  }

  /** Exactly these bytes have arrived for an adapter between two states. */
  predicate Grew(w: World, w': World, i: nat, bytes: seq<byte>) {
    |w'.links| == |w.links| && (i < |w.links| ==> w'.links[i].arrived == w.links[i].arrived + bytes)
  }

  lemma GrewTwice(w: World, w': World, w'': World, i: nat, a: seq<byte>, b: seq<byte>)
    requires Grew(w, w', i, a) && Grew(w', w'', i, b)
    ensures Grew(w, w'', i, a + b)
  {
  }

  /** Whatever else happens, the stream of an adapter is what had arrived for it and what arrives in the run. */
  lemma {:induction false} ArrivedIsReceived(w: World, run: seq<Action>, i: nat)
    requires Inv(w) && IsRun(w, run)
    ensures Grew(w, Final(w, run), i, Received(run, i))
    decreases |run|
  {
    if |run| > 0 {
      var w' := Next(w, run[0]);
      NextInv(w, run[0]);
      ArrivedInStep(w, run[0], i);
      ArrivedIsReceived(w', run[1..], i);
      GrewTwice(w, w', Final(w', run[1..]), i, if run[0].Arrive? && run[0].i == i then run[0].chunk else [],
                Received(run[1..], i));
    }
  }

  lemma ArrivedInStep(w: World, a: Action, i: nat)
    requires ValidLinks(w) && Enabled(w, a)
    ensures Grew(w, Next(w, a), i, if a.Arrive? && a.i == i then a.chunk else [])
  {
  }

  // ---------------------------------------------------------------------------------------------
  // What is sent does not depend on the chunks

  /** Nothing is left to do for an adapter: it waits for bytes that have not arrived, or its stream has ended. */
  ghost predicate Settled(w: World, i: nat)
    requires i < |w.links|
  {
    match w.host.stopped
    case None => !Enabled(w, Complete(i)) && forall n: nat :: !Enabled(w, ReadSome(i, n))
    case Some(SizeReadFailed(j)) => j == i && w.links[i].inbox == []
    case Some(FrameTooLarge(j)) => j == i
    case Some(BodyReadFailed(j, _, _)) => j == i && w.links[i].inbox == []
    case Some(StoppedFromOutside) => false
  }

  lemma DeliveredPrefix(l: Link, sent: seq<seq<byte>>)
    requires Delivered(l, sent)
    ensures Frames(l.arrived) == sent + Frames(l.arrived[l.delivered..])
  {
    assert l.arrived == l.arrived[..l.delivered] + l.arrived[l.delivered..];
    FramesAppend(l.arrived[..l.delivered], l.arrived[l.delivered..]);
  }

  /** At any time, the frames sent before the stop are the first of those the stream decodes to. */
  lemma SentIsPrefix(w: World, i: nat)
    requires Inv(w) && i < |w.links|
    ensures SentBy(BeforeStop(w.host), i) <= Frames(w.links[i].arrived)
  {
    DeliveredPrefix(w.links[i], SentBy(BeforeStop(w.host), i));
  }

  /** Once an adapter is settled, the frames it sent before the stop are exactly those its stream decodes to. */
  lemma SettledIsDecoded(w: World, i: nat)
    requires Inv(w) && i < |w.links| && Settled(w, i)
    ensures SentBy(BeforeStop(w.host), i) == Frames(w.links[i].arrived)
  {
    DeliveredPrefix(w.links[i], SentBy(BeforeStop(w.host), i));
    SettledIsBlocked(w, i);
  }

  /** What a settled adapter has not handed on does not begin with an acceptable frame. */
  lemma SettledIsBlocked(w: World, i: nat)
    requires Inv(w) && i < |w.links| && Settled(w, i)
    ensures w.links[i].delivered + |w.links[i].inbox| <= |w.links[i].arrived|
    ensures Blocked(w.links[i].arrived[w.links[i].delivered..])
  {
    var l := w.links[i];
    match w.host.stopped {
      case None =>
        RunningSplit(l);
        assert !Enabled(w, ReadSome(i, 1));
        assert l.received < l.Wanted() && l.inbox == [];
        assert Unfinished(l) == l.arrived[l.delivered..];
      case Some(FrameTooLarge(_)) =>
        assert l.arrived[l.delivered..][..4] == Unfinished(l) == Unfinished(l)[..4];
      case Some(SizeReadFailed(_)) =>
        assert Unfinished(l) == l.arrived[l.delivered..];
      case Some(BodyReadFailed(_, _, _)) =>
        assert Unfinished(l) == l.arrived[l.delivered..];
      case Some(StoppedFromOutside) =>
    }
  }

  /**
   The connection can be lost whenever an adapter waits with everything read. It has then sent all frames of
   its stream, too.
   */
  lemma LostConnection(w: World, i: nat)
    requires Inv(w) && i < |w.links| && w.host.stopped.None? && Settled(w, i)
    ensures Enabled(w, Fail(i)) && Inv(Next(w, Fail(i))) && |Next(w, Fail(i)).links| == |w.links|
    ensures Settled(Next(w, Fail(i)), i)
    ensures SentBy(BeforeStop(Next(w, Fail(i)).host), i) == Frames(w.links[i].arrived)
  {
    WaitingFails(w, i);
    var w' := Next(w, Fail(i));
    assert Inv(w') by { NextInv(w, Fail(i)); }
    assert w'.links[i].arrived == w.links[i].arrived by { ArrivedInStep(w, Fail(i), i); }
    SettledIsDecoded(w', i);
  }

  lemma WaitingFails(w: World, i: nat)
    requires Inv(w) && i < |w.links| && w.host.stopped.None? && Settled(w, i)
    ensures Enabled(w, Fail(i)) && |Next(w, Fail(i)).links| == |w.links| && Settled(Next(w, Fail(i)), i)
  {
    RunningSplit(w.links[i]);
    assert !Enabled(w, ReadSome(i, 1));
    assert w.links[i].inbox == [];
    if w.links[i].phase.ReadSize? {
      NoSecondStop(i, w.links[i], w.host);
    }
  }

  /** The cause stays that of the read, whatever the buffer holds in place of a length. */
  lemma NoSecondStop(i: nat, l: Link, h: HostState)
    requires |l.sizeBuffer| == 4 && h.stopped.None?
    ensures var (l', h') := AfterSize(i, l, h, true);
            l'.inbox == l.inbox && h'.stopped == Some(SizeReadFailed(i))
  {
  }

  /**
   The frames an adapter sent before the stop are the first of those that the bytes decode to that arrived for
   it, and all of them once it is settled.
   */
  lemma StreamIsDecoded(n: nat, run: seq<Action>, i: nat)
    requires IsRun(Start(n), run) && i < n
    ensures |Final(Start(n), run).links| == n
    ensures SentBy(BeforeStop(Final(Start(n), run).host), i) <= Frames(Received(run, i))
    ensures Settled(Final(Start(n), run), i) ==>
              SentBy(BeforeStop(Final(Start(n), run).host), i) == Frames(Received(run, i))
  {
    var last := Final(Start(n), run);
    RunInv(Start(n), run);
    ArrivedIsReceived(Start(n), run, i);
    assert last.links[i].arrived == Received(run, i);
    SentIsPrefix(last, i);
    if Settled(last, i) {
      SettledIsDecoded(last, i);
    }
  }

  /** Nothing has arrived yet, as at the start. */
  predicate NothingArrived(w: World) {
    Inv(w) && forall i :: 0 <= i < |w.links| ==> w.links[i].arrived == []
  }

  lemma StartIsEmpty(n: nat)
    ensures NothingArrived(Start(n))
  {
  }

  /**
   Two adapters in any two runs for which the same bytes arrived, in whatever chunks and with whatever
   interleaving, have sent the same frames before the stop once they are settled.
   */
  lemma ChunksDoNotMatter(w1: World, run1: seq<Action>, i1: nat, w2: World, run2: seq<Action>, i2: nat)
    requires NothingArrived(w1) && IsRun(w1, run1) && i1 < |w1.links| && EndsSettled(w1, run1, i1)
    requires NothingArrived(w2) && IsRun(w2, run2) && i2 < |w2.links| && EndsSettled(w2, run2, i2)
    requires Received(run1, i1) == Received(run2, i2)
    ensures SentBy(BeforeStop(Final(w1, run1).host), i1) == SentBy(BeforeStop(Final(w2, run2).host), i2)
  {
    SettledRun(w1, run1, i1);
    SettledRun(w2, run2, i2);
  }

  ghost predicate EndsSettled(w: World, run: seq<Action>, i: nat)
    requires Inv(w) && IsRun(w, run)
  {
    i < |Final(w, run).links| && Settled(Final(w, run), i)
  }

  lemma SettledRun(w: World, run: seq<Action>, i: nat)
    requires NothingArrived(w) && IsRun(w, run) && i < |w.links| && EndsSettled(w, run, i)
    ensures SentBy(BeforeStop(Final(w, run).host), i) == Frames(Received(run, i))
  {
    RunInv(w, run);
    ArrivedIsReceived(w, run, i);
    assert [] + Received(run, i) == Received(run, i);
    SettledIsDecoded(Final(w, run), i);
  }

  /**
   When the bytes that were sent for some frames have arrived in a run, none of the frames too large, and
   the adapter is settled and still running, it has sent all of them, padded, and waits for the next length
   with nothing buffered.
   */
  lemma FramesGoThrough(n: nat, run: seq<Action>, i: nat, frames: seq<seq<byte>>)
    requires IsRun(Start(n), run) && i < n
    requires var w := Final(Start(n), run);
             i < |w.links| && w.host.stopped.None? && Settled(w, i)
    requires forall k :: 0 <= k < |frames| ==> |frames[k]| <= MAX_FRAME
    requires Received(run, i) == EncodeAll(frames)
    ensures var w := Final(Start(n), run);
            SentBy(w.host.log, i) == PadAll(frames)
            && w.links[i].phase == ReadSize && w.links[i].received == 0 && w.links[i].inbox == []
  {
    RunInv(Start(n), run);
    ArrivedIsReceived(Start(n), run, i);
    assert [] + Received(run, i) == Received(run, i);
    WholeStreamSent(Final(Start(n), run), i, frames);
  }

  lemma WholeStreamSent(w: World, i: nat, frames: seq<seq<byte>>)
    requires Inv(w) && i < |w.links| && w.host.stopped.None? && Settled(w, i)
    requires forall k :: 0 <= k < |frames| ==> |frames[k]| <= MAX_FRAME
    requires w.links[i].arrived == EncodeAll(frames)
    ensures SentBy(w.host.log, i) == PadAll(frames)
    ensures w.links[i].phase == ReadSize && w.links[i].received == 0 && w.links[i].inbox == []
  {
    var l := w.links[i];
    var tail := l.arrived[l.delivered..];
    SettledIsDecoded(w, i);
    FramingRoundTrip(frames);
    AllAcceptable(frames);
    assert frames[..|frames|] == frames;
    assert l.arrived == l.arrived[..l.delivered] + tail;
    FramesAppend(l.arrived[..l.delivered], tail);
    DeliveredPrefix(l, SentBy(w.host.log, i));
    assert Whole(tail) && Frames(tail) == [];
    assert tail == [] == Pending(l);
  }

  lemma {:induction false} AllAcceptable(frames: seq<seq<byte>>)
    requires forall k :: 0 <= k < |frames| ==> |frames[k]| <= MAX_FRAME
    ensures Acceptable(frames) == |frames|
  {
    if |frames| > 0 {
      AllAcceptable(frames[1..]);
    }
  }

  // ---------------------------------------------------------------------------------------------
  // After the stop

  /** The shared state never changes after the stop: no frame is sent, no cause is replaced. */
  lemma {:induction false} StopIsFinal(w: World, actions: seq<Action>)
    requires Inv(w) && IsRun(w, actions) && w.host.stopped.Some?
    ensures Final(w, actions).host == w.host
    decreases |actions|
  {
    if |actions| > 0 {
      NextInv(w, actions[0]);
      StopIsFinal(Next(w, actions[0]), actions[1..]);
    }
  }

  /** The process can be asked to exit at any time while it runs; no frame is sent from then on. */
  lemma ExitIsFinal(w: World, actions: seq<Action>)
    requires Inv(w) && w.host.stopped.None?
    ensures Enabled(w, StopHost) && Inv(Next(w, StopHost))
    ensures IsRun(Next(w, StopHost), actions) ==>
              Final(Next(w, StopHost), actions).host
              == HostState(Some(StoppedFromOutside), w.host.transmitId, w.host.log)
  {
    NextInv(w, StopHost);
    if IsRun(Next(w, StopHost), actions) {
      StopIsFinal(Next(w, StopHost), actions);
    }
  }

  /** The step that stops the io_context sends a frame exactly when it is the failure of a body read. */
  lemma StoppingStep(w: World, a: Action)
    requires Inv(w) && Enabled(w, a) && w.host.stopped.None? && Next(w, a).host.stopped.Some?
    ensures BeforeStop(Next(w, a).host) == w.host.log
    ensures |Next(w, a).host.log| == |w.host.log| + if Next(w, a).host.stopped.value.BodyReadFailed? then 1 else 0
  {
    NextInv(w, a);
  }

  /** The log at the moment of the stop, or at the end if there was none. */
  function LogAtStop(w: World, actions: seq<Action>): seq<SentFrame>
    requires Inv(w) && IsRun(w, actions)
    decreases |actions|
  {
    if |actions| == 0 || w.host.stopped.Some? then w.host.log
    else
      NextInv(w, actions[0]);
      if Next(w, actions[0]).host.stopped.Some? then w.host.log else LogAtStop(Next(w, actions[0]), actions[1..])
  }

  /**
   Over any run, of any number of adapters: transmit ids are 1, 2, 3 and so on in the order of sending;
   nothing is sent after the first shutdown except at most one frame, by the one adapter whose body
   read failed; and that frame has the announced size, begins with the part of the body that was read
   and ends in bytes of earlier frames.
   */
  lemma {:induction false} RunSafety(w: World, actions: seq<Action>)
    requires Inv(w) && IsRun(w, actions) && w.host.stopped.None?
    ensures var last := Final(w, actions).host;
            Numbered(last) && BeforeStop(last) == LogAtStop(w, actions)
            && match last.stopped
               case Some(BodyReadFailed(i, size, received)) =>
                 StoppedBy(Final(w, actions), BodyReadFailed(i, size, received))
                 && last.log == LogAtStop(w, actions)
                                + [SentFrame(i, |last.log|, LateFrame(Final(w, actions).links[i], received, size))]
               case _ => last.log == LogAtStop(w, actions)
    decreases |actions|
  {
    RunInv(w, actions);
    if |actions| > 0 {
      NextInv(w, actions[0]);
      var w' := Next(w, actions[0]);
      if w'.host.stopped.Some? {
        StoppingStep(w, actions[0]);
        StopIsFinal(w', actions[1..]);
      } else {
        RunSafety(w', actions[1..]);
      }
    }
    LastFrame(Final(w, actions));
  }

  lemma LastFrame(w: World)
    requires Inv(w)
    ensures match w.host.stopped
            case Some(BodyReadFailed(i, size, received)) =>
              StoppedBy(w, BodyReadFailed(i, size, received))
              && w.host.log == BeforeStop(w.host) + [SentFrame(i, |w.host.log|, LateFrame(w.links[i], received, size))]
            case _ => w.host.log == BeforeStop(w.host)
  {
    if w.host.stopped.Some? && w.host.stopped.value.BodyReadFailed? {
      var log := w.host.log;
      assert log == log[..|log| - 1] + [log[|log| - 1]];
    }
  }

  // ---------------------------------------------------------------------------------------------
  // Progress

  /** Bytes not yet read count twice, read ones once, and a body read counts one. */
  function Work(l: Link): nat {
    2 * |l.inbox| + l.received + if l.phase.ReadBody? then 1 else 0
  }

  function TotalWork(links: seq<Link>): nat {
    if |links| == 0 then 0 else Work(links[0]) + TotalWork(links[1..])
  }

  lemma {:induction false} WorkUpdate(links: seq<Link>, i: nat, l: Link)
    requires i < |links|
    ensures TotalWork(links[i := l]) + Work(links[i]) == TotalWork(links) + Work(l)
  {
    if i > 0 {
      assert links[i := l][1..] == links[1..][i - 1 := l];
      WorkUpdate(links[1..], i - 1, l);
    } else {
      assert links[i := l][1..] == links[1..];
    }
  }

  /** Without new bytes there are only so many reads and handlers, whatever their order is. */
  lemma {:induction false} HandlersTerminate(w: World, actions: seq<Action>)
    requires Inv(w) && IsRun(w, actions)
    requires forall k :: 0 <= k < |actions| ==> actions[k].ReadSome? || actions[k].Complete?
    ensures |actions| + TotalWork(Final(w, actions).links) <= TotalWork(w.links)
    decreases |actions|
  {
    if |actions| > 0 {
      NextInv(w, actions[0]);
      WorkDone(w, actions[0]);
      HandlersTerminate(Next(w, actions[0]), actions[1..]);
    }
  }

  lemma WorkDone(w: World, a: Action)
    requires ValidLinks(w) && Enabled(w, a) && (a.ReadSome? || a.Complete?)
    ensures 1 + TotalWork(Next(w, a).links) <= TotalWork(w.links)
  {
    var l' := Next(w, a).links[a.i];
    assert Next(w, a).links == w.links[a.i := l'] && 1 + Work(l') <= Work(w.links[a.i]);
    WorkUpdate(w.links, a.i, l');
  }

  predicate OnlyHandlers(run: seq<Action>) {
    forall k :: 0 <= k < |run| ==> run[k].ReadSome? || run[k].Complete?
  }

  /** Every adapter is settled, or a frame that is too large has stopped the io_context. */
  ghost predicate AtRest(w: World) {
    match w.host.stopped
    case None => forall i :: 0 <= i < |w.links| ==> Settled(w, i)
    case Some(cause) => cause.FrameTooLarge? && cause.adapter < |w.links| && Settled(w, cause.adapter)
  }

  /** The run consists of reads and handlers, and ends at rest. */
  ghost predicate Settles(w: World, run: seq<Action>) {
    Inv(w) && IsRun(w, run) && OnlyHandlers(run) && AtRest(Final(w, run))
  }

  /** From every state in which the io_context runs, some reads and handlers lead to rest. */
  lemma {:induction false} SettlingRun(w: World) returns (run: seq<Action>)
    requires Inv(w) && w.host.stopped.None?
    ensures Settles(w, run)
    decreases TotalWork(w.links)
  {
    run := [];
    if !AtRest(w) {
      var a := WorkLeft(w);
      NextInv(w, a);
      WorkDone(w, a);
      HandlerStops(w, a);
      if Next(w, a).host.stopped.None? {
        run := SettlingRun(Next(w, a));
      }
      Prepend(w, a, run);
      run := [a] + run;
    }
  }

  lemma WorkLeft(w: World) returns (a: Action)
    requires w.host.stopped.None? && !AtRest(w)
    ensures Enabled(w, a) && (a.ReadSome? || a.Complete?)
  {
    var i :| 0 <= i < |w.links| && !Settled(w, i);
    a := Complete(i);
    if !Enabled(w, a) {
      var n: nat :| Enabled(w, ReadSome(i, n));
      a := ReadSome(i, n);
    }
  }

  lemma HandlerStops(w: World, a: Action)
    requires ValidLinks(w) && Enabled(w, a) && (a.ReadSome? || a.Complete?) && w.host.stopped.None?
    ensures Next(w, a).host.stopped.None? || AtRest(Next(w, a))
  {
  }

  lemma Prepend(w: World, a: Action, run: seq<Action>)
    requires Inv(w) && Enabled(w, a) && (a.ReadSome? || a.Complete?) && Settles(Next(w, a), run)
    ensures Settles(w, [a] + run)
  {
    assert ([a] + run)[1..] == run;
  }

  lemma {:induction false} HandlersReceiveNothing(run: seq<Action>, i: nat)
    requires OnlyHandlers(run)
    ensures Received(run, i) == []
  {
    if |run| > 0 {
      assert run[0].ReadSome? || run[0].Complete?;
      HandlersReceiveNothing(run[1..], i);
    }
  }

  /**
   What all adapters have sent is what their streams decode to. If a frame was too large, its adapter has sent
   what comes before it.
   */
  ghost predicate AllSent(n: nat, run: seq<Action>, last: World) {
    && |last.links| == n
    && match last.host.stopped
       case None => forall i :: 0 <= i < n ==> SentBy(last.host.log, i) == Frames(Received(run, i))
       case Some(cause) => && cause.FrameTooLarge? && cause.adapter < n
                           && SentBy(last.host.log, cause.adapter) == Frames(Received(run, cause.adapter))
  }

  /**
   However the chunks of several streams arrive, they all can, and then reads and handlers can send exactly
   what the streams decode to, as long as no frame is too large.
   */
  lemma StreamsDelivered(n: nat, arrivals: seq<Action>) returns (run: seq<Action>)
    requires forall k :: 0 <= k < |arrivals| ==> arrivals[k].Arrive? && arrivals[k].i < n
    ensures OnlyHandlers(run) && IsRun(Start(n), arrivals + run)
    ensures AllSent(n, arrivals + run, Final(Start(n), arrivals + run))
    ensures forall i :: Received(arrivals + run, i) == Received(arrivals, i)
  {
    ArrivalsHappen(Start(n), arrivals);
    var w := Final(Start(n), arrivals);
    run := SettlingRun(w);
    RunsAppend(Start(n), arrivals, w, run, Final(w, run));
    forall i ensures Received(arrivals + run, i) == Received(arrivals, i) {
      HandlersReceiveNothing(run, i);
      ReceivedAppend(arrivals, run, i);
    }
    RestIsAllSent(n, arrivals + run);
  }

  lemma RestIsAllSent(n: nat, run: seq<Action>)
    requires IsRun(Start(n), run) && AtRest(Final(Start(n), run))
    ensures AllSent(n, run, Final(Start(n), run))
  {
    var last := Final(Start(n), run);
    RunInv(Start(n), run);
    forall i | 0 <= i < n && Settled(last, i)
      ensures SentBy(last.host.log, i) == Frames(Received(run, i))
    {
      StreamIsDecoded(n, run, i);
    }
  }

  /** Chunks can arrive for open sockets at any time, in any order. */
  lemma {:induction false} ArrivalsHappen(w: World, arrivals: seq<Action>)
    requires Inv(w) && forall i :: 0 <= i < |w.links| ==> w.links[i].open
    requires forall k :: 0 <= k < |arrivals| ==> arrivals[k].Arrive? && arrivals[k].i < |w.links|
    ensures IsRun(w, arrivals) && Inv(Final(w, arrivals)) && Final(w, arrivals).host == w.host
    decreases |arrivals|
  {
    if |arrivals| > 0 {
      assert arrivals[0].Arrive? && arrivals[0].i < |w.links|;
      NextInv(w, arrivals[0]);
      ArrivalsHappen(Next(w, arrivals[0]), arrivals[1..]);
    }
  }

  lemma {:induction false} ReceivedAppend(a: seq<Action>, b: seq<Action>, i: nat)
    ensures Received(a + b, i) == Received(a, i) + Received(b, i)
  {
    if |a| == 0 {
      assert a + b == b;
    } else {
      assert (a + b)[1..] == a[1..] + b;
      ReceivedAppend(a[1..], b, i);
    }
  }
}
