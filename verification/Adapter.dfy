/**
 The receiving side of `EthSocketToEthControllerAdapter`: asynchronous reads of a length and of a
 frame body into two reused buffers, and the handlers that run when a read ends.
 */
module Adapter {
  import opened Bytes
  import opened BigEndian
  import opened Framing

  /** Which read is under way. */
  datatype Phase = ReadSize | ReadBody(frameSize: u32)

  /** Why the io_context was stopped, as the first shutdown says. */
  datatype Cause =
    | SizeReadFailed(adapter: nat)
    | FrameTooLarge(adapter: nat)
    | BodyReadFailed(adapter: nat, frameSize: nat, received: nat)
    | StoppedFromOutside

  /**
   One adapter. `inbox` is what the operating system has received and no read has taken yet. `arrived`
   and `delivered` are history: everything that ever arrived, and how many of its bytes belong to
   frames that were handed on.
   */
  datatype Link = Link(
    phase: Phase,
    received: nat,
    sizeBuffer: seq<byte>,
    dataBuffer: seq<byte>,
    open: bool,
    inbox: seq<byte>,
    arrived: seq<byte>,
    delivered: nat)
  {
    /** The number of bytes the read under way waits for. */
    function Wanted(): nat {
      if phase.ReadSize? then 4 else phase.frameSize
    }

    predicate Valid() {
      && |sizeBuffer| == 4 && |dataBuffer| == MAX_FRAME
      && received <= Wanted()
      && (open && phase.ReadBody? ==> phase.frameSize <= MAX_FRAME)
    }
  }

  datatype SentFrame = SentFrame(adapter: nat, transmitId: nat, frame: seq<byte>)

  /** What all adapters of the process share: the io_context, the static transmit counter, and the frames sent. */
  datatype HostState = HostState(stopped: Option<Cause>, transmitId: nat, log: seq<SentFrame>)

  // ---------------------------------------------------------------------------------------------
  // The handlers, on values

  /** Closes the socket and stops the io_context. The caller goes on. */
  function ShutDown(l: Link, h: HostState, cause: Cause): (Link, HostState) {
    (l.(open := false), if h.stopped.None? then h.(stopped := Some(cause)) else h)
  }

  /** Pads a frame and sends it with the next transmit id. */
  function NewFrame(id: nat, h: HostState, data: seq<byte>): HostState {
    h.(transmitId := h.transmitId + 1, log := h.log + [SentFrame(id, h.transmitId + 1, Pad(data))])
  }

  /** Copies a frame of the given size out of the receive buffer; what the buffer does not have stays zero. */
  function FrameData(dataBuffer: seq<byte>, size: nat): (data: seq<byte>)
    ensures |data| == size
  {
    Limit(dataBuffer, size) + Zeros(size - |Limit(dataBuffer, size)|)
  }

  function AfterSize(id: nat, l: Link, h: HostState, failed: bool): (Link, HostState)
    requires |l.sizeBuffer| == 4
  {
    var (l1, h1) := if failed then ShutDown(l, h, SizeReadFailed(id)) else (l, h);
    var size := SizeField(l.sizeBuffer);
    var (l2, h2) := if size > MAX_FRAME then ShutDown(l1, h1, FrameTooLarge(id)) else (l1, h1);
    SizeRange(l.sizeBuffer);
    (l2.(phase := ReadBody(size), received := 0), h2)
  }

  function AfterBody(id: nat, l: Link, h: HostState, failed: bool): (Link, HostState)
    requires l.phase.ReadBody?
  {
    var size := l.phase.frameSize;
    var (l1, h1) := if failed then ShutDown(l, h, BodyReadFailed(id, size, l.received)) else (l, h);
    var h2 := NewFrame(id, h1, FrameData(l.dataBuffer, size));
    (l1.(phase := ReadSize, received := 0, delivered := if failed then l.delivered else l.delivered + 4 + size), h2)
  }

  lemma SizeRange(sizeBuffer: seq<byte>)
    requires |sizeBuffer| == 4
    ensures SizeField(sizeBuffer) < TWO_TO_THE_32
  {
    assert sizeBuffer[..4] == sizeBuffer;
    Decode4(sizeBuffer);
  }

  /** One `read_some` of the read under way takes `n` bytes. */
  function AfterReadSome(l: Link, n: nat): Link
    requires l.Valid() && n <= |l.inbox| && l.received + n <= l.Wanted() && l.open
  {
    var taken := l.inbox[..n];
    var l1 := l.(received := l.received + n, inbox := l.inbox[n..]);
    if l.phase.ReadSize? then l1.(sizeBuffer := Overwrite(l.sizeBuffer, l.received, taken))
    else l1.(dataBuffer := Overwrite(l.dataBuffer, l.received, taken))
  }

  function AfterArrival(l: Link, chunk: seq<byte>): Link {
    l.(inbox := l.inbox + chunk, arrived := l.arrived + chunk)
  }

  // ---------------------------------------------------------------------------------------------
  // The code

  class Host {
    var stopped: Option<Cause>
    var transmitId: nat
    var log: seq<SentFrame>

    function State(): HostState
      reads this
    {
      HostState(stopped, transmitId, log)
    }

    constructor ()
      ensures State() == HostState(None, 0, [])
    {
      stopped, transmitId, log := None, 0, [];
    }
  }

  class EthSocketToEthControllerAdapter {
    const id: nat
    const host: Host
    const frameSizeBuffer: array<byte>
    const frameDataBuffer: array<byte>
    var phase: Phase
    var received: nat
    var open: bool
    var inbox: seq<byte>
    var toQemu: seq<byte>  // what was written to the socket
    ghost var arrived: seq<byte>
    ghost var delivered: nat

    ghost function State(): Link
      reads this, frameSizeBuffer, frameDataBuffer
    {
      Link(phase, received, frameSizeBuffer[..], frameDataBuffer[..], open, inbox, arrived, delivered)
    }

    ghost predicate Valid()
      reads this, frameSizeBuffer, frameDataBuffer
    {
      frameSizeBuffer != frameDataBuffer && State().Valid()
    }

    /** Connects and starts the first read. */
    constructor (id: nat, host: Host)
      ensures this.id == id && this.host == host && fresh(frameSizeBuffer) && fresh(frameDataBuffer)
      ensures Valid() && State() == Link(ReadSize, 0, Zeros(4), Zeros(MAX_FRAME), true, [], [], 0)
      ensures toQemu == []
    {
      this.id, this.host := id, host;
      frameSizeBuffer := new byte[4](_ => 0);
      frameDataBuffer := new byte[MAX_FRAME](_ => 0);
      phase, received, open, inbox, toQemu, arrived, delivered := ReadSize, 0, true, [], [], [], 0;
      new;
      assert frameSizeBuffer[..] == Zeros(4) && frameDataBuffer[..] == Zeros(MAX_FRAME);
    }

    /** The bytes of the length, in an array of their own. */
    method FrameSizeBytes(width: nat, size: nat) returns (bytes: array<byte>)
      ensures fresh(bytes) && bytes[..] == EncodeBe(width, size)
    {
      bytes := new byte[width](_ => 0);
      var n := WriteUintBe(Slice(bytes, 0, width), width, size);
    }

    /**
     The two writes of a length and a frame, on a connection that takes `room` more bytes. A write throws when
     it cannot write everything; what the connection took has been written then.
     */
    method SendEthernetFrameToQemu(data: seq<byte>, room: nat) returns (written: bool)
      modifies this`toQemu
      ensures written <==> open && |Encode(data)| <= room
      ensures toQemu == old(toQemu) + if open then Limit(Encode(data), room) else []
    {
      var frameSizeBytes := FrameSizeBytes(4, |data| % TWO_TO_THE_32);
      var left, sizeWritten := WriteSome(frameSizeBytes[..], room);
      if !sizeWritten {
        return false;
      }
      left, written := WriteSome(data, left);
    }

    /** `asio::write`: all bytes, or as many as the connection takes; none on a closed socket. */
    method WriteSome(data: seq<byte>, room: nat) returns (left: nat, written: bool)
      modifies this`toQemu
      ensures written <==> open && |data| <= room
      ensures toQemu == old(toQemu) + if open then Limit(data, room) else []
      ensures written ==> left == room - |data|
    {
      written := open && |data| <= room;
      left := if written then room - |data| else 0;
      if open {
        toQemu := toQemu + Limit(data, room);
      }
    }

    method Arrive(chunk: seq<byte>)
      requires Valid()
      modifies this`inbox, this`arrived
      ensures Valid() && State() == AfterArrival(old(State()), chunk)
    {
      inbox := inbox + chunk;
      arrived := arrived + chunk;
    }

    method ReadSome(n: nat)
      requires Valid() && n <= |inbox| && received + n <= State().Wanted() && open
      modifies this`received, this`inbox, frameSizeBuffer, frameDataBuffer
      ensures Valid() && State() == AfterReadSome(old(State()), n)
    {
      var target := if phase.ReadSize? then frameSizeBuffer else frameDataBuffer;
      var copied := BufferCopy(Slice(target, received, n), inbox[..n]);
      received, inbox := received + n, inbox[n..];
    }

    method ShutdownEthSocketToEthControllerAdapter(cause: Cause)
      modifies this`open, host`stopped
      ensures !open && host.stopped == if old(host.stopped).None? then Some(cause) else old(host.stopped)
    {
      open := false;
      if host.stopped.None? {
        host.stopped := Some(cause);
      }
    }

    method DoReceiveFrameFromQemu()
      modifies this`phase, this`received
      ensures phase == ReadSize && received == 0
    {
      phase, received := ReadSize, 0;
    }

    /** The handler of the size read. It goes on to start the body read after a shutdown. */
    method OnSizeRead(ec: bool)
      requires Valid() && phase.ReadSize?
      modifies this`phase, this`received, this`open, host
      ensures Valid() && (State(), host.State())
              == AfterSize(id, old(State()), old(host.State()), ec || old(received) != 4)
    {
      if ec || received != 4 {
        ShutdownEthSocketToEthControllerAdapter(SizeReadFailed(id));
      }
      var size := ReadUintBe(4, frameSizeBuffer[..]);
      var frameSize := size.value;
      SizeRange(frameSizeBuffer[..]);
      if frameSize > MAX_FRAME {
        ShutdownEthSocketToEthControllerAdapter(FrameTooLarge(id));
      }
      phase, received := ReadBody(frameSize), 0;
    }

    /** The handler of the body read. It sends a frame and starts the next read after a shutdown. */
    method OnBodyRead(ec: bool)
      requires Valid() && phase.ReadBody?
      modifies this`phase, this`received, this`open, this`delivered, host
      ensures Valid()
      ensures (State(), host.State())
              == AfterBody(id, old(State()), old(host.State()), ec || old(received) != old(phase).frameSize)
    {
      var frameSize := phase.frameSize;
      if ec || received != frameSize {
        ShutdownEthSocketToEthControllerAdapter(BodyReadFailed(id, frameSize, received));
      } else {
        delivered := delivered + 4 + frameSize;
      }
      var frameData := CopyFrameData(frameSize);
      OnNewFrame(frameData);
      DoReceiveFrameFromQemu();
    }

    /** A vector of the announced size with what the receive buffer has for it. */
    method CopyFrameData(frameSize: nat) returns (frame: seq<byte>)
      ensures frame == FrameData(frameDataBuffer[..], frameSize)
    {
      var frameData := new byte[frameSize](_ => 0);
      var n := BufferCopy(Slice(frameData, 0, frameSize), frameDataBuffer[..]);
      assert frameData[..] == FrameData(frameDataBuffer[..], frameSize);
      frame := frameData[..];
    }

    method OnNewFrame(data: seq<byte>)
      modifies host
      ensures host.State() == NewFrame(id, old(host.State()), data)
    {
      var frame := data;
      if |frame| < MIN_FRAME {
        frame := frame + Zeros(MIN_FRAME - |frame|);
      }
      host.transmitId := host.transmitId + 1;
      host.log := host.log + [SentFrame(id, host.transmitId, frame)];
    }
  }
}
