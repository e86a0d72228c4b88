# Ethernet stack and QEMU framing: a verified model

This project models two programs of the SIL Kit adapters for QEMU and proves what they do on every
input and in every run:

* the **echo device**, which parses Ethernet frames with optional 802.1ad and 802.1Q tags, and answers
  ARP requests and ICMP echo requests for its IPv4 address. It rests on an incremental Internet
  checksum, on cursors that checksum what passes through them, and on four hand-written codecs;
* the **Ethernet adapter**, which reads length-prefixed frames from a QEMU socket into two reused
  buffers, pads them to 60 bytes and sends them with a transmit id, and writes frames back to QEMU.

## How the model is built

Code that changes things step by step is a Dafny class or method with the same fields, cursors and
loops; it is proved against a function on values, and the theorems are about those functions.

| file | content |
|---|---|
| `Bytes.dfy`, `BigEndian.dfy` | machine words, thrown exceptions as `Result`, asio's buffer arithmetic, big-endian integers |
| `InternetChecksum.dfy` | the checksum class, the checksum of RFC 1071, and the exact distance between the two |
| `Buffers.dfy` | `BufferWriter` and `BufferReader`, and what any sequence of calls does |
| `EthernetHeader.dfy`, `Ip4Header.dfy`, `ArpIp4Packet.dfy`, `Icmp4Header.dfy` | the codecs, and exactly when they are inverse |
| `Device.dfy`, `DeviceTheorems.dfy` | `Device::Process`, and what its answers are to those who receive them |
| `Bus.dfy` | any number of devices on one network |
| `Framing.dfy`, `Adapter.dfy`, `AdapterRuns.dfy` | the frame format, the adapter's handlers, and all runs of any number of adapters |
| `EthernetWire.dfy` | what a device answers, in the numbers of the standards, and every frame's outcome by its bytes |
| `StreamWire.dfy` | the length field, the receive limit and the padding, in numbers |
| `LateFrames.dfy` | runs in which a frame is sent after the shutdown |
| `CutFrames.dfy` | which frames the adapter's padding completes to requests |
| `EndToEnd.dfy` | a guest that reaches a device through the adapter |

A `const_buffer` is the byte sequence it denotes and a `mutable_buffer` is a slice of an array.
`buffer + n` saturates at the end of a buffer and `buffer_copy` copies the smaller size. `sizeof(T)` of
a template is a `width` parameter. The 64-bit accumulator of the checksum and the cursors wrap around. An `or` with a
flag bit is modelled bit by bit, since the writer does not cut the fragment offset to 13 bits.

The adapters are a state machine over values, whose handlers are proved to be what the class does. Bytes
arrive in any chunks, a read takes any part of what has arrived, a read ends with exactly the bytes it
wants or with an error, and handlers of different adapters interleave in any order. There is no return
after the shutdown calls, so a handler goes on: after a failed body read it still sends a frame. A
stopped io_context runs no further handlers. How many bytes a connection takes before it fails is a
parameter of the write to it.

## Where the code differs from what one would expect

The code is modelled as it is, and each difference is a theorem.

* `GetChecksum` folds only once. For messages of at most 131074 bytes it is the RFC 1071 checksum when
  the fold makes no second carry and one more otherwise (`ChecksumCharacterised`); `ChecksumExact` says
  for every length when it is right. A receiver rejects an IPv4 header or an echo reply exactly when
  there was a second carry (`WrittenHeaderSum`, `EchoReplyHeaderVerifies`, `EchoReplyVerifies`). Every device
  gets requests for which this happens (`UnverifiableReplyHeader`, `UnverifiableEchoReply`).
* The IPv4 parser tests bit 0 of the fragment offset and so accepts only even offsets, drops the
  reserved flag, and skips options (`ParseAfterWrite` and `WriteAfterParse` in module `Ip4`).
* The echo reply keeps the total length of a request with options but not the options; the bytes they
  occupied become zeros at the end of the frame (`EchoReplyOnTheWire`).
* The ICMP checksum covers the frame to its end and not to the total length. A receiver that stops at the
  total length accepts the message exactly when what it covers is not all zero and what it leaves out counts
  as much as the whole, modulo 65535 (`EchoReplyWithinTotalLength`). By the bytes of the request, its trailer
  must count 0 modulo 65535 without a second carry and 1 with it, up to 131074 bytes (`TrailerDecides`, which
  has the condition for all lengths). Zero padding makes no difference (`ZeroTrailer`, `PaddingCommutes`), the
  bytes 0, 1 behind a total length of 24 do (`TrailerRejected`).
* The device throws on a request that is cut, but the adapter pads it, and zeros can be what is missing: the
  end of the target address of an ARP request, or the rest of an ICMP header and what the total length
  announces. `Cut` in `CutFrames.dfy` describes these frames by their bytes; exactly for them padding and
  answering do not commute (`CutExactly`, `PaddedAnswers`; `CutArpExample` and `CutEchoExample` are such
  frames).
* The length of a frame to QEMU is cut to 32 bits. The frames before the first that is too large come back
  exactly when the cut length of that one is too large as well (`FramingRoundTrip`).
* `eth/README.md:15-17` says that the device answers requests directed to its MAC address, and gives
  the address 01:23:45:67:89:ab. The code has another address
  (`eth/demos/IcmpEchoDevice/SilKitDemoEthernetIcmpEchoDevice.cpp:79`) and answers whatever the
  destination MAC address is (`DestinationIgnored`).
* After a failed body read the adapter sends one frame of the announced size that ends in bytes of
  earlier frames (`RunSafety`, `FailBodyInv`). For every first frame, second length and part of a second
  frame there is a run in which this happens (`LateFrameFromStart`); when only the length of a second frame
  of the same size arrives, the first one is sent again (`FrameSentAgainFromStart`).

## Model

| member | source | states |
|---|---|---|
| BigEndian.ReadUintBe | eth/Utility/ReadUintBe.hpp:15-31 | the byte loop gives the big-endian value of the front of the buffer, and a buffer that is too short is refused |
| BigEndian.WriteUintBe | eth/Utility/WriteUintBe.hpp:15-31 | the byte loop leaves exactly the encoding at the front of the buffer and the rest of the memory alone; nothing is written when there is no room |
| BigEndian.DecodeEncode | eth/Utility/WriteUintBe.hpp:25-28 | a value survives encoding and decoding exactly when it fits the width |
| BigEndian.EncodeDecode | eth/Utility/ReadUintBe.hpp:24-28 | every byte string is the encoding of what it decodes to |
| Checksum.InternetChecksum.AddPair | eth/Utility/InternetChecksum.hpp:68-71 | adds one 16-bit word to the 64-bit accumulator, which wraps around |
| Checksum.InternetChecksum.AddByte | eth/Utility/InternetChecksum.hpp:55-66 | completes a pending pair or starts one |
| Checksum.InternetChecksum.AddBuffer | eth/Utility/InternetChecksum.hpp:18-46 | the loop over pairs, with a pending byte before and after it, is feeding the bytes one by one |
| Checksum.InternetChecksum.GetChecksum | eth/Utility/InternetChecksum.hpp:48-52 | one fold of the total with the pending byte, complemented and cut to 16 bits |
| Checksum.FeedAppend | eth/Utility/InternetChecksum.hpp:18-46 | adding two byte strings one after the other, of odd or even length, is adding their concatenation |
| Checksum.FeedChunksIsFeedConcat | eth/Utility/InternetChecksum.hpp:18-46 | the state depends only on the concatenation of all chunks |
| Checksum.TotalIsWordSum | eth/Utility/InternetChecksum.hpp:50-71 | the total is the sum of the zero-padded 16-bit words modulo 2^64 |
| Checksum.OnesSumIsResidue | eth/Utility/InternetChecksum.hpp:48-52 | the end-around-carry sum of RFC 1071, section 1, is the word sum modulo 65535, with 65535 for its positive multiples |
| Checksum.ShortTotal | eth/Utility/InternetChecksum.hpp:50-71 | 131074 bytes never reach bit 32 of the accumulator |
| Checksum.ChecksumCharacterised | eth/Utility/InternetChecksum.hpp:48-71 | up to 131074 bytes the result is the RFC 1071 checksum without a second carry and one more with it |
| Checksum.ChecksumExact | eth/Utility/InternetChecksum.hpp:48-71 | for messages of any length, the result is the RFC 1071 checksum if and only if the unread high bits and the carry fit together |
| Checksum.SecondCarryExample | eth/Utility/InternetChecksum.hpp:51 | six bytes whose checksum is one too large |
| Checksum.FilledSum | eth/Utility/InternetChecksum.hpp:48-52 | a message with its own checksum filled in verifies if and only if the fold made no second carry (high bits included); else it sums to one |
| Checksum.PaddingTransparent | eth/adapter/EthSocketToEthControllerAdapter.cpp:48-51 | appended zeros change neither the checksum nor whether a message verifies |
| Checksum.WordSumSplit | eth/Utility/InternetChecksum.hpp:18-46 | the word sum of two parts is that of the first plus that of the second, with a zero in front of the second if it starts inside a word |
| Checksum.PartVerifies | eth/demos/IcmpEchoDevice/Device.cpp:94-96 | the front of a message verifies if and only if it is not zero and the rest counts as much as the whole, modulo 65535 |
| Checksum.FilledCongruent | eth/Utility/InternetChecksum.hpp:48-52 | a message with its own checksum filled in counts, modulo 65535, the unread high bits and the second carry |
| Buffers.BufferWriter.constructor | eth/Utility/BufferWriter.hpp:20-23 | a writer starts at offset zero with an empty checksum |
| Buffers.BufferWriter.Skip | eth/Utility/BufferWriter.hpp:35-40 | moves the cursor only, modulo 2^64 |
| Buffers.BufferWriter.Write | eth/Utility/BufferWriter.hpp:42-50 | puts the bytes at the cursor, checksums them as they lie in the buffer and moves on, or throws and changes nothing |
| Buffers.BufferWriter.WriteBe | eth/Utility/BufferWriter.hpp:52-60 | the same for a big-endian integer |
| Buffers.BufferWriter.Put | eth/Utility/BufferWriter.hpp:62-67 | writes at a checked position and leaves cursor and checksum alone |
| Buffers.BufferWriter.PutBe | eth/Utility/BufferWriter.hpp:69-87 | the same for a big-endian integer |
| Buffers.WriterInvariant | eth/Utility/BufferWriter.hpp:35-87 | after any calls, failed ones included, the checksum has seen exactly the sequentially written bytes, and the offset counts them and the skipped ones, modulo 2^64 |
| Buffers.SequentialRun | eth/Utility/BufferWriter.hpp:42-60 | sequential writes lie in the buffer one after the other, and nothing else has changed |
| Buffers.EveryByte | eth/Utility/BufferWriter.hpp:35-87 | every byte of the buffer after a call is what the call puts there, if it fits, or what was there |
| Buffers.OthersUnchanged | eth/Utility/BufferWriter.hpp:35-87 | after any calls, every position to which nothing was written is as before |
| Buffers.BufferReader.Skip | eth/Utility/BufferReader.hpp:37-42 | moves the cursor only, modulo 2^64 |
| Buffers.BufferReader.ReadInto | eth/Utility/BufferReader.hpp:44-52 | reads and checksums the bytes at the cursor, or throws and changes nothing |
| Buffers.BufferReader.ReadBe | eth/Utility/BufferReader.hpp:54-70 | the same for a big-endian integer |
| Buffers.BufferReader.Get | eth/Utility/BufferReader.hpp:72-77 | refused exactly when the position and the size reach behind the buffer and something is asked for; else the bytes from that position on |
| Buffers.BufferReader.GetBe | eth/Utility/BufferReader.hpp:79-101 | the integer at any position, if the buffer has its bytes |
| Buffers.ReaderInvariant | eth/Utility/BufferReader.hpp:44-62 | however a reader divides its buffer into fields, its checksum is that of the bytes it passed |
| Buffers.ReaderMatchesWriter | eth/Utility/BufferReader.hpp:32-62 | a reader that passes what a writer wrote gets the writer's checksum, whatever field divisions the two use |
| Ethernet.ParseEthernetHeader | eth/Utility/EthernetHeader.hpp:53-81 | the cursor with its conditional tags finds what stands at the fixed positions, and throws exactly on frames that are too short |
| Ethernet.WriteEthernetVlanTag | eth/Utility/EthernetHeader.hpp:35-40 | writes the TPID and the tag data, four bytes |
| Ethernet.WriteEthernetHeader | eth/Utility/EthernetHeader.hpp:83-103 | writes the wire format and returns its length, or throws if and only if it does not fit |
| Ethernet.ReadEthernetAddress | eth/Utility/EthernetAddress.hpp:26-34 | the first six bytes, or an exception |
| Ethernet.WriteArray | eth/Utility/EthernetAddress.hpp:36-44 | copies an address; when it throws, what fits has been written |
| Ethernet.WriteAfterParse | eth/Utility/EthernetHeader.hpp:53-103 | every accepted frame is the wire format of the parsed header followed by the payload |
| Ethernet.ParseAfterWrite | eth/Utility/EthernetHeader.hpp:53-103 | parsing gives back a written header and its payload if and only if tags carry their own TPID and the EtherType is not that of an absent tag |
| Ip4.ParseIp4Header | eth/Utility/Ip4Header.hpp:41-103 | the reader's fields are those at the fixed positions, each malformed packet gets its own exception, and no read throws after the length checks |
| Ip4.WriteIp4Header | eth/Utility/Ip4Header.hpp:105-124 | twenty bytes that hold the checksum of themselves with a zero field, put in place behind the cursor |
| Ip4.WrittenHeaderSum | eth/Utility/Ip4Header.hpp:105-124 | a written header sums to all ones if and only if the fold made no second carry, and to one otherwise |
| Ip4.UnverifiableHeader | eth/Utility/Ip4Header.hpp:121 | every header gets an identification and a destination with which no receiver accepts its written form |
| Ip4.ChecksumOfReversed | eth/demos/IcmpEchoDevice/Device.cpp:76-89 | exchanging the addresses keeps the checksum |
| Ip4.AcceptedLength | eth/Utility/Ip4Header.hpp:54-66 | the total length of an accepted packet never exceeds its data, although the guard is conditional |
| Ip4.ParseAfterWrite | eth/Utility/Ip4Header.hpp:41-124 | parsing gives back a written header with its computed checksum, and the payload, if and only if the fragment offset is even and fits 13 bits and the total length fits the packet |
| Ip4.WriteAfterParse | eth/Utility/Ip4Header.hpp:41-124 | writing gives back the 20 bytes of an accepted packet if and only if it has no options, no type of service, no reserved flag and the checksum this code computes |
| Ip4.RewrittenFields | eth/Utility/Ip4Header.hpp:60-79 | what parsing forgets: the options, the type of service and the reserved flag |
| Arp.WriteArpIp4Packet | eth/Utility/ArpIp4Packet.hpp:78-93 | writes the 28 bytes of the wire format, or throws if and only if they do not fit |
| Arp.ParseCharacterised | eth/Utility/ArpIp4Packet.hpp:32-76 | which packets are accepted, and which field stands where |
| Arp.WriteAfterParse | eth/Utility/ArpIp4Packet.hpp:32-93 | writing gives back the 28 bytes of every accepted packet |
| Arp.ParseAfterWrite | eth/Utility/ArpIp4Packet.hpp:32-93 | parsing gives back a written packet if and only if it is a request or a reply |
| Icmp4.WriteIcmp4Header | eth/Utility/Icmp4Header.hpp:46-55 | writes type, code and a zero checksum, or throws if and only if they do not fit |
| Icmp4.WriteAfterParse | eth/Utility/Icmp4Header.hpp:30-44 | exactly messages of at least four bytes are accepted, and nothing of them is lost |
| Icmp4.ParseAfterWrite | eth/Utility/Icmp4Header.hpp:30-55 | a header and its payload are found again |
| Icmp4.SealedSum | eth/demos/IcmpEchoDevice/Device.cpp:90-96 | the sum of a message with the checksum patched in, with and without a second carry |
| Icmp4.UnverifiableEcho | eth/demos/IcmpEchoDevice/Device.cpp:94-96 | a sealed message that no receiver accepts |
| EchoDevice.Device.Process | eth/demos/IcmpEchoDevice/Device.cpp:14-113 | sends exactly the answer, sends nothing, or throws the parser's exception; once the headers are parsed no writer throws and no copy is cut short |
| EchoDevice.Device.ProcessArp | eth/demos/IcmpEchoDevice/Device.cpp:21-53 | the ARP case: one answer, none, or the exception of the ARP parser |
| EchoDevice.Device.ProcessIp4 | eth/demos/IcmpEchoDevice/Device.cpp:55-107 | the IPv4 case: one answer, none, or the exception of the IPv4 or the ICMP parser |
| EchoDevice.Device.AnswerArp | eth/demos/IcmpEchoDevice/Device.cpp:30-50 | the frame written through the moving cursor is the Ethernet header, the ARP reply and zeros |
| EchoDevice.Device.AnswerEcho | eth/demos/IcmpEchoDevice/Device.cpp:71-98 | the frame written through the moving cursor is the three layers with the checksum in place, and zeros where the options were |
| EchoDevice.FillInChecksum | eth/demos/IcmpEchoDevice/Device.cpp:90-96 | the checksum of everything from the ICMP header on goes into bytes 2 and 3 of that header |
| DeviceTheorems.AnsweredFrames | eth/demos/IcmpEchoDevice/Device.cpp:19-112 | exactly the ARP and echo requests for the device's address are answered |
| EthernetWire.EthernetParsed | eth/Utility/EthernetHeader.hpp:22-81 | with TPIDs 0x88A8 and 0x8100, in this order, the addresses, tags, EtherType and payload are found where they stand |
| EthernetWire.OptionsSkipped | eth/Utility/Ip4Header.hpp:41-103 | for options of any length, a packet whose first byte is 0x45 plus a quarter of it parses to the fields at the numbered bytes and the payload behind the options, unless its total length exceeds it or the fragment offset is odd |
| EthernetWire.ArpExchange | eth/demos/IcmpEchoDevice/Device.cpp:21-53 | EtherType 0x0806 with operation 1 for the address of the device is answered with operation 2 and the addresses in place, byte by byte, under any tags; operation 2 is not answered |
| EthernetWire.EchoExchange | eth/demos/IcmpEchoDevice/Device.cpp:55-107 | EtherType 0x0800 with protocol 1 and type 8 for the address of the device is answered with type 0, the fields kept, both checksums, the payload and zeros for the options, byte by byte, under any tags; other types, protocols and addresses are not answered |
| EthernetWire.OutcomeByBytes | eth/demos/IcmpEchoDevice/Device.cpp:14-113 | every frame by its bytes: on which a device throws and with which exception, which it answers, and that it is silent on all others |
| DeviceTheorems.EchoReplyOnTheWire | eth/demos/IcmpEchoDevice/Device.cpp:57-98 | an answer has the request's length and parses to its headers with the addresses reversed, type 0, both tags kept, the payload unchanged and zeros in place of the options |
| DeviceTheorems.EchoReplyVerifies | eth/demos/IcmpEchoDevice/Device.cpp:90-96 | a receiver accepts the ICMP message of an answer if and only if there was no second carry (high bits included) |
| DeviceTheorems.EchoReplyChecksumUpdate | eth/demos/IcmpEchoDevice/Device.cpp:90-96 | when the request verified, the answer does if and only if its checksum is the request's plus 0x0800 modulo 65535, as in section 3 of RFC 1624 |
| DeviceTheorems.EchoReplyHeaderVerifies | eth/demos/IcmpEchoDevice/Device.cpp:79-89 | a receiver accepts the IPv4 header of an answer if and only if the fields of the request make no second carry |
| DeviceTheorems.UnverifiableReplyHeader | eth/demos/IcmpEchoDevice/Device.cpp:79-89 | every device gets an echo request whose answer has an IPv4 header that no receiver accepts |
| DeviceTheorems.UnverifiableEchoReply | eth/demos/IcmpEchoDevice/Device.cpp:94-96 | an echo request whose answer no receiver accepts |
| DeviceTheorems.EchoReplyWithinTotalLength | eth/demos/IcmpEchoDevice/Device.cpp:94-96 | for every answer, a receiver that stops at the total length accepts its ICMP message if and only if what it covers is not zero and the rest counts as much as the whole message, modulo 65535 |
| DeviceTheorems.CoveredInPacket | eth/demos/IcmpEchoDevice/Device.cpp:79-96 | what such a receiver covers are the bytes of the answer from the IPv4 header to the total length |
| DeviceTheorems.TrailerDecides | eth/demos/IcmpEchoDevice/Device.cpp:94-96 | the same by the bytes of the request, also for an answer that does not verify to its end: something must be covered, and the trailer must count as much as the unread high bits and the second carry, so 0 or 1 modulo 65535 up to 131074 bytes |
| DeviceTheorems.ZeroTrailer | eth/demos/IcmpEchoDevice/Device.cpp:94-96 | when only zeros follow the total length, such a receiver judges the answer the same as one that reads to the end |
| DeviceTheorems.TrailerRejected | eth/demos/IcmpEchoDevice/Device.cpp:94-96 | an echo request whose answer verifies to its end but not to its total length |
| DeviceTheorems.EchoReplyInPlace | eth/demos/IcmpEchoDevice/Device.cpp:57-98 | for plain requests only the addresses, the ICMP type and the two checksums change, and the IPv4 checksum stays if it was computed as here |
| DeviceTheorems.ArpReplyOnTheWire | eth/demos/IcmpEchoDevice/Device.cpp:21-53 | an answer parses to a reply from the device to the requester, in a frame to the requester with the tags kept, and ends in zeros |
| DeviceTheorems.AnswersAreFinal | eth/demos/IcmpEchoDevice/Device.cpp:14-113 | no device answers an answer or throws on it |
| DeviceTheorems.PaddingCommutes | eth/demos/IcmpEchoDevice/Device.cpp:44-50 | zeros appended to an answered frame are appended to its answer |
| DeviceTheorems.DestinationIgnored | eth/demos/IcmpEchoDevice/Device.cpp:14-113 | the answer does not depend on the destination MAC address |
| Bus.EventAccounting | eth/demos/IcmpEchoDevice/Device.cpp:14-113 | one delivery settles one request for good or is not answered |
| Bus.EventSettles | eth/demos/IcmpEchoDevice/Device.cpp:14-113 | one delivery sends the answer that was due for it, and makes no other due |
| Bus.RequestsConserved | eth/demos/IcmpEchoDevice/Device.cpp:14-113 | over any run and any order of delivery, the number of answers sent and of requests still in flight is that of the requests at first |
| Bus.AnswersConserved | eth/demos/IcmpEchoDevice/Device.cpp:14-113 | the very frames are conserved: the answers sent and those still due are the answers due at first, so a run that ends with nothing in flight has sent exactly these, whatever the order of delivery |
| Bus.DeliveriesConserved | eth/demos/IcmpEchoDevice/Device.cpp:14-113 | over any run the deliveries made and those in flight are those at first and one for each recipient of each answer sent |
| Bus.AnswerReaches | eth/demos/IcmpEchoDevice/Device.cpp:100 | the answer to a request can be put in flight for any device |
| Bus.RunsTerminate | eth/demos/IcmpEchoDevice/Device.cpp:14-113 | every run of any number of devices ends, with a bound in the deliveries and requests at first |
| Bus.OneResponder | eth/demos/IcmpEchoDevice/Device.cpp:28 | two devices that answer the same frame have the same IP address |
| Framing.FramesOfSplit | eth/adapter/EthSocketToEthControllerAdapter.cpp:149-181 | any split of a stream into acceptable frames and a rest that does not begin with one gives its decoding |
| StreamWire.EncodedInNumbers | eth/adapter/EthSocketToEthControllerAdapter.hpp:35-39 | the four bytes in front of a frame are its length modulo 2^32, highest byte first |
| Framing.EveryStreamSplits | eth/adapter/EthSocketToEthControllerAdapter.cpp:149-181 | every stream has such a split, so it decodes to its longest prefix of acceptable frames |
| Framing.FramingRoundTrip | eth/adapter/EthSocketToEthControllerAdapter.hpp:32-40 | what was sent for any frames decodes to those before the first that is too large, padded, if and only if the length of that one is too large when cut to 32 bits; then nothing is left over if and only if none is too large |
| Framing.FramesAppend | eth/adapter/EthSocketToEthControllerAdapter.cpp:149-181 | complete frames decode independently of what follows |
| Framing.FailedWrite | eth/adapter/EthSocketToEthControllerAdapter.hpp:38-39 | after a write that fails half way the stream decodes to the frames before it, if and only if the bytes its length announces are not there or are too many |
| Adapter.EthSocketToEthControllerAdapter.SendEthernetFrameToQemu | eth/adapter/EthSocketToEthControllerAdapter.hpp:32-40 | the two writes put the 32-bit length and the frame on the stream; a connection that takes fewer bytes has these, a closed one nothing, and then the call throws |
| Adapter.EthSocketToEthControllerAdapter.OnSizeRead | eth/adapter/EthSocketToEthControllerAdapter.cpp:139-183 | the size handler, with its two shutdowns and the body read that is started after either |
| Adapter.EthSocketToEthControllerAdapter.OnBodyRead | eth/adapter/EthSocketToEthControllerAdapter.cpp:165-182 | the body handler, which sends a frame and starts the next read after a shutdown too |
| Adapter.EthSocketToEthControllerAdapter.OnNewFrame | eth/adapter/EthSocketToEthControllerAdapter.cpp:47-58 | pads to 60 bytes and sends with the next transmit id |
| StreamWire.SentFilledUp | eth/adapter/EthSocketToEthControllerAdapter.cpp:47-58 | after any run every frame sent before the stop is the next body that arrived: itself if it has 60 bytes or more, and else filled up with zeros to byte 60 |
| Adapter.EthSocketToEthControllerAdapter.ShutdownEthSocketToEthControllerAdapter | eth/adapter/EthSocketToEthControllerAdapter.cpp:122-134 | closes the socket and stops the io_context; the first cause is kept |
| Adapter.EthSocketToEthControllerAdapter.ReadSome | eth/adapter/EthSocketToEthControllerAdapter.cpp:138-165 | part of the arrived bytes goes into the part of the reused buffer the read has not filled |
| AdapterRuns.NextInv | eth/adapter/EthSocketToEthControllerAdapter.cpp:136-184 | every step of any number of adapters keeps the invariant: ids are consecutive, what was handed on is decoded, nothing that arrived is lost |
| AdapterRuns.DeliverOne | eth/adapter/EthSocketToEthControllerAdapter.cpp:165-182 | a complete body extends the delivered stream by one frame, sent without stale bytes, and the buffer now holds it over what was there |
| AdapterRuns.FailBodyInv | eth/adapter/EthSocketToEthControllerAdapter.cpp:166-181 | a failed body read stops the io_context and sends a frame of the announced size: the part of the body that was read, then what earlier frames left in the buffer |
| AdapterRuns.RunInv | eth/adapter/EthSocketToEthControllerAdapter.cpp:136-184 | the invariant holds after every run |
| AdapterRuns.ArrivedIsReceived | eth/adapter/EthSocketToEthControllerAdapter.cpp:138-165 | over any run, the stream of an adapter grows by exactly the chunks that arrive for it, in their order |
| AdapterRuns.SentIsPrefix | eth/adapter/EthSocketToEthControllerAdapter.cpp:136-184 | at any time the frames sent before the stop are the first the stream decodes to |
| AdapterRuns.SettledIsDecoded | eth/adapter/EthSocketToEthControllerAdapter.cpp:136-184 | an adapter with nothing left to do has sent exactly what its stream decodes to |
| AdapterRuns.StreamIsDecoded | eth/adapter/EthSocketToEthControllerAdapter.cpp:136-184 | for any run from the start: the frames sent before the stop are the first that the received chunks, put together, decode to, and all of them once the adapter is settled |
| AdapterRuns.LostConnection | eth/adapter/EthSocketToEthControllerAdapter.cpp:140-144 | the connection can be lost whenever an adapter waits with everything read, which has then sent all frames of its stream |
| AdapterRuns.ChunksDoNotMatter | eth/adapter/EthSocketToEthControllerAdapter.cpp:136-184 | from states in which nothing has arrived, when the chunks that arrive in two runs are the same bytes put together, whatever the chunks and interleavings are, settled adapters have sent the same frames |
| AdapterRuns.FramesGoThrough | eth/adapter/EthSocketToEthControllerAdapter.cpp:149-181 | frames of at most 4096 bytes whose encodings arrive in any chunks are all sent, padded and in order, and the adapter waits for a length with nothing buffered |
| StreamWire.LimitPasses | eth/adapter/EthSocketToEthControllerAdapter.cpp:154-165 | a body of up to 4096 bytes behind its length goes through |
| StreamWire.TooLargeStops | eth/adapter/EthSocketToEthControllerAdapter.cpp:154-163 | an announced length of more than 4096 stops the io_context with that cause, after the frames before it |
| AdapterRuns.StopIsFinal | eth/adapter/EthSocketToEthControllerAdapter.cpp:122-134 | after the stop no frame is sent by any adapter |
| AdapterRuns.ExitIsFinal | eth/adapter/EthSocketToEthControllerAdapter.cpp:122-134 | the io_context can be stopped from outside at any time, and no frame is sent from then on |
| AdapterRuns.StoppingStep | eth/adapter/EthSocketToEthControllerAdapter.cpp:140-181 | the step that stops sends a frame if and only if it is the failure of a body read |
| AdapterRuns.RunSafety | eth/adapter/EthSocketToEthControllerAdapter.cpp:53-54 | over any run, transmit ids are 1, 2, 3 and so on in the order of sending, and at most one frame follows the first shutdown, only after a failed body read; its content is determined by the stream |
| AdapterRuns.HandlersTerminate | eth/adapter/EthSocketToEthControllerAdapter.cpp:136-184 | without new bytes only so many reads and handlers can happen |
| AdapterRuns.SettlingRun | eth/adapter/EthSocketToEthControllerAdapter.cpp:136-184 | from every state in which the io_context runs, some reads and handlers lead to one in which every adapter is settled or a frame that is too large has stopped it |
| AdapterRuns.StreamsDelivered | eth/adapter/EthSocketToEthControllerAdapter.cpp:136-184 | chunks of several streams can arrive in any order, and then reads and handlers can send exactly what each stream decodes to, if no frame is too large |
| LateFrames.SecondFails | eth/adapter/EthSocketToEthControllerAdapter.cpp:165-182 | from any reachable state in which an adapter waits with nothing buffered, a frame, the length of a second one, a part of it and a failed read lead to the part being sent, continued with what the buffer held |
| LateFrames.LateFrameFromStart | eth/adapter/EthSocketToEthControllerAdapter.cpp:165-182 | there is such a run from the start for every first frame, second length and part; behind the part stands the first frame, and behind that zeros |
| LateFrames.FrameSentAgainFromStart | eth/adapter/EthSocketToEthControllerAdapter.cpp:165-182 | for every body of at most 4096 bytes there is a run from the start that sends it with id 1 and, after the shutdown, with id 2, although only the length of a second frame arrived |
| CutFrames.CutExactly | eth/adapter/EthSocketToEthControllerAdapter.cpp:48-51 | a device throws on a frame and answers it padded if and only if it is a cut request by its bytes: short, with a complete Ethernet header, around an ARP request cut between its operation and its end or an echo request cut behind its ICMP type, and zeros are what is missing |
| EndToEnd.PaddedAnswer | eth/adapter/EthSocketToEthControllerAdapter.cpp:48-51 | a padded frame is answered if and only if the frame is, or it is cut; the answer to an answered frame is padded |
| EndToEnd.PaddedAnswers | eth/adapter/EthSocketToEthControllerAdapter.cpp:48-51 | the answers to padded frames are the padded answers if and only if no frame is cut |
| EndToEnd.CutArpExample | eth/adapter/EthSocketToEthControllerAdapter.cpp:48-51 | 41 bytes of an ARP request, which get one answer when padded and none as they are |
| EndToEnd.CutEchoExample | eth/adapter/EthSocketToEthControllerAdapter.cpp:48-51 | the same for 35 to 37 bytes of an echo request to any device |
| EndToEnd.PingThroughAdapter | eth/adapter/EthSocketToEthControllerAdapter.cpp:93-102 | for any frames of a guest, what a settled adapter sent is answered as the padded frames, in order, and what goes back decodes to these answers; they are the padded answers to the frames themselves if and only if no frame is cut |

## Left out

- Connecting, resolving and closing sockets, signals, and SIL Kit's participants and life cycle: input and output.
- The chardev path, the command line and `parseEthernetSocketArgument`: they rest on helpers that are not part of this model.
- Printers, enum names and logging: output only.
- Ethernet.WriteEthernetHeader: which bytes of the target it leaves behind when it throws is not stated; `Process` destroys the reply buffer then.
- Ethernet.WriteEthernetVlanTag: the same.
- Ip4.WriteIp4Header: the same.
- Arp.WriteArpIp4Packet: the same.
- Icmp4.WriteIcmp4Header: the same.
- Buffers.BufferWriter.PutBe: its byte loop is the one of `WriteUintBe`, which the model has once.
- Buffers.BufferReader.GetBe: its byte loop is the one of `ReadUintBe`, which the model has once.
- The direction from SIL Kit to QEMU is not an action of the runs in `AdapterRuns`; it shares nothing with the other one but the socket.
- Adapter.EthSocketToEthControllerAdapter.OnNewFrame: the transmit id is not bounded by the size of a pointer.
- Bus.EventAccounting: a device whose `Process` throws is taken to send nothing and to go on; what SIL Kit does with the exception is not part of this model.
