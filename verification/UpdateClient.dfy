/**
  The host side of a firmware update: requests with sequence numbers, and the streaming of a package
  in blocks.  The frames of a completed update are proved to reassemble to the payload.
 */
module UpdateClient {
  import opened Common
  import opened Limbs
  import opened Frames

  const HELLO: int := 0x01
  const BEGIN_UPDATE: int := 0x03
  const WRITE_BLOCK: int := 0x04
  const FINISH_UPDATE: int := 0x05
  const ABORT_UPDATE: int := 0x07
  const ACK: int := 0x80
  const NACK: int := 0x81

  function NextSequence(s: int): int {
    (s + 1) % 0x1_0000
  }

  // ----- responses

  datatype Response = Response(nack: bool, status: int, extra: seq<u8>)

  function ParseResponse(f: Frame, sequence: int, command: int): Option<Response> {
    if f.version != 1 || f.sequence != sequence || (f.command != ACK && f.command != NACK) then None
    else if |f.payload| < 3 || f.payload[0] != command then None
    else Some(Response(f.command == NACK, Load16(f.payload[1..3]), f.payload[3..]))
  }

  datatype Info = Info(protocolVersion: int, maxPayload: int, maxWrite: int, headerSize: int, crcSize: int, state: int)

  function ParseInfo(extra: seq<u8>): Option<Info> {
    if |extra| != 10 then None
    else
      Some(Info(extra[0], Load16(extra[1..3]), Load16(extra[3..5]), Load16(extra[5..7]), Load16(extra[7..9]), extra[9]))
  }

  predicate InfoOk(i: Info) {
    i.protocolVersion == 1 && i.headerSize == 10 && 0 < i.maxWrite <= MAX_PAYLOAD - 4
  }

  datatype Package = Package(data: seq<u8>, headerSize: int, payloadSize: int, packageSize: int)

  predicate PackageOk(p: Package, i: Info) {
    p.headerSize == 512 && p.packageSize == p.headerSize + p.payloadSize && i.maxPayload >= p.headerSize
  }

  /** Where the signed header ends; data may turn out shorter than the header it announces */
  function Split(p: Package): (k: nat)
    ensures k <= |p.data|
  {
    if |p.data| < 512 then |p.data| else 512
  }

  // ----- the frames of an update

  function BlockEnd(payload: seq<u8>, chunk: int, offset: int): int {
    if offset + chunk <= |payload| then offset + chunk else |payload|
  }

  /** The write requests for the payload from an offset on: offset, then data, in blocks; there are none
      for offsets that do not fit 32 bits */
  function Blocks(payload: seq<u8>, chunk: int, sequence: int, offset: nat): (fs: seq<Frame>)
    requires chunk > 0
    decreases |payload| - offset
  {
    if offset >= |payload| || !IsU32(offset) then []
    else
      var end := BlockEnd(payload, chunk, offset);
      [Frame(1, WRITE_BLOCK, sequence, Store32(offset) + payload[offset..end])]
          + Blocks(payload, chunk, NextSequence(sequence), end)
  }

  /** The offsets of all blocks fit 32 bits. */
  predicate Addressable(payload: seq<u8>, chunk: int, offset: nat)
    requires chunk > 0
    decreases |payload| - offset
  {
    offset >= |payload| || (IsU32(offset) && Addressable(payload, chunk, BlockEnd(payload, chunk, offset)))
  }

  /** Payloads up to 2^32 bytes are addressable in blocks of any size. */
  lemma {:induction false} ShortIsAddressable(payload: seq<u8>, chunk: int, offset: nat)
    requires chunk > 0 && |payload| <= 0x1_0000_0000
    ensures Addressable(payload, chunk, offset)
    decreases |payload| - offset
  {
    if offset < |payload| {
      ShortIsAddressable(payload, chunk, BlockEnd(payload, chunk, offset));
    }
  }

  predicate AllFit(fs: seq<Frame>) {
    forall i :: 0 <= i < |fs| ==> FrameFits(fs[i])
  }

  /** Whatever a validated target allows, every block fits its frame. */
  lemma {:induction false} BlocksFit(payload: seq<u8>, chunk: int, sequence: int, offset: nat)
    requires 0 < chunk <= MAX_PAYLOAD - 4 && 0 <= sequence < 0x1_0000
    ensures AllFit(Blocks(payload, chunk, sequence, offset))
    decreases |payload| - offset
  {
    if offset < |payload| && IsU32(offset) {
      BlocksFit(payload, chunk, NextSequence(sequence), BlockEnd(payload, chunk, offset));
    }
  }

  function Encoded(crc: Checksum, fs: seq<Frame>): (bs: seq<seq<u8>>)
    requires AllFit(fs)
    ensures |bs| == |fs|
  {
    if fs == [] then [] else [FrameBytes(crc, fs[0])] + Encoded(crc, fs[1..])
  }

  /** A receiver that takes blocks only in sequence and only at the offset it has reached */
  function Reassembled(crc: Checksum, bs: seq<seq<u8>>, sequence: int, acc: seq<u8>): Option<seq<u8>>
    decreases |bs|
  {
    if bs == [] then Some(acc)
    else
      match DecodeFrame(crc, bs[0])
      case Decoded(f) =>
        if f.command != WRITE_BLOCK || f.sequence != sequence || |f.payload| < 4 || Load32(f.payload) != |acc| then None
        else Reassembled(crc, bs[1..], NextSequence(sequence), acc + f.payload[4..])
      case _ => None
  }

  /** The blocks of a payload, as bytes on the wire, reassemble to exactly that payload. */
  lemma {:induction false} BlocksReassemble(crc: Checksum, payload: seq<u8>, chunk: int, sequence: int, offset: nat)
    requires 0 < chunk <= MAX_PAYLOAD - 4 && 0 <= sequence < 0x1_0000 && offset <= |payload|
    requires Addressable(payload, chunk, offset)
    ensures AllFit(Blocks(payload, chunk, sequence, offset))
    ensures Reassembled(crc, Encoded(crc, Blocks(payload, chunk, sequence, offset)), sequence, payload[..offset])
      == Some(payload)
    decreases |payload| - offset
  {
    hide Load32, Store32, DecodeFrame, FrameBytes;
    BlocksFit(payload, chunk, sequence, offset);
    if offset < |payload| {
      var end := BlockEnd(payload, chunk, offset);
      var rest := Blocks(payload, chunk, NextSequence(sequence), end);
      var f := Frame(1, WRITE_BLOCK, sequence, Store32(offset) + payload[offset..end]);
      BlocksReassemble(crc, payload, chunk, NextSequence(sequence), end);
      DecodeEncode(crc, f);
      assert f.payload[..4] == Store32(offset) && f.payload[4..] == payload[offset..end];
      Store32Load32(offset, f.payload);
      EncodedCons(crc, f, rest);
      assert payload[..offset] + payload[offset..end] == payload[..end];
    } else {
      assert payload[..offset] == payload;
    }
  }

  lemma {:induction false} EncodedCons(crc: Checksum, f: Frame, fs: seq<Frame>)
    requires FrameFits(f) && AllFit(fs)
    ensures AllFit([f] + fs) && Encoded(crc, [f] + fs) == [FrameBytes(crc, f)] + Encoded(crc, fs)
    ensures Encoded(crc, [f] + fs)[1..] == Encoded(crc, fs)
  {
    hide FrameBytes;
    assert ([f] + fs)[1..] == fs;
  }

  lemma {:induction false} EncodedAppend(crc: Checksum, fs: seq<Frame>, f: Frame)
    requires FrameFits(f) && AllFit(fs)
    ensures AllFit(fs + [f]) && Encoded(crc, fs + [f]) == Encoded(crc, fs) + [FrameBytes(crc, f)]
  {
    hide FrameBytes;
    if fs == [] {
      assert fs + [f] == [f] && [f][1..] == [];
    } else {
      EncodedAppend(crc, fs[1..], f);
      assert (fs + [f])[1..] == fs[1..] + [f];
    }
  }

  /** All frames of an update: the signed header, the blocks, the end */
  function UpdateFrames(header: seq<u8>, payload: seq<u8>, chunk: int, sequence: int): seq<Frame>
    requires chunk > 0
  {
    var blocks := Blocks(payload, chunk, NextSequence(sequence), 0);
    [Frame(1, BEGIN_UPDATE, sequence, header)] + blocks
      + [Frame(1, FINISH_UPDATE, (sequence + 1 + |blocks|) % 0x1_0000, [])]
  }

  lemma {:induction false} BlockHeads(payload: seq<u8>, chunk: int, sequence: int, offset: nat, i: nat)
    requires 0 < chunk && 0 <= sequence < 0x1_0000 && i < |Blocks(payload, chunk, sequence, offset)|
    ensures var f := Blocks(payload, chunk, sequence, offset)[i];
            f.command == WRITE_BLOCK && f.sequence == (sequence + i) % 0x1_0000
    decreases |payload| - offset
  {
    hide Blocks, Store32, NextSequence, BlockEnd;
    if offset >= |payload| || !IsU32(offset) {
      NoMoreBlocks(payload, chunk, sequence, offset);
      assert false;
    }
    NextBlock(payload, chunk, sequence, offset);
    if i > 0 {
      BlockBounds(payload, chunk, offset);
      SequenceSum(sequence, i);
      BlockHeads(payload, chunk, NextSequence(sequence), BlockEnd(payload, chunk, offset), i - 1);
    }
  }

  /** A whole update on the wire: the sequence numbers advance by one from frame to frame, every frame
      fits, and a strict receiver gets the payload out of the blocks between the first and the last. */
  lemma {:induction false} UpdateOnTheWire(crc: Checksum, header: seq<u8>, payload: seq<u8>, chunk: int, sequence: int)
    requires |header| <= MAX_PAYLOAD && 0 < chunk <= MAX_PAYLOAD - 4 && 0 <= sequence < 0x1_0000
    requires Addressable(payload, chunk, 0)
    ensures var fs := UpdateFrames(header, payload, chunk, sequence);
            && AllFit(fs) && |fs| >= 2
            && (forall i :: 0 <= i < |fs| ==> fs[i].sequence == (sequence + i) % 0x1_0000)
            && (forall i :: 0 < i < |fs| - 1 ==> fs[i].command == WRITE_BLOCK)
            && fs[0].payload == header && AllFit(fs[1..|fs| - 1])
            && Reassembled(crc, Encoded(crc, fs[1..|fs| - 1]), NextSequence(sequence), []) == Some(payload)
  {
    hide Reassembled, Encoded, Blocks, FrameBytes, NextSequence;
    SequenceSum(sequence, 1);
    var blocks := Blocks(payload, chunk, NextSequence(sequence), 0);
    BlocksReassemble(crc, payload, chunk, NextSequence(sequence), 0);
    assert payload[..0] == [];
    var fs := UpdateFrames(header, payload, chunk, sequence);
    assert fs[1..|fs| - 1] == blocks;
    forall i | 0 < i < |fs| - 1 ensures fs[i].sequence == (sequence + i) % 0x1_0000 && fs[i].command == WRITE_BLOCK {
      assert fs[i] == blocks[i - 1];
      BlockHeads(payload, chunk, NextSequence(sequence), 0, i - 1);
      SequenceSum(sequence, i);
    }
  }

  // ----- the client

  /** The bytes of a frame that fits */
  function Wire(crc: Checksum, f: Frame): seq<u8> {
    if FrameFits(f) then FrameBytes(crc, f) else []
  }

  /** The first frame of the stream accepts the request, and the rest of the stream is left. */
  predicate Answered(crc: Checksum, seen: seq<u8>, sequence: int, command: int, extra: seq<u8>, rest: seq<u8>) {
    var first := FirstFrame(crc, seen);
    && first.Some? && first.value.0.Received?
    && ParseResponse(first.value.0.frame, sequence, command) == Some(Response(false, 0, extra))
    && first.value.1 <= |seen| && rest == seen[first.value.1..]
  }

  /** The first frame of the stream is a response to the request, positive or not. */
  predicate Matched(crc: Checksum, seen: seq<u8>, sequence: int, command: int) {
    var first := FirstFrame(crc, seen);
    first.Some? && first.value.0.Received? && ParseResponse(first.value.0.frame, sequence, command).Some?
  }

  lemma {:induction false} SameTail(s: seq<u8>)
    ensures IsTail(s, s)
  {
  }

  datatype Reply = Accepted(extra: seq<u8>) | Failed | Expired

  datatype Progress = AllSent | NotAccepted | NoOffset

  class Stm32Client {
    const crc: Checksum
    const transport: Transport
    const retries: nat
    var sequence: int
    var info: Option<Info>

    ghost predicate Valid()
      reads this`sequence, this`info
    {
      0 <= sequence < 0x1_0000 && (info.Some? ==> InfoOk(info.value))
    }

    constructor (crc: Checksum, transport: Transport, retries: nat)
      ensures Valid() && sequence == 0 && info == None
      ensures this.crc == crc && this.transport == transport && this.retries == retries
    {
      this.crc, this.transport, this.retries, sequence, info := crc, transport, retries, 0, None;
    }

    /** One request and its response.  A payload that does not fit is refused before anything is written.
        The sequence number advances exactly with a matching response. */
    method SendOnce(command: int, payload: seq<u8>) returns (r: Reply)
      requires Valid() && 0 <= command < 0x100
      modifies this`sequence, transport
      ensures Valid()
      ensures transport.written == old(transport.written)
           || (FrameFits(Frame(1, command, old(sequence), payload))
               && transport.written == old(transport.written) + [Wire(crc, Frame(1, command, old(sequence), payload))])
      ensures |payload| > MAX_PAYLOAD ==>
        r == Failed && transport.written == old(transport.written) && sequence == old(sequence)
      ensures r.Accepted? || r.Expired? ==> transport.written != old(transport.written)
      ensures r.Accepted? ==> sequence == NextSequence(old(sequence))
      ensures r.Accepted? ==> Answered(crc, old(transport.input), old(sequence), command, r.extra, transport.input)
      ensures r.Expired? ==> sequence == old(sequence)
      ensures sequence == old(sequence) || sequence == NextSequence(old(sequence))
      ensures sequence == NextSequence(old(sequence)) <==>
        transport.written != old(transport.written) && !r.Expired?
        && Matched(crc, old(transport.input), old(sequence), command)
      ensures transport.timeouts == old(transport.timeouts) + if r.Expired? then 1 else 0
      ensures IsTail(transport.input, old(transport.input))
    {
      hide FrameBytes, Load16, FirstFrame, Live, IsTail;
      SameTail(transport.input);
      var frame := EncodeFrame(crc, command, sequence, payload);
      if frame.None? {
        return Failed;
      }
      var complete := transport.Write(frame.value);
      if !complete {
        return Failed;
      }
      transport.StartTimer();
      var reading := ReadFrame(crc, transport);
      if reading == TimedOut {
        return Expired;
      }
      if !reading.Received? {
        return Failed;
      }
      var response := ParseResponse(reading.frame, sequence, command);
      if response.None? {
        return Failed;
      }
      sequence := NextSequence(sequence);
      if response.value.nack || response.value.status != 0 {
        return Failed;
      }
      r := Accepted(response.value.extra);
    }

    /** A request; only those that may be repeated are sent again, unchanged, and every repetition follows a
        timeout.  An accepted request was answered in what was left of the stream. */
    method Request(command: int, payload: seq<u8>, repeatable: bool)
      returns (r: Reply, ghost sent: nat, ghost seen: seq<u8>)
      requires Valid() && 0 <= command < 0x100
      modifies this`sequence, transport
      ensures Valid()
      ensures transport.written
           == old(transport.written) + Copies(Wire(crc, Frame(1, command, old(sequence), payload)), sent)
      ensures |payload| > MAX_PAYLOAD ==> r == Failed && sent == 0
      ensures sent <= Attempts(repeatable)
      ensures var waited := transport.timeouts - old(transport.timeouts);
              && 0 <= waited <= sent <= waited + 1
              && (r.Accepted? ==> sent == waited + 1)
              && (r.Expired? <==> waited == Attempts(repeatable))
      ensures r.Accepted? ==> sequence == NextSequence(old(sequence))
      ensures r.Accepted? ==>
        Answered(crc, seen, old(sequence), command, r.extra, transport.input) && IsTail(seen, old(transport.input))
      ensures r.Expired? ==> sequence == old(sequence)
      ensures sequence == old(sequence) || sequence == NextSequence(old(sequence))
    {
      hide FrameBytes, FrameFits, Answered, IsTail, Wire;
      var attempts := Attempts(repeatable);
      ghost var frame := Wire(crc, Frame(1, command, sequence, payload));
      sent, seen := 0, transport.input;
      SameTail(transport.input);
      r := Expired;
      for attempt := 0 to attempts
        invariant sent == attempt && r.Expired? && Valid() && sequence == old(sequence)
        invariant transport.timeouts == old(transport.timeouts) + attempt
        invariant |payload| > MAX_PAYLOAD ==> attempt == 0
        invariant transport.written == old(transport.written) + Copies(frame, sent)
        invariant IsTail(transport.input, old(transport.input))
      {
        ghost var before := transport.written;
        seen := transport.input;
        r := SendOnce(command, payload);
        TailOfTail(transport.input, seen, old(transport.input));
        if transport.written != before {
          CopiesNext(old(transport.written), frame, sent);
          sent := sent + 1;
        }
        if !r.Expired? {
          return;
        }
      }
    }

    function Attempts(repeatable: bool): nat {
      if repeatable then retries + 1 else 1
    }

    /** The greeting.  The information kept is what the target's answer said, if it passes validation. */
    method Hello() returns (ok: bool, ghost sent: nat, ghost seen: seq<u8>, ghost extra: seq<u8>)
      requires Valid()
      modifies this, transport
      ensures Valid() && sent <= retries + 1
      ensures transport.written == old(transport.written) + Copies(Wire(crc, Frame(1, HELLO, old(sequence), [])), sent)
      ensures ok ==> sent > 0 && sequence == NextSequence(old(sequence))
      ensures ok ==>
        && Answered(crc, seen, old(sequence), HELLO, extra, transport.input) && IsTail(seen, old(transport.input))
        && info.Some? && info == ParseInfo(extra)
      ensures !ok ==> info == old(info)
    {
      hide FrameBytes, Load16, Answered, IsTail, Wire;
      var r;
      extra := [];
      r, sent, seen := Request(HELLO, [], true);
      if !r.Accepted? {
        return false, sent, seen, extra;
      }
      extra := r.extra;
      var parsed := ParseInfo(r.extra);
      if parsed.None? || !InfoOk(parsed.value) {
        return false, sent, seen, extra;
      }
      info := parsed;
      ok := true;
    }

    /** One request of an update, noted among the frames sent so far */
    method Send(command: int, payload: seq<u8>, ghost base: seq<seq<u8>>, ghost fs: seq<Frame>)
      returns (r: Reply, ghost sent: seq<Frame>)
      requires Valid() && FrameFits(Frame(1, command, sequence, payload))
      requires AllFit(fs) && transport.written == base + Encoded(crc, fs)
      modifies this`sequence, transport
      ensures Valid()
      ensures sent == fs || sent == fs + [Frame(1, command, old(sequence), payload)]
      ensures AllFit(sent) && transport.written == base + Encoded(crc, sent)
      ensures r.Accepted? ==> sent == fs + [Frame(1, command, old(sequence), payload)]
      ensures r.Accepted? ==> sequence == NextSequence(old(sequence))
    {
      hide FrameBytes, Encoded, Answered, IsTail;
      var f := Frame(1, command, sequence, payload);
      ghost var n, seen;
      r, n, seen := Request(command, payload, false);
      sent := if n == 0 then fs else fs + [f];
      assert Copies(Wire(crc, f), 0) == [];
      if n == 1 {
        assert Copies(Wire(crc, f), 1) == [FrameBytes(crc, f)];
        EncodedAppend(crc, fs, f);
      }
    }

    /** The blocks of the payload, one request after the other, until one is not accepted or has an offset
        that does not fit 32 bits */
    method SendBlocks(payload: seq<u8>, chunk: int, ghost base: seq<seq<u8>>, ghost fs: seq<Frame>)
      returns (p: Progress, ghost sent: seq<Frame>)
      requires Valid() && 0 < chunk <= MAX_PAYLOAD - 4
      requires AllFit(fs) && transport.written == base + Encoded(crc, fs)
      modifies this`sequence, transport
      ensures Valid()
      ensures AllFit(sent) && transport.written == base + Encoded(crc, sent)
      ensures fs <= sent <= fs + Blocks(payload, chunk, old(sequence), 0)
      ensures p == AllSent || p == NoOffset ==> sent == fs + Blocks(payload, chunk, old(sequence), 0)
      ensures p == AllSent ==> Addressable(payload, chunk, 0)
      ensures p == NoOffset ==> !Addressable(payload, chunk, 0)
      ensures p == AllSent ==> sequence == (old(sequence) + |sent| - |fs|) % 0x1_0000
    {
      hide Encoded, FrameFits, Blocks, Store32, BlockEnd, AllFit, Addressable;
      ghost var all := fs + Blocks(payload, chunk, sequence, 0);
      var offset := 0;
      sent := fs;
      while offset < |payload|
        invariant 0 <= offset <= |payload| && Valid()
        invariant AllFit(sent) && transport.written == base + Encoded(crc, sent)
        invariant fs <= sent && all == sent + Blocks(payload, chunk, sequence, offset)
        invariant Addressable(payload, chunk, 0) <==> Addressable(payload, chunk, offset)
        invariant sequence == (old(sequence) + |sent| - |fs|) % 0x1_0000
        decreases |payload| - offset
      {
        AddressableStep(payload, chunk, offset);
        if !IsU32(offset) {
          NoMoreBlocks(payload, chunk, sequence, offset);
          return NoOffset, sent;
        }
        var end := BlockEnd(payload, chunk, offset);
        BlockBounds(payload, chunk, offset);
        var block := Store32(offset) + payload[offset..end];
        RequestFits(WRITE_BLOCK, sequence, block);
        NextBlock(payload, chunk, sequence, offset);
        var r;
        r, sent := Send(WRITE_BLOCK, block, base, sent);
        if !r.Accepted? {
          return NotAccepted, sent;
        }
        offset := end;
      }
      NoMoreBlocks(payload, chunk, sequence, offset);
      AddressableStep(payload, chunk, offset);
      p := AllSent;
    }

    /** The update proper.  If it completes, the frames written are exactly the planned ones; if it does
        not, they are a prefix of those, with at most an abort request after it.  A payload with a block
        whose offset does not fit 32 bits never completes, and is not followed by an abort. */
    method Stream(header: seq<u8>, payload: seq<u8>, chunk: int) returns (ok: bool, ghost sent: seq<Frame>)
      requires Valid() && |header| <= MAX_PAYLOAD && 0 < chunk <= MAX_PAYLOAD - 4
      modifies this`sequence, transport
      ensures Valid()
      ensures AllFit(sent) && transport.written == old(transport.written) + Encoded(crc, sent)
      ensures ok ==> sent == UpdateFrames(header, payload, chunk, old(sequence)) && Addressable(payload, chunk, 0)
      ensures ok ==> sequence == (old(sequence) + |sent|) % 0x1_0000
      ensures !ok ==> Cut(sent, UpdateFrames(header, payload, chunk, old(sequence)))
    {
      hide Encoded, FrameFits, Blocks, AllFit, Cut, UpdateFrames, NextSequence, Addressable;
      ghost var base, plan := transport.written, UpdateFrames(header, payload, chunk, sequence);
      ghost var begin := Frame(1, BEGIN_UPDATE, sequence, header);
      ghost var body := [begin] + Blocks(payload, chunk, NextSequence(sequence), 0);
      PlanParts(header, payload, chunk, sequence);
      NothingSent(crc, base);
      RequestFits(BEGIN_UPDATE, sequence, header);
      var r;
      r, sent := Send(BEGIN_UPDATE, header, base, []);
      if !r.Accepted? {
        Unfinished(sent, plan);
        return false, sent;
      }
      var p;
      p, sent := SendBlocks(payload, chunk, base, [begin]);
      PrefixGrows(sent, body, plan);
      if p == NoOffset {
        Unfinished(sent, plan);
        return false, sent;
      }
      SequenceSum(old(sequence), |sent|);
      ok := false;
      if p == AllSent {
        RequestFits(FINISH_UPDATE, sequence, []);
        r, sent := Send(FINISH_UPDATE, [], base, sent);
        ok := r.Accepted? && |r.extra| == 18;
      }
      if !ok {
        sent := Abort(base, sent, plan);
      }
    }

    /** After a failure the target is told to give the update up, without minding the answer. */
    method Abort(ghost base: seq<seq<u8>>, ghost fs: seq<Frame>, ghost plan: seq<Frame>)
      returns (ghost sent: seq<Frame>)
      requires Valid() && AllFit(fs) && transport.written == base + Encoded(crc, fs)
      requires 0 < |fs| && fs <= plan
      modifies this`sequence, transport
      ensures Valid() && AllFit(sent) && transport.written == base + Encoded(crc, sent) && Cut(sent, plan)
    {
      hide Encoded;
      var ignored;
      ignored, sent := Send(ABORT_UPDATE, [], base, fs);
      if sent == fs {
        Unfinished(sent, plan);
      } else {
        assert sent[..|fs|] == plan[..|fs|];
      }
    }

    /** An update from the package and the target's information.  If it completes, the frames written after
        the greeting are exactly the planned ones; if not, they are none, or a prefix of those with at
        most an abort request after it. */
    method Update(package: Package, blockSize: Option<int>)
      returns (ok: bool, ghost hellos: nat, ghost sent: seq<Frame>)
      requires Valid()
      modifies this, transport
      ensures Valid() && AllFit(sent) && (old(info).Some? ==> hellos == 0)
      ensures transport.written
           == old(transport.written)
              + Copies(Wire(crc, Frame(1, HELLO, old(sequence), [])), hellos) + Encoded(crc, sent)
      ensures ok || sent != [] ==>
        && info.Some? && PackageOk(package, info.value)
        && |package.data| - Split(package) == package.payloadSize
        && 0 < ChunkSize(blockSize, info.value) <= info.value.maxWrite
        && var s0 := if hellos == 0 then old(sequence) else NextSequence(old(sequence));
        && var plan := Plan(package, ChunkSize(blockSize, info.value), s0);
        && (ok ==> sent == plan && sequence == (s0 + |sent|) % 0x1_0000)
        && (ok ==> Addressable(package.data[Split(package)..], ChunkSize(blockSize, info.value), 0))
        && (!ok ==> Cut(sent, plan))
    {
      hide Encoded, FrameBytes, UpdateFrames, Copies, Answered, IsTail, Cut, Wire, Addressable;
      ok, hellos, sent := false, 0, [];
      NothingSent(crc, transport.written);
      NoCopies(Wire(crc, Frame(1, HELLO, sequence, [])));
      if info.None? {
        ghost var seen, extra;
        ok, hellos, seen, extra := Hello();
        NothingSent(crc, transport.written);
        if !ok {
          return;
        }
      }
      ok := false;
      if !PackageOk(package, info.value) {
        return;
      }
      var chunk := ChunkSize(blockSize, info.value);
      if chunk <= 0 || chunk > info.value.maxWrite {
        return;
      }
      var split := Split(package);
      if |package.data| - split != package.payloadSize {
        return;
      }
      ok, sent := Stream(package.data[..split], package.data[split..], chunk);
    }
  }

  function ChunkSize(blockSize: Option<int>, i: Info): int {
    if blockSize.Some? then blockSize.value else i.maxWrite
  }

  /** The frames of an update of a package */
  function Plan(p: Package, chunk: int, sequence: int): seq<Frame>
    requires chunk > 0
  {
    UpdateFrames(p.data[..Split(p)], p.data[Split(p)..], chunk, sequence)
  }

  /** A prefix of a plan, possibly followed by an abort request */
  ghost predicate Cut(sent: seq<Frame>, plan: seq<Frame>) {
    exists k :: 0 <= k <= |plan| && k <= |sent| && sent[..k] == plan[..k]
      && (k == |sent| || (0 < k && |sent| == k + 1 && sent[k].command == ABORT_UPDATE))
  }

  lemma {:induction false} Unfinished(sent: seq<Frame>, plan: seq<Frame>)
    requires sent <= plan
    ensures Cut(sent, plan)
  {
    assert sent[..|sent|] == plan[..|sent|];
  }

  lemma {:induction false} BlockBounds(payload: seq<u8>, chunk: int, offset: nat)
    requires 0 < chunk && offset < |payload|
    ensures offset < BlockEnd(payload, chunk, offset) <= |payload| && BlockEnd(payload, chunk, offset) - offset <= chunk
  {
  }

  lemma {:induction false} PlanParts(header: seq<u8>, payload: seq<u8>, chunk: int, sequence: int)
    requires chunk > 0
    ensures var plan := UpdateFrames(header, payload, chunk, sequence);
            var begin := Frame(1, BEGIN_UPDATE, sequence, header);
            var body := [begin] + Blocks(payload, chunk, NextSequence(sequence), 0);
            && plan == body + [Frame(1, FINISH_UPDATE, (sequence + |body|) % 0x1_0000, [])]
            && body <= plan && [begin] <= plan && [] <= plan && [] + [begin] == [begin] && |plan| == |body| + 1
  {
    hide Blocks;
  }

  lemma {:induction false} SequenceSum(s: int, n: int)
    ensures (NextSequence(s) + n - 1) % 0x1_0000 == (s + n) % 0x1_0000
    ensures NextSequence((s + n) % 0x1_0000) == (s + n + 1) % 0x1_0000
    ensures 0 <= NextSequence(s) < 0x1_0000
  {
  }

  lemma {:induction false} PrefixGrows(a: seq<Frame>, b: seq<Frame>, c: seq<Frame>)
    requires a <= b <= c
    ensures a <= c
  {
  }

  lemma {:induction false} RequestFits(command: int, sequence: int, payload: seq<u8>)
    requires 0 <= command < 0x100 && 0 <= sequence < 0x1_0000 && |payload| <= MAX_PAYLOAD
    ensures FrameFits(Frame(1, command, sequence, payload))
  {
  }

  lemma {:induction false} NothingSent(crc: Checksum, base: seq<seq<u8>>)
    ensures base == base + Encoded(crc, []) && AllFit([])
  {
  }

  lemma {:induction false} NoCopies(frame: seq<u8>)
    ensures Copies(frame, 0) == []
  {
  }

  lemma {:induction false} AddressableStep(payload: seq<u8>, chunk: int, offset: nat)
    requires chunk > 0
    ensures offset >= |payload| ==> Addressable(payload, chunk, offset)
    ensures offset < |payload| ==>
      (Addressable(payload, chunk, offset) <==>
        IsU32(offset) && Addressable(payload, chunk, BlockEnd(payload, chunk, offset)))
  {
  }

  lemma {:induction false} NextBlock(payload: seq<u8>, chunk: int, sequence: int, offset: nat)
    requires chunk > 0 && IsU32(offset) && offset < |payload|
    ensures var end := BlockEnd(payload, chunk, offset);
            var block := Frame(1, WRITE_BLOCK, sequence, Store32(offset) + payload[offset..end]);
            Blocks(payload, chunk, sequence, offset) == [block] + Blocks(payload, chunk, NextSequence(sequence), end)
  {
  }

  lemma {:induction false} NoMoreBlocks(payload: seq<u8>, chunk: int, sequence: int, offset: nat)
    requires chunk > 0 && (offset >= |payload| || !IsU32(offset))
    ensures Blocks(payload, chunk, sequence, offset) == []
  {
  }

  function Copies(frame: seq<u8>, n: nat): seq<seq<u8>> {
    if n == 0 then [] else Copies(frame, n - 1) + [frame]
  }

  lemma {:induction false} CopiesNext(before: seq<seq<u8>>, frame: seq<u8>, n: nat)
    ensures before + Copies(frame, n) + [frame] == before + Copies(frame, n + 1)
  {
  }
}
