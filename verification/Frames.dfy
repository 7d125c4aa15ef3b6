/**
  The framing of the update protocol and the reader that finds frames in a byte stream.  Reads may
  return any part of what is asked for; the reader is proved to find the first frame whatever the
  fragmentation, and to take no byte past it.
 */
module Frames {
  import opened Common
  import opened Limbs

  /** "SUPD" */
  const MAGIC: seq<u8> := [0x53, 0x55, 0x50, 0x44]
  const MAX_PAYLOAD: int := 1024

  datatype Frame = Frame(version: int, command: int, sequence: int, payload: seq<u8>)

  datatype Decoding = Decoded(frame: Frame) | Malformed | BadChecksum

  type Checksum = seq<u8> -> u32

  // ----- the codec

  predicate FrameFits(f: Frame) {
    0 <= f.version < 0x100 && 0 <= f.command < 0x100 && 0 <= f.sequence < 0x1_0000 && |f.payload| <= MAX_PAYLOAD
  }

  function HeaderBytes(f: Frame): (b: seq<u8>)
    requires FrameFits(f)
    ensures |b| == 10
  {
    MAGIC + [f.version, f.command] + Store16(f.sequence) + Store16(|f.payload|)
  }

  function FrameBytes(crc: Checksum, f: Frame): (b: seq<u8>)
    requires FrameFits(f)
    ensures |b| == 14 + |f.payload|
  {
    HeaderBytes(f) + f.payload + Store32(crc(HeaderBytes(f) + f.payload))
  }

  /** A request, always of version 1; numbers that do not fit and long payloads are refused */
  function EncodeFrame(crc: Checksum, command: int, sequence: int, payload: seq<u8>): Option<seq<u8>> {
    var f := Frame(1, command, sequence, payload);
    if FrameFits(f) then Some(FrameBytes(crc, f)) else None
  }

  function DecodeFrame(crc: Checksum, b: seq<u8>): Decoding {
    if |b| < 14 || b[..4] != MAGIC then Malformed
    else
      var length := Load16(b[8..10]);
      if length > MAX_PAYLOAD || |b| != 14 + length then Malformed
      else if crc(b[..10 + length]) != Load32(b[10 + length..]) then BadChecksum
      else Decoded(Frame(b[4], b[5], Load16(b[6..8]), b[10..10 + length]))
  }

  lemma {:induction false} DecodeEncode(crc: Checksum, f: Frame)
    requires FrameFits(f)
    ensures DecodeFrame(crc, FrameBytes(crc, f)) == Decoded(f)
  {
    hide Load16, Store16, Load32, Store32;
    var b := FrameBytes(crc, f);
    assert b[..4] == MAGIC && b[6..8] == Store16(f.sequence) && b[8..10] == Store16(|f.payload|);
    Store16Load16(f.sequence);
    Store16Load16(|f.payload|);
    assert b[..10 + |f.payload|] == HeaderBytes(f) + f.payload && b[10..10 + |f.payload|] == f.payload;
    Store32Load32(crc(HeaderBytes(f) + f.payload), b[10 + |f.payload|..]);
  }

  lemma {:induction false} EncodeDecode(crc: Checksum, b: seq<u8>)
    requires DecodeFrame(crc, b).Decoded?
    ensures FrameFits(DecodeFrame(crc, b).frame) && FrameBytes(crc, DecodeFrame(crc, b).frame) == b
  {
    hide Load16, Store16, Load32, Store32;
    var f := DecodeFrame(crc, b).frame;
    Load16Store16(b[6..8]);
    Load16Store16(b[8..10]);
    var n := 10 + |f.payload|;
    assert b[..n] == HeaderBytes(f) + f.payload by {
      assert b[..n] == b[..4] + [b[4], b[5]] + b[6..8] + b[8..10] + b[10..n];
    }
    Store32Inverse(b[n..]);
    assert b == b[..n] + b[n..];
  }

  // ----- the first frame in a stream

  predicate MagicAt(s: seq<u8>, i: int) {
    0 <= i && i + 4 <= |s| && s[i..i + 4] == MAGIC
  }

  /** Where the magic first stands */
  function FirstMagic(s: seq<u8>): (i: Option<nat>)
    ensures i.Some? ==> MagicAt(s, i.value) && forall j :: 0 <= j < i.value ==> !MagicAt(s, j)
    ensures i.None? ==> forall j :: !MagicAt(s, j)
  {
    FirstMagicFrom(s, 0)
  }

  function FirstMagicFrom(s: seq<u8>, k: nat): (i: Option<nat>)
    requires k <= |s| + 1
    ensures i.Some? ==> k <= i.value && MagicAt(s, i.value) && forall j :: k <= j < i.value ==> !MagicAt(s, j)
    ensures i.None? ==> forall j :: k <= j ==> !MagicAt(s, j)
    decreases |s| + 1 - k
  {
    if k + 4 > |s| then None else if MagicAt(s, k) then Some(k) else FirstMagicFrom(s, k + 1)
  }

  datatype Reading = Received(frame: Frame) | TooLarge | Corrupt | TimedOut

  /** What reading a stream gives once all of it has arrived: the outcome and the bytes it takes, or
      nothing if the stream ends before the first frame does */
  function FirstFrame(crc: Checksum, s: seq<u8>): Option<(Reading, nat)> {
    match FirstMagic(s)
    case None => None
    case Some(i) =>
      if |s| < i + 10 then None
      else
        var length := Load16(s[i + 8..i + 10]);
        if length > MAX_PAYLOAD then Some((TooLarge, i + 10))
        else if |s| < i + 14 + length then None
        else
          match DecodeFrame(crc, s[i..i + 14 + length])
          case Decoded(f) => Some((Received(f), i + 14 + length))
          case _ => Some((Corrupt, i + 14 + length))
  }

  /** The magic cannot overlap itself: bytes without it, followed by it, have it only at the end. */
  lemma {:induction false} MagicAfterJunk(junk: seq<u8>, rest: seq<u8>, j: int)
    requires forall i :: !MagicAt(junk, i)
    requires |rest| >= 4 && rest[..4] == MAGIC
    ensures 0 <= j < |junk| ==> !MagicAt(junk + rest, j)
    ensures MagicAt(junk + rest, |junk|)
  {
    var s := junk + rest;
    assert s[|junk|..|junk| + 4] == rest[..4];
    if 0 <= j < |junk| {
      if j + 4 <= |junk| {
        assert s[j..j + 4] == junk[j..j + 4] && !MagicAt(junk, j);
      } else {
        var k := |junk| - j;
        assert s[j..j + 4][k] == rest[..4][0] && MAGIC[k] != MAGIC[0];
      }
    }
  }

  /** Junk without the magic, an encoded frame, then anything: the first frame is that frame, and
      exactly the junk and the frame are taken. */
  lemma {:induction false} FrameAfterJunk(crc: Checksum, junk: seq<u8>, f: Frame, tail: seq<u8>)
    requires FrameFits(f) && forall i :: !MagicAt(junk, i)
    ensures FirstFrame(crc, junk + FrameBytes(crc, f) + tail) == Some((Received(f), |junk| + |FrameBytes(crc, f)|))
  {
    hide Load16, Store16, Load32, Store32, DecodeFrame, FirstMagicFrom;
    var b := FrameBytes(crc, f);
    var s, n := junk + b + tail, |junk|;
    assert s == junk + (b + tail) && (b + tail)[..4] == MAGIC;
    forall j ensures 0 <= j < n ==> !MagicAt(s, j) {
      MagicAfterJunk(junk, b + tail, j);
    }
    MagicAfterJunk(junk, b + tail, 0);
    assert FirstMagic(s) == Some(n);
    assert s[n + 8..n + 10] == b[8..10] && b[8..10] == Store16(|f.payload|);
    Store16Load16(|f.payload|);
    assert s[n..n + 14 + |f.payload|] == b;
    DecodeEncode(crc, f);
  }

  // ----- reading under a deadline

  /** How many of the reads before the deadline return something */
  function Live(ticks: seq<nat>): nat {
    if ticks == [] then 0 else (if ticks[0] > 0 then 1 else 0) + Live(ticks[1..])
  }

  /** What is left of a stream after some bytes have been taken */
  predicate IsTail(rest: seq<u8>, all: seq<u8>) {
    |rest| <= |all| && rest == all[|all| - |rest|..]
  }

  lemma {:induction false} TailOfSum(taken: seq<u8>, rest: seq<u8>)
    ensures IsTail(rest, taken + rest)
  {
  }

  lemma {:induction false} SliceIsTail(s: seq<u8>, n: nat)
    requires n <= |s|
    ensures IsTail(s[n..], s)
  {
  }

  lemma {:induction false} TailOfTail(a: seq<u8>, b: seq<u8>, c: seq<u8>)
    requires IsTail(a, b) && IsTail(b, c)
    ensures IsTail(a, c)
  {
    assert a == c[|c| - |b|..][|b| - |a|..];
  }

  /** A byte stream.  `input` is what will arrive; each read before the deadline takes one entry of
      `ticks`, the number of bytes at hand at that moment. */
  class Transport {
    var input: seq<u8>
    var ticks: seq<nat>
    var written: seq<seq<u8>>
    ghost var timeouts: nat

    constructor (input: seq<u8>)
      ensures this.input == input && ticks == [] && written == [] && timeouts == 0
    {
      this.input, ticks, written, timeouts := input, [], [], 0;
    }

    /** A new deadline: any number of reads, each returning anything, may happen before it */
    method StartTimer()
      modifies this`ticks
    {
      ticks := *;
    }

    /** Writes a whole frame, or fails */
    method Write(frame: seq<u8>) returns (complete: bool)
      modifies this`written
      ensures written == if complete then old(written) + [frame] else old(written)
    {
      complete := *;
      if complete {
        written := written + [frame];
      }
    }

    method Read(size: nat) returns (chunk: seq<u8>)
      requires ticks != []
      modifies this`input, this`ticks
      ensures ticks == old(ticks)[1..]
      ensures |chunk| <= size && old(input) == chunk + input
      ensures old(ticks)[0] > 0 && size > 0 && old(input) != [] ==> chunk != []
    {
      var n := if ticks[0] <= size then ticks[0] else size;
      n := if n <= |input| then n else |input|;
      chunk := input[..n];
      input := input[n..];
      ticks := ticks[1..];
    }

    method ReadOne() returns (b: Option<u8>)
      modifies this`input, this`ticks
      ensures |ticks| <= |old(ticks)|
      ensures b.Some? ==> old(input) == [b.value] + input
      ensures b.None? ==> ticks == [] && input == old(input)
      ensures old(input) != [] ==> Live(old(ticks)) <= Live(ticks) + (if b.Some? then 1 else 0)
    {
      while ticks != []
        invariant input == old(input) && |ticks| <= |old(ticks)|
        invariant old(input) != [] ==> Live(old(ticks)) <= Live(ticks)
        decreases |ticks|
      {
        var chunk := Read(1);
        if chunk != [] {
          assert chunk == [chunk[0]];
          return Some(chunk[0]);
        }
      }
      b := None;
    }

    method ReadExact(length: nat) returns (r: Option<seq<u8>>)
      modifies this`input, this`ticks
      ensures r.Some? ==> |r.value| == length && old(input) == r.value + input
      ensures r.None? ==> ticks == [] && |input| <= |old(input)| < |input| + length
      ensures IsTail(input, old(input))
      ensures |old(input)| >= length ==> Live(old(ticks)) + |input| <= Live(ticks) + |old(input)|
    {
      var chunks: seq<u8> := [];
      while |chunks| < length
        invariant |chunks| <= length && old(input) == chunks + input
        invariant |old(input)| >= length ==> Live(old(ticks)) <= Live(ticks) + |chunks|
        decreases |ticks|, length - |chunks|
      {
        if ticks == [] {
          TailOfSum(chunks, input);
          return None;
        }
        var chunk := Read(length - |chunks|);
        chunks := chunks + chunk;
      }
      TailOfSum(chunks, input);
      r := Some(chunks);
    }
  }

  /** The last four of the first n bytes, or all of them */
  function Window(s: seq<u8>, n: nat): seq<u8>
    requires n <= |s|
  {
    if n < 4 then s[..n] else s[n - 4..n]
  }

  lemma {:induction false} WindowNext(s: seq<u8>, n: nat)
    requires n < |s|
    ensures var w := Window(s, n) + [s[n]]; Window(s, n + 1) == if |w| > 4 then w[|w| - 4..] else w
    ensures Window(s, n + 1) == MAGIC <==> MagicAt(s, n - 3)
  {
  }

  /** A chunk taken off the front of what is left of a stream */
  lemma {:induction false} Advance(s: seq<u8>, k: nat, chunk: seq<u8>, rest: seq<u8>)
    requires k <= |s| && s[k..] == chunk + rest
    ensures k + |chunk| <= |s| && s[k..k + |chunk|] == chunk && rest == s[k + |chunk|..]
  {
    assert |s[k..]| == |chunk| + |rest|;
    assert s[k..k + |chunk|] == s[k..][..|chunk|];
    assert s[k + |chunk|..] == s[k..][|chunk|..];
  }

  lemma {:induction false} Joined(s: seq<u8>, i: nat, j: nat, k: nat)
    requires i <= j <= k <= |s|
    ensures s[i..k] == s[i..j] + s[j..k]
  {
  }

  /** Reading byte by byte until the last four are the magic: the stream is then just past its first one */
  method Synchronise(t: Transport) returns (found: bool)
    modifies t`input, t`ticks
    ensures !found ==> t.ticks == []
    ensures var at := FirstMagic(old(t.input));
            if found then
              && at.Some? && t.input == old(t.input)[at.value + 4..]
              && Live(old(t.ticks)) <= Live(t.ticks) + at.value + 4
            else at.Some? ==> Live(old(t.ticks)) < at.value + 4
    ensures IsTail(t.input, old(t.input))
  {
    hide Live, MagicAt, FirstMagic, Window, NoneWithin, IsTail;
    var sync: seq<u8> := [];
    ghost var s, n := t.input, 0;
    ghost var at := FirstMagic(s);
    StartOfStream(s);
    while true
      invariant 0 <= n <= |s| && t.input == s[n..] && sync == Window(s, n)
      invariant NoneWithin(s, n)
      invariant at.Some? ==> Live(old(t.ticks)) <= Live(t.ticks) + n
      decreases |t.input|
    {
      MagicAhead(s, n);
      var b := t.ReadOne();
      if b.None? {
        NoTicks(t.ticks);
        SliceIsTail(s, n);
        return false;
      }
      Advance(s, n, [b.value], t.input);
      WindowNext(s, n);
      assert [s[n]] == s[n..n + 1];
      sync := sync + [b.value];
      if |sync| > 4 {
        sync := sync[|sync| - 4..];
      }
      n := n + 1;
      if sync == MAGIC {
        FoundFirst(s, n);
        SliceIsTail(s, n);
        return true;
      }
      StillNone(s, n);
    }
  }

  lemma {:induction false} StartOfStream(s: seq<u8>)
    ensures s == s[0..] && Window(s, 0) == [] && NoneWithin(s, 0)
  {
  }

  predicate NoneWithin(s: seq<u8>, n: nat) {
    forall j :: 0 <= j && j + 4 <= n ==> !MagicAt(s, j)
  }

  lemma {:induction false} MagicAhead(s: seq<u8>, n: nat)
    requires NoneWithin(s, n)
    ensures FirstMagic(s).Some? ==> n < FirstMagic(s).value + 4 <= |s|
  {
  }

  lemma {:induction false} FoundFirst(s: seq<u8>, n: nat)
    requires n > 0 && NoneWithin(s, n - 1) && MagicAt(s, n - 4)
    ensures FirstMagic(s) == Some((n - 4) as nat)
  {
  }

  lemma {:induction false} StillNone(s: seq<u8>, n: nat)
    requires n > 0 && NoneWithin(s, n - 1) && !MagicAt(s, n - 4)
    ensures NoneWithin(s, n)
  {
  }

  /** The frame reader.  It gives up only at the deadline; otherwise its outcome is that of the first
      frame of the stream, whatever the fragmentation, and the rest of the stream is left.  It does
      not time out if enough reads before the deadline return something. */
  method ReadFrame(crc: Checksum, t: Transport) returns (r: Reading)
    modifies t`input, t`ticks, t`timeouts
    ensures r == TimedOut ==> t.ticks == []
    ensures t.timeouts == old(t.timeouts) + if r == TimedOut then 1 else 0
    ensures IsTail(t.input, old(t.input))
    ensures var first := FirstFrame(crc, old(t.input));
            if r == TimedOut then first.Some? ==> Live(old(t.ticks)) < first.value.1
            else
              && first.Some? && r == first.value.0
              && first.value.1 <= |old(t.input)| && t.input == old(t.input)[first.value.1..]
  {
    hide Load16, DecodeFrame, Live, FirstMagic, MagicAt, IsTail;
    ghost var s := t.input;
    var found := Synchronise(t);
    if !found {
      t.timeouts := t.timeouts + 1;
      return TimedOut;
    }
    ghost var i := FirstMagic(s).value;
    MagicBounds(s, i);
    ghost var s4 := t.input;
    var rest := t.ReadExact(6);
    TailOfTail(t.input, s4, s);
    if rest.None? {
      NoTicks(t.ticks);
      t.timeouts := t.timeouts + 1;
      return TimedOut;
    }
    Advance(s, i + 4, rest.value, t.input);
    Joined(s, i, i + 4, i + 10);
    var header := MAGIC + rest.value;
    LengthField(s, i, header);
    var length := Load16(header[8..10]);
    if length > MAX_PAYLOAD {
      return TooLarge;
    }
    ghost var s10 := t.input;
    var more := t.ReadExact(length + 4);
    TailOfTail(t.input, s10, s);
    if more.None? {
      NoTicks(t.ticks);
      t.timeouts := t.timeouts + 1;
      return TimedOut;
    }
    Advance(s, i + 10, more.value, t.input);
    Joined(s, i, i + 10, i + 14 + length);
    match DecodeFrame(crc, header + more.value)
    case Decoded(f) => r := Received(f);
    case _ => r := Corrupt;
  }

  /** After junk without the magic, exactly the frame that was sent is received and nothing past it is
      taken, whatever the fragmentation, unless too few reads before the deadline return something. */
  method ReadSentFrame(crc: Checksum, t: Transport, ghost junk: seq<u8>, ghost f: Frame, ghost tail: seq<u8>)
    returns (r: Reading)
    requires FrameFits(f) && (forall i :: !MagicAt(junk, i)) && t.input == junk + FrameBytes(crc, f) + tail
    modifies t`input, t`ticks, t`timeouts
    ensures r == TimedOut || (r == Received(f) && t.input == tail)
    ensures Live(old(t.ticks)) >= |junk| + |FrameBytes(crc, f)| ==> r == Received(f) && t.input == tail
  {
    hide FirstFrame, FrameBytes, Live, IsTail, MagicAt;
    FrameAfterJunk(crc, junk, f, tail);
    ghost var n := |junk + FrameBytes(crc, f)|;
    assert t.input[n..] == tail;
    r := ReadFrame(crc, t);
  }

  lemma {:induction false} MagicBounds(s: seq<u8>, i: nat)
    requires MagicAt(s, i)
    ensures i + 4 <= |s| && s[i..i + 4] == MAGIC
  {
  }

  lemma {:induction false} LengthField(s: seq<u8>, i: nat, header: seq<u8>)
    requires i + 10 <= |s| && s[i..i + 10] == header
    ensures header[8..10] == s[i + 8..i + 10]
  {
  }

  lemma {:induction false} NoTicks(ticks: seq<nat>)
    requires ticks == []
    ensures Live(ticks) == 0
  {
  }
}
