/** The client side of the i3 IPC framing: a 14-byte header (the magic
    "i3-ipc", the payload length, the message type) followed by the payload.
    Words are 32-bit little-endian. The socket is a ByteSource value: the
    bytes the peer sends, the read offset, and for each recv call how many
    bytes the kernel hands over at most. */
module IpcClient {
  import opened Common

  type byte = b: int | 0 <= b < 0x100
  type uint32 = w: int | 0 <= w < 0x1_0000_0000

  /** ipc_magic: the bytes 'i', '3', '-', 'i', 'p', 'c'. */
  const IpcMagic: seq<byte> := [0x69, 0x33, 0x2d, 0x69, 0x70, 0x63]

  /** ipc_header_size: the magic and two 32-bit words. */
  const IpcHeaderSize: nat := |IpcMagic| + 8

  lemma HeaderSizeIs14()
    ensures |IpcMagic| == 6 && IpcHeaderSize == 14
    ensures IpcMagic == ['i' as byte, '3' as byte, '-' as byte, 'i' as byte, 'p' as byte, 'c' as byte]
  {
  }

  /** A word as four bytes, least significant first. */
  function WordBytes(w: uint32): (r: seq<byte>)
    ensures |r| == 4
  {
    [w % 0x100, (w / 0x100) % 0x100, (w / 0x1_0000) % 0x100, w / 0x100_0000]
  }

  /** The word stored little-endian at s[off..off + 4]. */
  function WordAt(s: seq<byte>, off: nat): uint32
    requires off + 4 <= |s|
  {
    s[off] as int + 0x100 * s[off + 1] as int + 0x1_0000 * s[off + 2] as int + 0x100_0000 * s[off + 3] as int
  }

  lemma SplitLowByte(a: int, b: int)
    requires 0 <= a < 0x100
    ensures (a + 0x100 * b) % 0x100 == a && (a + 0x100 * b) / 0x100 == b
  {
  }

  lemma WordBytesRoundTrip(w: uint32)
    ensures WordAt(WordBytes(w), 0) == w
  {
    var b0, q0 := w % 0x100, w / 0x100;
    var b1, q1 := q0 % 0x100, q0 / 0x100;
    var b2, b3 := q1 % 0x100, q1 / 0x100;
    assert w == b0 + 0x100 * q0;
    assert q0 == b1 + 0x100 * q1;
    assert q1 == b2 + 0x100 * b3;
    assert WordBytes(w) == [b0, b1, b2, b3];
  }

  lemma WordAtRoundTrip(s: seq<byte>, off: nat)
    requires off + 4 <= |s|
    ensures WordBytes(WordAt(s, off)) == s[off..off + 4]
  {
    var a0, a1, a2, a3 := s[off] as int, s[off + 1] as int, s[off + 2] as int, s[off + 3] as int;
    var q1 := a1 + 0x100 * (a2 + 0x100 * a3);
    assert WordAt(s, off) == a0 + 0x100 * q1;
    SplitLowByte(a0, q1);
    SplitLowByte(a1, a2 + 0x100 * a3);
    SplitLowByte(a2, a3);
    assert (a0 + 0x100 * q1) / 0x1_0000 == q1 / 0x100;
    assert (a0 + 0x100 * q1) / 0x100_0000 == (a2 + 0x100 * a3) / 0x100;
  }

  /** The header ipc_single_command writes before the payload. */
  function EncodeHeader(len: uint32, msgType: uint32): (h: seq<byte>)
    ensures |h| == IpcHeaderSize
  {
    IpcMagic + WordBytes(len) + WordBytes(msgType)
  }

  /** The two words of a received header. */
  datatype Header = Header(size: uint32, msgType: uint32)

  /** What ipc_recv_response reads out of the header buffer through data32:
      the magic is not looked at. */
  function DecodeHeader(data: seq<byte>): Header
    requires |data| == IpcHeaderSize
  {
    Header(WordAt(data, |IpcMagic|), WordAt(data, |IpcMagic| + 4))
  }

  /** The magic sits at bytes 0..5, the length at 6..9, the type at 10..13. */
  lemma HeaderLayout(len: uint32, msgType: uint32)
    ensures EncodeHeader(len, msgType)[..6] == IpcMagic
    ensures EncodeHeader(len, msgType)[6..10] == WordBytes(len)
    ensures EncodeHeader(len, msgType)[10..14] == WordBytes(msgType)
  {
  }

  /** Decoding an encoded header gives back its length and type. */
  lemma DecodeEncode(len: uint32, msgType: uint32)
    ensures DecodeHeader(EncodeHeader(len, msgType)) == Header(len, msgType)
  {
    var h := EncodeHeader(len, msgType);
    WordBytesRoundTrip(len);
    WordBytesRoundTrip(msgType);
    assert h[6..10] == WordBytes(len);
    assert h[10..14] == WordBytes(msgType);
  }

  /** A header that starts with the magic is the encoding of what it decodes to. */
  lemma EncodeDecode(data: seq<byte>)
    requires |data| == IpcHeaderSize && data[..6] == IpcMagic
    ensures EncodeHeader(DecodeHeader(data).size, DecodeHeader(data).msgType) == data
  {
    WordAtRoundTrip(data, 6);
    WordAtRoundTrip(data, 10);
    assert data == data[..6] + data[6..10] + data[10..14];
  }

  /** The decoder never looks at bytes 0..5: any magic is accepted. */
  lemma MagicNotChecked(a: seq<byte>, b: seq<byte>)
    requires |a| == IpcHeaderSize && |b| == IpcHeaderSize
    requires a[6..] == b[6..]
    ensures DecodeHeader(a) == DecodeHeader(b)
  {
    assert forall i :: 6 <= i < 14 ==> a[i] == a[6..][i - 6] == b[i];
  }

  /** The socket: every byte the peer sends, how many of them were read, and
      for each recv call in turn the most bytes the kernel hands over (a
      negative entry: that call fails; a 0 entry counts as 1, since a
      blocking recv with bytes pending returns at least one), with the
      number of calls made. */
  datatype ByteSource = ByteSource(stream: seq<byte>, pos: nat, grants: seq<int>, calls: nat)

  /** The read offset lies within what the peer sent. */
  predicate Valid(src: ByteSource) { src.pos <= |src.stream| }

  /** The bytes sent and not yet read. */
  function Pending(src: ByteSource): seq<byte>
    requires Valid(src)
  {
    src.stream[src.pos..]
  }

  function Min(a: int, b: int): int { if a < b then a else b }

  /** One blocking recv(fd, buf, max, 0): a negative return, or between 1 and
      max bytes taken from the front of what is pending. A source with no
      grant left, a negative grant, or nothing pending fails. */
  function Recv(src: ByteSource, max: nat): (r: (int, ByteSource))
    requires Valid(src) && max > 0
    ensures r.0 < 0 ||
      (1 <= r.0 <= max && src.pos + r.0 <= |src.stream| && r.1 == src.(pos := src.pos + r.0, calls := src.calls + 1))
    ensures r.0 >= 0 <==> src.calls < |src.grants| && src.grants[src.calls] >= 0 && src.pos < |src.stream|
  {
    if src.calls >= |src.grants| || src.grants[src.calls] < 0 || src.pos >= |src.stream| then (-1, src)
    else
      var n := Min(Min(if src.grants[src.calls] == 0 then 1 else src.grants[src.calls], max), |src.stream| - src.pos);
      (n, src.(pos := src.pos + n, calls := src.calls + 1))
  }

  /** The receive loop for n bytes: the source once n more bytes have been
      read, or None if a recv call fails first. */
  function Pull(src: ByteSource, n: nat): (r: Option<ByteSource>)
    requires Valid(src)
    ensures r.Some? ==>
      && src.pos + n <= |src.stream|
      && r.value.stream == src.stream && r.value.pos == src.pos + n && r.value.grants == src.grants
    decreases n
  {
    if n == 0 then Some(src)
    else
      var (got, rest) := Recv(src, n);
      if got < 0 then None else Pull(rest, n - got as nat)
  }

  /** A peer that has sent enough, and whose next n calls all succeed, lets the loop finish. */
  lemma {:induction false} PullSucceeds(src: ByteSource, n: nat)
    requires src.pos + n <= |src.stream| && src.calls + n <= |src.grants|
    requires forall i :: src.calls <= i < |src.grants| ==> src.grants[i] >= 0
    ensures Pull(src, n).Some?
    decreases n
  {
    if n > 0 {
      var (got, rest) := Recv(src, n);
      PullSucceeds(rest, n - got as nat);
    }
  }

  /** A failing first call ends the loop, and so does a peer that has nothing more to send. */
  lemma PullFailsOnError(src: ByteSource, n: nat)
    requires Valid(src) && n > 0
    requires (src.calls < |src.grants| && src.grants[src.calls] < 0) || src.pos == |src.stream|
    ensures Pull(src, n).None?
  {
  }

  /** A loop for no byte makes no call. */
  lemma PullNothing(src: ByteSource)
    requires Valid(src)
    ensures Pull(src, 0) == Some(src)
  {
  }

  /** struct ipc_response: the declared size and type and the payload buffer. */
  datatype Response = Response(size: uint32, msgType: uint32, payload: seq<byte>)

  /** The header the peer sent at the read offset of src. */
  function HeaderAt(src: ByteSource): Header
    requires src.pos + IpcHeaderSize <= |src.stream|
  {
    DecodeHeader(src.stream[src.pos..src.pos + IpcHeaderSize])
  }

  /** Both loops of ipc_recv_response get their bytes. */
  ghost predicate ResponseArrives(src: ByteSource)
    requires Valid(src)
  {
    var h := Pull(src, IpcHeaderSize);
    h.Some? && Pull(h.value, HeaderAt(src).size).Some?
  }

  /** r is the response the peer sent at the read offset of src and rest the
      source after it: the size and type of its header, and the size payload
      bytes that follow the header with a NUL behind them. */
  ghost predicate IsResponseOf(src: ByteSource, r: Response, rest: ByteSource) {
    && src.pos + IpcHeaderSize <= |src.stream|
    && var hdr := HeaderAt(src);
    && var body := src.pos + IpcHeaderSize;
    && body + hdr.size <= |src.stream|
    && r == Response(hdr.size, hdr.msgType, src.stream[body..body + hdr.size] + [0])
    && rest.stream == src.stream && rest.pos == body + hdr.size
  }

  lemma ArrivesAfterHeader(src: ByteSource, afterHeader: ByteSource, size: uint32)
    requires Valid(src) && Pull(src, IpcHeaderSize) == Some(afterHeader)
    requires HeaderAt(src).size == size
    ensures ResponseArrives(src) <==> Pull(afterHeader, size).Some?
  {
  }

  /** The size+1 bytes of malloc at ipc-client.c:60, as the C computes them:
      in 32-bit unsigned arithmetic. */
  function PayloadAllocSize(size: uint32): (n: uint32)
    ensures size < 0xFFFF_FFFF ==> n == size + 1
  {
    (size + 1) % 0x1_0000_0000
  }

  /** For the largest declared size the buffer gets no byte at all, and the
      write of the terminator at index size is out of bounds. */
  lemma PayloadAllocWraps()
    ensures PayloadAllocSize(0xFFFF_FFFF) == 0
    ensures !(0xFFFF_FFFF < PayloadAllocSize(0xFFFF_FFFF))
  {
  }

  /** Writes chunk into buf at index at, as the recv into buf + total does. The
      chunk is the stream's bytes from offset base + at, so each stored byte
      lands base places before its offset in the stream. */
  method StoreChunk(buf: array<byte>, at: nat, chunk: seq<byte>, ghost stream: seq<byte>, ghost base: nat)
    requires at + |chunk| <= buf.Length && base + at + |chunk| <= |stream|
    requires chunk == stream[base + at..base + at + |chunk|]
    modifies buf
    ensures forall k :: at <= k < at + |chunk| ==> buf[k] == stream[base + k]
    ensures forall k :: 0 <= k < buf.Length && !(at <= k < at + |chunk|) ==> buf[k] == old(buf[k])
  {
    forall k | 0 <= k < |chunk| {
      buf[at + k] := chunk[k];
    }
  }

  /** A successful call moves the loop on: what is left of the loop is the
      loop for the bytes still missing, on what the call left behind. */
  lemma PullStep(rest: ByteSource, m: nat)
    requires Valid(rest) && m > 0 && Recv(rest, m).0 >= 0
    ensures Pull(rest, m) == Pull(Recv(rest, m).1, m - Recv(rest, m).0)
  {
  }

  /** A failing call ends the loop. */
  lemma PullStops(rest: ByteSource, m: nat)
    requires Valid(rest) && m > 0 && Recv(rest, m).0 < 0
    ensures Pull(rest, m).None?
  {
  }

  /** One receive loop of ipc_recv_response (the header loop and the payload
      loop have this form): call recv for the bytes still missing and store
      them at buf + total until n bytes have arrived. false: a call failed and
      the client aborts. */
  method RecvInto(src: ByteSource, buf: array<byte>, n: nat) returns (ok: bool, rest: ByteSource)
    requires Valid(src) && n <= buf.Length
    modifies buf
    ensures ok <==> Pull(src, n).Some?
    ensures ok ==> rest == Pull(src, n).value
    ensures ok ==> src.pos + n <= |src.stream| && forall k :: 0 <= k < n ==> buf[k] == src.stream[src.pos + k]
    ensures forall k :: n <= k < buf.Length ==> buf[k] == old(buf[k])
  {
    ghost var goal := Pull(src, n);
    var total := 0;
    rest := src;
    while total < n
      invariant total <= n
      invariant rest.stream == src.stream && rest.pos == src.pos + total <= |src.stream|
      invariant goal == Pull(rest, n - total)
      invariant forall k :: 0 <= k < total ==> buf[k] == src.stream[src.pos + k]
      invariant forall k :: n <= k < buf.Length ==> buf[k] == old(buf[k])
      decreases n - total
    {
      var (received, after) := Recv(rest, n - total);
      if received < 0 {
        PullStops(rest, n - total);
        return false, after;
      }
      PullStep(rest, n - total);
      var chunk := rest.stream[rest.pos..rest.pos + received];
      StoreChunk(buf, total, chunk, src.stream, src.pos);
      total := total + received;
      rest := after;
    }
    ok := true;
  }

  /** ipc_recv_response: read the header, then exactly the declared number of
      payload bytes, and add a NUL terminator. None: a recv call failed and the
      client aborts. */
  method RecvResponse(src: ByteSource) returns (resp: Option<Response>, rest: ByteSource)
    requires Valid(src)
    ensures resp.Some? <==> ResponseArrives(src)
    ensures resp.Some? ==> IsResponseOf(src, resp.value, rest)
  {
    var data := new byte[IpcHeaderSize];
    var ok;
    ok, rest := RecvInto(src, data, IpcHeaderSize);
    if !ok {
      return None, rest;
    }
    var afterHeader := rest;
    assert data[..] == src.stream[src.pos..src.pos + IpcHeaderSize];
    var hdr := DecodeHeader(data[..]);
    ArrivesAfterHeader(src, afterHeader, hdr.size);
    resp, rest := RecvPayload(afterHeader, hdr);
  }

  /** The second half of ipc_recv_response: a buffer of size + 1 bytes, the
      payload loop, and the NUL terminator at index size. */
  method RecvPayload(src: ByteSource, hdr: Header) returns (resp: Option<Response>, rest: ByteSource)
    requires Valid(src)
    ensures resp.Some? <==> Pull(src, hdr.size).Some?
    ensures resp.Some? ==>
      && src.pos + hdr.size <= |src.stream|
      && rest == Pull(src, hdr.size).value
      && resp.value == Response(hdr.size, hdr.msgType, src.stream[src.pos..src.pos + hdr.size] + [0])
  {
    var size := hdr.size;
    var payload := new byte[size + 1];
    var ok;
    ok, rest := RecvInto(src, payload, size);
    if !ok {
      return None, rest;
    }
    ghost var got := src.stream[src.pos..src.pos + size];
    assert payload[..size] == got;
    payload[size] := 0;
    assert payload[..] == got + [0] by {
      assert payload[..size] == got;
    }
    resp := Some(Response(size, hdr.msgType, payload[..]));
  }

  /** Stores a word little-endian at data[off..off + 4], as data32[i] = w does. */
  method StoreWord(data: array<byte>, off: nat, w: uint32)
    requires off + 4 <= data.Length
    modifies data
    ensures data[..] == old(data[..off]) + WordBytes(w) + old(data[off + 4..])
  {
    var b := WordBytes(w);
    data[off], data[off + 1], data[off + 2], data[off + 3] := b[0], b[1], b[2], b[3];
    assert data[..] == data[..off] + data[off..off + 4] + data[off + 4..];
  }

  /** ipc_single_command: the bytes written (the header, then len bytes of the
      payload), the response payload, and the new *len, the response's
      declared size. None: the response did not arrive and the client aborts. */
  method SingleCommand(src: ByteSource, msgType: uint32, payload: seq<byte>, len: uint32)
    returns (sent: seq<byte>, response: Option<seq<byte>>, newLen: uint32, rest: ByteSource)
    requires Valid(src) && len <= |payload|
    ensures sent == EncodeHeader(len, msgType) + payload[..len]
    ensures response.Some? <==> ResponseArrives(src)
    ensures response.Some? ==>
      && src.pos + IpcHeaderSize <= |src.stream|
      && var hdr := HeaderAt(src);
      && var body := src.pos + IpcHeaderSize;
      && body + hdr.size <= |src.stream|
      && newLen == hdr.size
      && response.value == src.stream[body..body + hdr.size] + [0]
  {
    var data := new byte[IpcHeaderSize];
    forall k | 0 <= k < |IpcMagic| {
      data[k] := IpcMagic[k];
    }
    assert data[..6] == IpcMagic;
    StoreWord(data, |IpcMagic|, len);
    StoreWord(data, |IpcMagic| + 4, msgType);
    assert data[..] == IpcMagic + WordBytes(len) + WordBytes(msgType);
    sent := data[..] + payload[..len];

    var resp;
    resp, rest := RecvResponse(src);
    newLen := len;
    response := None;
    if resp.Some? {
      response := Some(resp.value.payload);
      newLen := resp.value.size;
    }
  }
}
