/** YMODEM packets: how they are laid out on the line and how they are read back (Bootloader/ymodem.c).

    The line is modelled burst by burst: a burst is what one sending call puts out, and after a burst that was cut short
    the reader runs into its timeout. */
module YmodemFraming {
  import opened Bytes
  import opened Checksums

  const SOH: byte := 0x01
  const STX: byte := 0x02
  const EOT: byte := 0x04
  const ACK: byte := 0x06
  const NAK: byte := 0x15
  const CA: byte := 0x18
  const CRC16: byte := 0x43
  const ABORT1: byte := 0x41
  const ABORT2: byte := 0x61
  const PADDING: byte := 0x1A

  const PACKET_SIZE: nat := 128
  const PACKET_1K_SIZE: nat := 1024
  const PACKET_HEADER: nat := 3
  const PACKET_OVERHEAD: nat := 5
  const BUFFER: nat := 1029

  datatype Packet =
    | Garbled                                  // timeout or packet error
    | AbortedByUser
    | AbortedBySender
    | EndOfFile
    | Block(seqNo: byte, payload: seq<byte>)

  function SizeOf(start: byte): nat {
    if start == STX then PACKET_1K_SIZE else PACKET_SIZE
  }

  predicate StartsBlock(line: seq<byte>) {
    |line| > 0 && (line[0] == SOH || line[0] == STX)
  }

  /** What a burst means to the receiver.  The two checksum bytes have to be there but are not looked at. */
  function Parse(line: seq<byte>): Packet {
    if |line| == 0 then Garbled
    else if StartsBlock(line) then
      if |line| < SizeOf(line[0]) + PACKET_OVERHEAD || line[1] != Complement(line[2]) then Garbled
      else Block(line[1], line[PACKET_HEADER..PACKET_HEADER + SizeOf(line[0])])
    else if line[0] == EOT then EndOfFile
    else if line[0] == CA then (if |line| > 1 && line[1] == CA then AbortedBySender else Garbled)
    else if line[0] == ABORT1 || line[0] == ABORT2 then AbortedByUser
    else Garbled
  }

  /** The packet buffer after a burst: a block overwrites its front, even when it is cut short. */
  function Buffered(line: seq<byte>, buf: seq<byte>): (r: seq<byte>)
    requires |buf| == BUFFER
    ensures |r| == BUFFER
  {
    if !StartsBlock(line) then buf
    else
      var k := if |line| < SizeOf(line[0]) + PACKET_OVERHEAD then |line| else SizeOf(line[0]) + PACKET_OVERHEAD;
      line[..k] + buf[k..]
  }

  /** How the caller of Receive_Packet reads its status, length and buffer. */
  function Reading(status: int, length: int, buf: seq<byte>): Packet {
    if status == 1 then AbortedByUser
    else if status != 0 then Garbled
    else if length == -1 then AbortedBySender
    else if length <= 0 || |buf| < PACKET_HEADER + length then EndOfFile
    else Block(buf[1], buf[PACKET_HEADER..PACKET_HEADER + length])
  }

  /** A slice inside the front that a buffer shares with a line. */
  lemma FrontSlice(buf: seq<byte>, line: seq<byte>, rest: seq<byte>, n: nat, from: nat, to: nat)
    requires n <= |line| && buf == line[..n] + rest && from <= to <= n
    ensures buf[from..to] == line[from..to]
    ensures forall k :: 0 <= k < n ==> buf[k] == line[k]
  {
    assert forall k :: 0 <= k < n ==> buf[k] == line[k];
  }

  /** Receive_Packet on one burst. */
  method ReceivePacket(data: array<byte>, line: seq<byte>) returns (status: int, length: int)
    requires data.Length == BUFFER
    modifies data
    ensures data[..] == Buffered(line, old(data[..]))
    ensures Reading(status, length, data[..]) == Parse(line)
    ensures status == 0 ==> length == -1 || length == 0 || length == PACKET_SIZE || length == PACKET_1K_SIZE
    ensures status == 0 && length > 0 ==> Parse(line).Block?
  {
    length := 0;
    if |line| == 0 {
      return -1, length;
    }
    var c := line[0];
    if c == EOT {
      return 0, length;
    } else if c == CA {
      if |line| > 1 && line[1] == CA {
        return 0, -1;
      }
      return -1, length;
    } else if c == ABORT1 || c == ABORT2 {
      return 1, length;
    } else if c != SOH && c != STX {
      return -1, length;
    }
    var packetSize := if c == SOH then PACKET_SIZE else PACKET_1K_SIZE;
    data[0] := c;
    var i := 1;
    while i < packetSize + PACKET_OVERHEAD
      invariant 1 <= i <= packetSize + PACKET_OVERHEAD && i <= |line|
      invariant data[..] == line[..i] + old(data[..])[i..]
    {
      if |line| <= i {
        return -1, length;
      }
      data[i] := line[i];
      i := i + 1;
    }
    if data[1] != Complement(data[2]) {
      return -1, length;
    }
    FrontSlice(data[..], line, old(data[..])[i..], i, PACKET_HEADER, PACKET_HEADER + packetSize);
    return 0, packetSize;
  }

  /** The checksum of a payload: CRC-16 in the original.  Of what the receiver does nothing depends on it. */
  type Checksum = seq<byte> -> word

  /** The two checksum bytes that follow a block, high byte first. */
  function Trailer(sum: Checksum, payload: seq<byte>): (r: seq<byte>)
    ensures |r| == 2
  {
    var crc := sum(payload) as nat;
    [(crc / 0x100) as byte, (crc % 0x100) as byte]
  }

  predicate IsPayload(payload: seq<byte>) {
    |payload| == PACKET_SIZE || |payload| == PACKET_1K_SIZE
  }

  function Head(seqNo: byte, payload: seq<byte>): (r: seq<byte>)
    ensures |r| == PACKET_HEADER
  {
    [if |payload| == PACKET_1K_SIZE then STX else SOH, seqNo, Complement(seqNo)]
  }

  /** A whole block as it is sent. */
  function Frame(sum: Checksum, seqNo: byte, payload: seq<byte>): seq<byte> {
    Head(seqNo, payload) + payload + Trailer(sum, payload)
  }

  /** Byte by byte: the start byte tells the size, the third byte complements the second, and what follows these three
      passes the test of a receiver that runs the CRC-16 over it. */
  lemma FrameChecks(seqNo: byte, payload: seq<byte>)
    requires IsPayload(payload)
    ensures var line := Frame(Crc16, seqNo, payload);
            && |line| == |payload| + 5 && line[0] == (if |payload| == 1024 then 0x02 else 0x01)
            && line[1] == seqNo && line[1] as nat + line[2] as nat == 0xFF
            && line[3..|line| - 2] == payload && Update(0, line[3..]) == 0
  {
    var line, t := Frame(Crc16, seqNo, payload), Trailer(Crc16, payload);
    assert line[3..] == payload + [t[0], t[1]] && line[3..|line| - 2] == payload;
    assert line[0] == Head(seqNo, payload)[0] && line[1] == seqNo && line[2] == Complement(seqNo);
    HighByteFirst(Crc16, payload);
    Divisible(payload, t[0], t[1]);
  }

  lemma HighByteFirst(sum: Checksum, payload: seq<byte>)
    ensures var t := Trailer(sum, payload); 0x100 * t[0] as nat + t[1] as nat == sum(payload) as nat
  {}

  /** Reading a block back recovers its sequence number and payload. */
  lemma ParseFrame(sum: Checksum, seqNo: byte, payload: seq<byte>)
    requires IsPayload(payload)
    ensures Parse(Frame(sum, seqNo, payload)) == Block(seqNo, payload)
  {
    var f := Frame(sum, seqNo, payload);
    assert f[0] == Head(seqNo, payload)[0] && f[1] == seqNo && f[2] == Complement(seqNo);
    assert f[PACKET_HEADER..PACKET_HEADER + |payload|] == payload;
  }

  /** A block that lost any of its tail, even a checksum byte, is never taken for a block. */
  lemma ParseCutFrame(sum: Checksum, seqNo: byte, payload: seq<byte>, k: nat)
    requires IsPayload(payload) && k < |Frame(sum, seqNo, payload)|
    ensures Parse(Frame(sum, seqNo, payload)[..k]) == Garbled
  {
    var f := Frame(sum, seqNo, payload);
    assert f[0] == Head(seqNo, payload)[0];
  }

  /** The payload cut from the front of what is left of a file. */
  function Payload(rest: seq<byte>): (p: seq<byte>)
    ensures IsPayload(p)
  {
    if |rest| >= PACKET_1K_SIZE then rest[..PACKET_1K_SIZE]
    else if |rest| >= PACKET_SIZE then rest[..PACKET_SIZE]
    else rest + Fill(PACKET_SIZE - |rest|, PADDING)
  }

  /** What is left of the file after that payload. */
  function Beyond(rest: seq<byte>): seq<byte> {
    if |rest| > |Payload(rest)| then rest[|Payload(rest)|..] else []
  }

  /** The payloads of a file, in order. */
  function Chunks(file: seq<byte>): seq<seq<byte>>
    decreases |file|
  {
    if file == [] then [] else [Payload(file)] + Chunks(Beyond(file))
  }

  function Concat(chunks: seq<seq<byte>>): seq<byte>
    decreases |chunks|
  {
    if chunks == [] then [] else Concat(chunks[..|chunks| - 1]) + chunks[|chunks| - 1]
  }

  lemma {:induction false} ConcatFront(c: seq<byte>, chunks: seq<seq<byte>>)
    ensures Concat([c] + chunks) == c + Concat(chunks)
    decreases |chunks|
  {
    if chunks == [] {
      assert [c] + chunks == [c] && [c][..0] == [];
      assert Concat([c]) == Concat([]) + c;
    } else {
      var n := |chunks| - 1;
      assert ([c] + chunks)[..n + 1] == [c] + chunks[..n];
      ConcatFront(c, chunks[..n]);
    }
  }

  /** The number of padding bytes that complete a file to whole 128-byte blocks. */
  function PadLength(n: nat): (r: nat)
    ensures r < 128 && (n + r) % 128 == 0
  {
    (128 - n % 128) % 128
  }

  function Padded(file: seq<byte>): seq<byte> {
    file + Fill(PadLength(|file|), PADDING)
  }

  /** The number of blocks: as many of 1024 bytes as fit into the file, then blocks of 128 bytes. */
  function BlockCount(n: nat): nat {
    n / 1024 + (n % 1024 + 127) / 128
  }

  /** How sending one block changes the arithmetic of the rest. */
  lemma BlockCountStep(n: nat, left: nat)
    requires n > 0
    requires left == if n >= 1024 then n - 1024 else if n >= 128 then n - 128 else 0
    ensures BlockCount(n) == 1 + BlockCount(left)
    ensures n >= 128 ==> PadLength(left) == PadLength(n)
    ensures n < 128 ==> PadLength(n) == 128 - n && PadLength(left) == 0
  {
    PadLengthStep(n, left);
    if n >= 1024 {
      var q, r := n / 1024, n % 1024;
      assert left == 1024 * (q - 1) + r;
      assert left / 1024 == q - 1 && left % 1024 == r;
    } else {
      assert n / 1024 == 0 && n % 1024 == n && left / 1024 == 0 && left % 1024 == left;
      assert (n + 127) / 128 == 1 + (left + 127) / 128;
    }
  }

  lemma PadLengthStep(n: nat, left: nat)
    requires n > 0
    requires left == if n >= 1024 then n - 1024 else if n >= 128 then n - 128 else 0
    ensures n >= 128 ==> PadLength(left) == PadLength(n)
    ensures n < 128 ==> PadLength(n) == 128 - n && PadLength(left) == 0
  {
    if n >= 128 {
      var q, r := n / 128, n % 128;
      assert n == 128 * q + r;
      assert left == 128 * (if n >= 1024 then q - 8 else q - 1) + r;
      assert left % 128 == r;
    }
  }

  lemma BeyondLength(rest: seq<byte>)
    requires rest != []
    ensures |Beyond(rest)| == if |rest| >= 1024 then |rest| - 1024 else if |rest| >= 128 then |rest| - 128 else 0
    ensures |rest| >= 128 ==> rest == Payload(rest) + Beyond(rest)
  {}

  lemma {:induction false} ChunksCount(file: seq<byte>)
    ensures |Chunks(file)| == BlockCount(|file|)
    decreases |file|
  {
    if file != [] {
      BeyondLength(file);
      BlockCountStep(|file|, |Beyond(file)|);
      ChunksCount(Beyond(file));
    }
  }

  lemma {:induction false} ChunksArePayloads(file: seq<byte>)
    ensures forall i :: 0 <= i < |Chunks(file)| ==> IsPayload(Chunks(file)[i])
    decreases |file|
  {
    if file != [] {
      ChunksArePayloads(Beyond(file));
    }
  }

  /** The payloads put together are the file and fewer than 128 padding bytes. */
  lemma {:induction false} ChunksCover(file: seq<byte>)
    ensures Concat(Chunks(file)) == Padded(file)
    decreases |file|
  {
    if file != [] {
      var rest := Beyond(file);
      ChunksCover(rest);
      ConcatFront(Payload(file), Chunks(rest));
      BeyondLength(file);
      BlockCountStep(|file|, |rest|);
      assert Payload(file) + Padded(rest) == Padded(file);
    }
  }

  /** The tail of a short block: fill the buffer with padding up to `end`. */
  method PadUpTo(data: array<byte>, first: nat, end: nat)
    requires first <= end <= data.Length
    modifies data
    ensures data[..end] == old(data[..first]) + Fill(end - first, PADDING)
    ensures data[end..] == old(data[end..])
  {
    var i := first;
    while i < end
      invariant first <= i <= end
      invariant data[..i] == old(data[..first]) + Fill(i - first, PADDING)
      invariant data[i..] == old(data[i..])
    {
      data[i] := PADDING;
      i := i + 1;
    }
  }

  /** A buffer that starts with the elements of two strings starts with the strings. */
  lemma Joined(buf: seq<byte>, a: seq<byte>, b: seq<byte>)
    requires |a| + |b| <= |buf|
    requires forall k :: 0 <= k < |a| ==> buf[k] == a[k]
    requires forall k :: |a| <= k < |a| + |b| ==> buf[k] == b[k - |a|]
    ensures buf[..|a| + |b|] == a + b
  {}

  /** The front of a block: its header and as much of the file as fits. */
  method CopyIn(rest: seq<byte>, data: array<byte>, pktNo: byte, packetSize: nat, size: nat)
    requires data.Length == BUFFER && size <= packetSize <= PACKET_1K_SIZE && size <= |rest|
    modifies data
    ensures data[..PACKET_HEADER + size]
            == [if packetSize == PACKET_1K_SIZE then STX else SOH, pktNo, Complement(pktNo)] + rest[..size]
    ensures data[PACKET_HEADER + size..] == old(data[PACKET_HEADER + size..])
  {
    data[0] := if packetSize == PACKET_1K_SIZE then STX else SOH;
    data[1] := pktNo;
    data[2] := Complement(pktNo);
    forall i | PACKET_HEADER <= i < PACKET_HEADER + size {
      data[i] := rest[i - PACKET_HEADER];
    }
    Joined(data[..], [if packetSize == PACKET_1K_SIZE then STX else SOH, pktNo, Complement(pktNo)], rest[..size]);
  }

  /** Ymodem_PreparePacket: fill the packet buffer from the unsent rest of the file. */
  method PreparePacket(rest: seq<byte>, data: array<byte>, pktNo: byte)
    requires data.Length == BUFFER
    modifies data
    ensures data[..PACKET_HEADER + |Payload(rest)|] == Head(pktNo, Payload(rest)) + Payload(rest)
    ensures data[PACKET_HEADER + |Payload(rest)|..] == old(data[PACKET_HEADER + |Payload(rest)|..])
  {
    var packetSize := if |rest| >= PACKET_1K_SIZE then PACKET_1K_SIZE else PACKET_SIZE;
    var size := if |rest| < packetSize then |rest| else packetSize;
    ghost var end := PACKET_HEADER + packetSize;
    ghost var tail := data[PACKET_HEADER + size..];
    CopyIn(rest, data, pktNo, packetSize, size);
    ghost var front := data[..PACKET_HEADER + size];
    assert data[end..] == tail[packetSize - size..];
    PadUpTo(data, size + PACKET_HEADER, packetSize + PACKET_HEADER);
    assert Payload(rest) == rest[..size] + Fill(packetSize - size, PADDING);
    assert front + Fill(packetSize - size, PADDING) == Head(pktNo, Payload(rest)) + Payload(rest);
  }
}
