/** Moving one piece of a file between two peers: upload_send cuts it into
    packets (peer/p2p.c), piece_download puts them together again
    (peer/peer.c).  Packet data is handled as C strings on the way. */
module Packets {
  import opened Tables

  const MAX_DATA_LEN: nat := 1464

  type Byte = b: int | 0 <= b < 256

  type Bytes = seq<Byte>

  type Codec = Bytes -> Bytes

  /** Decompression undoes compression: all that is assumed of the library. */
  ghost predicate Inverse(compress: Codec, uncompress: Codec) {
    forall s :: uncompress(compress(s)) == s
  }

  /** strlen of a buffer: up to its first zero byte, or all of it. */
  function StrLen(s: Bytes): (n: nat)
    ensures n <= |s|
    ensures forall i :: 0 <= i < n ==> s[i] != 0
    ensures n < |s| ==> s[n] == 0
  {
    if s == [] || s[0] == 0 then 0 else 1 + StrLen(s[1..])
  }

  function Zeros(n: nat): Bytes {
    seq(n, _ => 0)
  }

  /** strncpy: the string in `s`, padded with zeros to the length of `s`. */
  function StrNCpy(s: Bytes): Bytes {
    s[..StrLen(s)] + Zeros(|s| - StrLen(s))
  }

  function PacketCount(size: nat): nat {
    size / MAX_DATA_LEN + if size % MAX_DATA_LEN > 0 then 1 else 0
  }

  function PacketLength(size: nat, i: nat): nat
    requires i < PacketCount(size)
  {
    if size % MAX_DATA_LEN > 0 && i == PacketCount(size) - 1 then size % MAX_DATA_LEN else MAX_DATA_LEN
  }

  /** Both ends compute the same packets, and these tile the piece. */
  lemma PacketsFit(size: nat, i: nat)
    requires i < PacketCount(size)
    ensures 0 < PacketLength(size, i) <= MAX_DATA_LEN
    ensures i * MAX_DATA_LEN + PacketLength(size, i) <= size
    ensures i * MAX_DATA_LEN + PacketLength(size, i) ==
      if i + 1 == PacketCount(size) then size else (i + 1) * MAX_DATA_LEN
  {
  }

  function PacketData(piece: Bytes, i: nat): Bytes
    requires i < PacketCount(|piece|)
  {
    PacketsFit(|piece|, i);
    piece[i * MAX_DATA_LEN..i * MAX_DATA_LEN + PacketLength(|piece|, i)]
  }

  /** What a peer that holds `file` reads for a request; past the end it reads nothing. */
  function ReadAt(file: Bytes, offset: nat, size: nat): Bytes {
    seq(size, k requires 0 <= k < size => if offset + k < |file| then file[offset + k] else 0)
  }

  /** The messages sent for a piece. */
  function Sent(piece: Bytes, compress: Codec): seq<Bytes> {
    seq(PacketCount(|piece|), i requires 0 <= i < PacketCount(|piece|) => compress(StrNCpy(PacketData(piece, i))))
  }

  /** fseek and fread into a zeroed buffer. */
  method ReadPiece(file: Bytes, offset: nat, size: nat) returns (buffer: array<Byte>)
    ensures fresh(buffer) && buffer[..] == ReadAt(file, offset, size)
  {
    buffer := new Byte[size](_ => 0);
    var k := 0;
    while k < size && offset + k < |file|
      invariant 0 <= k <= size && (k > 0 ==> offset + k <= |file|)
      invariant forall j :: 0 <= j < k ==> buffer[j] == file[offset + j]
      invariant forall j :: k <= j < size ==> buffer[j] == 0
    {
      buffer[k] := file[offset + k];
      k := k + 1;
    }
  }

  /** Every compressed packet goes into the data field of a packet struct. */
  ghost predicate FitDataField(wire: seq<Bytes>) {
    forall i :: 0 <= i < |wire| ==> |wire[i]| <= MAX_DATA_LEN
  }

  /** What a source sends for a request: nothing if it cannot open the file, and
      nothing that can be relied on if a compressed packet overruns the data
      field it is copied to. */
  ghost function Uploaded(file: Option<Bytes>, offset: nat, size: nat, compress: Codec): Option<seq<Bytes>> {
    if file.None? then None
    else
      var wire := Sent(ReadAt(file.value, offset, size), compress);
      if FitDataField(wire) then Some(wire) else None
  }

  method UploadSend(file: Option<Bytes>, offset: nat, size: nat, compress: Codec) returns (wire: Option<seq<Bytes>>)
    ensures wire == Uploaded(file, offset, size, compress)
  {
    if file.None? {
      return None;
    }
    var buffer := ReadPiece(file.value, offset, size);
    ghost var piece := ReadAt(file.value, offset, size);
    var pktCount := size / MAX_DATA_LEN;
    var remainderLen := size % MAX_DATA_LEN;
    if remainderLen > 0 {
      pktCount := pktCount + 1;
    }
    var sent: seq<Bytes> := [];
    for i := 0 to pktCount
      invariant buffer[..] == piece
      invariant |sent| == i
      invariant forall j :: 0 <= j < i ==> sent[j] == Sent(piece, compress)[j] && |sent[j]| <= MAX_DATA_LEN
    {
      var length := if remainderLen > 0 && i == pktCount - 1 then remainderLen else MAX_DATA_LEN;
      var source := PacketString(buffer, i, length);
      var compPiece := compress(source);
      if |compPiece| > MAX_DATA_LEN {
        assert Sent(piece, compress)[i] == compPiece;
        return None;
      }
      sent := sent + [compPiece];
    }
    assert sent == Sent(piece, compress);
    wire := Some(sent);
  }

  method PacketString(buffer: array<Byte>, i: nat, length: nat) returns (source: Bytes)
    requires i < PacketCount(buffer.Length) && length == PacketLength(buffer.Length, i)
    ensures source == StrNCpy(PacketData(buffer[..], i))
  {
    PacketsFit(buffer.Length, i);
    source := CopyString(buffer, i * MAX_DATA_LEN, length);
    assert buffer[i * MAX_DATA_LEN..i * MAX_DATA_LEN + length] == PacketData(buffer[..], i);
  }

  /** strncpy of `length` bytes of a buffer into a fresh one. */
  method CopyString(buffer: array<Byte>, start: nat, length: nat) returns (source: Bytes)
    requires start + length <= buffer.Length
    ensures source == StrNCpy(buffer[start..start + length])
  {
    var dest := new Byte[length](_ => 0);
    ghost var s := buffer[start..start + length];
    var k := 0;
    while k < length && buffer[start + k] != 0
      invariant 0 <= k <= length
      invariant forall j :: 0 <= j < k ==> s[j] != 0 && dest[j] == s[j]
      invariant forall j :: k <= j < length ==> dest[j] == 0
    {
      assert buffer[start + k] == s[k];
      dest[k] := buffer[start + k];
      k := k + 1;
    }
    assert k == StrLen(s) by {
      assert k < length ==> s[k] == 0;
    }
    source := dest[..];
    assert source == StrNCpy(s);
  }

  /** Byte `k` of a piece as received: from the string of its packet's message, or zero. */
  function ReceivedByte(wire: seq<Bytes>, uncompress: Codec, k: nat): Byte
    requires k / MAX_DATA_LEN < |wire|
  {
    var data := uncompress(wire[k / MAX_DATA_LEN]);
    var at := k % MAX_DATA_LEN;
    if at < StrLen(data) then data[at] else 0
  }

  /** The piece as received: each message's string at its packet's place, zeros elsewhere. */
  function Reassembled(size: nat, wire: seq<Bytes>, uncompress: Codec): Bytes
    requires |wire| == PacketCount(size)
  {
    seq(size, k requires 0 <= k < size => ReceivedByte(wire, uncompress, k))
  }

  /** Message `i` is there, decompresses into the buffer given to the library, and
      its string stays within the piece. */
  predicate Receivable(size: nat, wire: seq<Bytes>, uncompress: Codec, i: nat)
    requires i < PacketCount(size)
  {
    i < |wire| && |uncompress(wire[i])| <= MAX_DATA_LEN && StrLen(uncompress(wire[i])) <= PacketLength(size, i)
  }

  /** The piece from the messages of a connection; None if one of them is
      missing, is too long for the library's buffer, or overruns the piece. */
  method PieceDownload(size: nat, wire: seq<Bytes>, uncompress: Codec) returns (piece: Option<Bytes>)
    ensures piece.Some? <==> forall i: nat :: i < PacketCount(size) ==> Receivable(size, wire, uncompress, i)
    ensures piece.Some? ==>
      PacketCount(size) <= |wire| && piece.value == Reassembled(size, wire[..PacketCount(size)], uncompress)
  {
    var pktCount := size / MAX_DATA_LEN;
    var remainderLen := size % MAX_DATA_LEN;
    if remainderLen > 0 {
      pktCount := pktCount + 1;
    }
    var buffer := new Byte[size](_ => 0);
    for i := 0 to pktCount
      invariant i <= |wire| && forall j: nat :: j < i ==> Receivable(size, wire, uncompress, j)
      invariant forall k :: 0 <= k < size ==>
        buffer[k] == if k < i * MAX_DATA_LEN then ReceivedByte(wire, uncompress, k) else 0
    {
      PacketsFit(size, i);
      if i == |wire| || |uncompress(wire[i])| > MAX_DATA_LEN {
        assert !Receivable(size, wire, uncompress, i);
        return None;
      }
      var data := uncompress(wire[i]);
      if i * MAX_DATA_LEN + StrLen(data) > size {
        assert !Receivable(size, wire, uncompress, i);
        return None;
      }
      assert StrLen(data) <= PacketLength(size, i);
      PlaceString(buffer, i * MAX_DATA_LEN, data);
      forall k | i * MAX_DATA_LEN <= k < size && k < (i + 1) * MAX_DATA_LEN
        ensures buffer[k] == ReceivedByte(wire, uncompress, k)
      {
        assert k / MAX_DATA_LEN == i && k % MAX_DATA_LEN == k - i * MAX_DATA_LEN;
      }
    }
    assert buffer[..] == Reassembled(size, wire[..pktCount], uncompress);
    piece := Some(buffer[..]);
  }

  /** memmove of the string in `data` into a buffer. */
  method PlaceString(buffer: array<Byte>, start: nat, data: Bytes)
    requires start + StrLen(data) <= buffer.Length
    modifies buffer
    ensures forall k :: 0 <= k < buffer.Length ==>
      buffer[k] == if start <= k < start + StrLen(data) then data[k - start] else old(buffer[k])
  {
    var n := StrLen(data);
    for j := 0 to n
      invariant forall k :: 0 <= k < buffer.Length ==>
        buffer[k] == if start <= k < start + j then data[k - start] else old(buffer[k])
    {
      buffer[start + j] := data[j];
    }
  }

  // ----- what arrives -----

  /** First byte of the packet that byte `k` of a piece travels in. */
  function PacketStart(k: nat): nat {
    k / MAX_DATA_LEN * MAX_DATA_LEN
  }

  /** No zero byte precedes byte `k` in its packet. */
  ghost predicate Survives(piece: Bytes, k: nat)
    requires k < |piece|
  {
    forall i :: PacketStart(k) <= i < k ==> piece[i] != 0
  }

  /** A piece none of whose packets has a non-zero byte after a zero byte. */
  ghost predicate Clean(piece: Bytes) {
    forall k :: 0 <= k < |piece| && piece[k] != 0 ==> Survives(piece, k)
  }

  /** A piece with every packet cut at its first zero byte and filled up with zeros. */
  ghost function Truncated(piece: Bytes): Bytes {
    seq(|piece|, k requires 0 <= k < |piece| => if Survives(piece, k) then piece[k] else 0)
  }

  lemma StrLenOfCopy(s: Bytes)
    ensures StrLen(StrNCpy(s)) == StrLen(s) && |StrNCpy(s)| == |s|
  {
    var n, c := StrLen(s), StrNCpy(s);
    assert forall i :: 0 <= i < n ==> c[i] == s[i] && c[i] != 0;
    assert n < |s| ==> c[n] == 0;
  }

  /** A byte of the piece and its place in its packet. */
  lemma ByteInPacket(piece: Bytes, k: nat)
    requires k < |piece|
    ensures var i, at := k / MAX_DATA_LEN, k % MAX_DATA_LEN;
      && i < PacketCount(|piece|) && at < |PacketData(piece, i)| && PacketData(piece, i)[at] == piece[k]
      && (Survives(piece, k) <==> at <= StrLen(PacketData(piece, i)))
  {
    var i := k / MAX_DATA_LEN;
    PacketsFit(|piece|, i);
    ByteSurvives(piece, i, k % MAX_DATA_LEN);
  }

  /** The receiver ends up with the truncated piece, whatever its contents. */
  lemma TransferTruncates(piece: Bytes, compress: Codec, uncompress: Codec)
    requires Inverse(compress, uncompress)
    ensures Reassembled(|piece|, Sent(piece, compress), uncompress) == Truncated(piece)
  {
    var r := Reassembled(|piece|, Sent(piece, compress), uncompress);
    forall k | 0 <= k < |piece| ensures r[k] == Truncated(piece)[k] {
      ByteInPacket(piece, k);
      StrLenOfCopy(PacketData(piece, k / MAX_DATA_LEN));
    }
  }

  /** A byte is within its packet's string, or is itself the zero that ends it,
      exactly if no zero precedes it there. */
  lemma ByteSurvives(piece: Bytes, i: nat, at: nat)
    requires i < PacketCount(|piece|) && at < |PacketData(piece, i)|
    requires at < MAX_DATA_LEN && i * MAX_DATA_LEN + at < |piece|
    ensures Survives(piece, i * MAX_DATA_LEN + at) <==> at <= StrLen(PacketData(piece, i))
  {
  }

  /** So a piece arrives unharmed exactly if it is clean. */
  lemma ArrivesIffClean(piece: Bytes)
    ensures Truncated(piece) == piece <==> Clean(piece)
  {
  }

  lemma CopyTwice(s: Bytes)
    ensures StrNCpy(StrNCpy(s)) == StrNCpy(s)
  {
    StrLenOfCopy(s);
  }

  /** A packet of the truncated piece is the string of the packet, padded. */
  lemma TruncatedPacket(piece: Bytes, i: nat)
    requires i < PacketCount(|piece|)
    ensures PacketData(Truncated(piece), i) == StrNCpy(PacketData(piece, i))
  {
    var data, cut := PacketData(piece, i), PacketData(Truncated(piece), i);
    PacketsFit(|piece|, i);
    forall at | 0 <= at < |data| ensures cut[at] == StrNCpy(data)[at] {
      var k := i * MAX_DATA_LEN + at;
      assert k / MAX_DATA_LEN == i && k % MAX_DATA_LEN == at;
      ByteInPacket(piece, k);
    }
  }

  /** Nothing that follows a zero byte in its packet ever leaves the source: the
      messages are those of the truncated piece. */
  lemma NothingAfterZeroIsSent(piece: Bytes, compress: Codec)
    ensures Sent(piece, compress) == Sent(Truncated(piece), compress)
  {
    forall i | 0 <= i < PacketCount(|piece|)
      ensures Sent(piece, compress)[i] == Sent(Truncated(piece), compress)[i]
    {
      TruncatedPacket(piece, i);
      CopyTwice(PacketData(piece, i));
    }
  }

  /** What a request to a source brings to the temporary file; the request of a
      source that sends nothing is fatal. */
  ghost function Arrived(file: Option<Bytes>, offset: nat, size: nat, compress: Codec): (r: Option<Bytes>)
    ensures r.Some? ==> |r.value| == size
  {
    if Uploaded(file, offset, size, compress).Some? then Some(Truncated(ReadAt(file.value, offset, size))) else None
  }
}
