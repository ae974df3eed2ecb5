/** Fetching one file from several peers: ptp_download splits it into pieces,
    skips those whose temporary files are long enough, and joins the temporary
    files (peer/peer.c). */
module Download {
  import opened Tables
  import opened Packets

  /** Temporary files by piece number; a file that is not there does not exist. */
  type Disk = map<nat, Bytes>

  // ----- the split -----

  const WORD := 0x1_0000_0000_0000_0000

  datatype Split = Split(count: nat, size: nat, rest: nat)

  /** Pieces for a file of `fileSize` bytes and `n` providers.  Without providers
      the divisor is -1, taken for an unsigned number, and no piece is made. */
  function SplitFile(n: nat, fileSize: nat): Split {
    if n == 0 then Split(0, fileSize / (WORD - 1), fileSize % (WORD - 1))
    else if n == 1 then Split(1, fileSize, 0)
    else if n == 2 then Split(2, (fileSize + 1) / 2, fileSize - (fileSize + 1) / 2)
    else Split(n - 1 + (if fileSize % (n - 1) > 0 then 1 else 0), fileSize / (n - 1), fileSize % (n - 1))
  }

  function Offset(sp: Split, i: nat): nat {
    i * sp.size
  }

  function PieceSize(sp: Split, i: nat): nat {
    if sp.rest > 0 && i + 1 == sp.count then sp.rest else sp.size
  }

  /** The pieces follow each other without gap or overlap and end where the file ends. */
  ghost predicate Tiles(sp: Split, fileSize: nat) {
    if sp.count == 0 then fileSize == 0
    else
      && Offset(sp, 0) == 0
      && (forall i :: 0 <= i < sp.count - 1 ==> Offset(sp, i + 1) == Offset(sp, i) + PieceSize(sp, i))
      && Offset(sp, sp.count - 1) + PieceSize(sp, sp.count - 1) == fileSize
  }

  /** The pieces tile the file in every case but two: no provider and a non-empty
      file, and two providers and a single byte.  There are never more pieces
      than providers. */
  lemma SplitTiles(n: nat, fileSize: nat)
    ensures SplitFile(n, fileSize).count <= n && (n > 0 ==> SplitFile(n, fileSize).count > 0)
    ensures Tiles(SplitFile(n, fileSize), fileSize) <==> !(n == 0 && fileSize > 0) && !(n == 2 && fileSize == 1)
  {
    SplitCount(n, fileSize);
    if n <= 1 {
      FewTile(n, fileSize);
    } else if n == 2 {
      TwoTile(fileSize);
    } else {
      RestTile(n, fileSize);
    }
  }

  lemma SplitCount(n: nat, fileSize: nat)
    ensures SplitFile(n, fileSize).count <= n && (n > 0 ==> SplitFile(n, fileSize).count > 0)
  {
  }

  lemma FewTile(n: nat, fileSize: nat)
    requires n <= 1
    ensures Tiles(SplitFile(n, fileSize), fileSize) <==> !(n == 0 && fileSize > 0)
  {
    assert n == 1 ==> Offset(SplitFile(n, fileSize), 0) == 0;
  }

  lemma TwoTile(fileSize: nat)
    ensures Tiles(SplitFile(2, fileSize), fileSize) <==> fileSize != 1
  {
    var sp := SplitFile(2, fileSize);
    assert Offset(sp, 0) == 0 && Offset(sp, 1) == sp.size;
    assert PieceSize(sp, 1) == if sp.rest > 0 then sp.rest else sp.size;
  }

  lemma RestTile(n: nat, fileSize: nat)
    requires n >= 3
    ensures Tiles(SplitFile(n, fileSize), fileSize)
  {
    var size, rest := fileSize / (n - 1), fileSize % (n - 1);
    Divided(n - 1, fileSize);
    ManyTile(n - 1, size, rest, fileSize);
    assert SplitFile(n, fileSize) == Split(n - 1 + (if rest > 0 then 1 else 0), size, rest);
  }

  lemma Divided(p: nat, fileSize: nat)
    requires p > 0
    ensures p * (fileSize / p) + fileSize % p == fileSize
  {
  }

  /** `p` pieces of one size and one of the rest, if any, make up the file. */
  lemma ManyTile(p: nat, size: nat, rest: nat, fileSize: nat)
    requires p > 0 && p * size + rest == fileSize
    ensures Tiles(Split(p + (if rest > 0 then 1 else 0), size, rest), fileSize)
  {
    var sp := Split(p + (if rest > 0 then 1 else 0), size, rest);
    forall i | 0 <= i < sp.count - 1 ensures Offset(sp, i + 1) == Offset(sp, i) + PieceSize(sp, i) {
      Distribute(i, size);
    }
    Distribute(p - 1, size);
  }

  lemma Distribute(i: nat, size: nat)
    ensures (i + 1) * size == i * size + size
  {
  }

  /** How the file is divided.  One provider serves all of it.  Two serve halves,
      the second, if the size is odd, a byte less.  Of more, the first n - 1 serve
      pieces of one size, and the last serves the rest, which is less than n - 1
      bytes, exactly if there is one. */
  lemma SplitShape(n: nat, fileSize: nat)
    requires n >= 1
    ensures var sp := SplitFile(n, fileSize);
      && (n == 1 ==> sp.count == 1 && PieceSize(sp, 0) == fileSize)
      && (n == 2 && fileSize != 1 ==>
            && sp.count == 2 && PieceSize(sp, 0) + PieceSize(sp, 1) == fileSize
            && 0 <= PieceSize(sp, 0) - PieceSize(sp, 1) <= 1)
      && (n >= 3 ==> FirstAreEqual(sp, n - 1) && RestIs(sp, n - 1, fileSize))
  {
    if n == 2 && fileSize != 1 {
      HalvesAre(fileSize);
    } else if n >= 3 {
      ManyAre(n, fileSize);
    }
  }

  lemma HalvesAre(fileSize: nat)
    requires fileSize != 1
    ensures var sp := SplitFile(2, fileSize);
      && sp.count == 2 && PieceSize(sp, 0) + PieceSize(sp, 1) == fileSize
      && 0 <= PieceSize(sp, 0) - PieceSize(sp, 1) <= 1
  {
  }

  lemma ManyAre(n: nat, fileSize: nat)
    requires n >= 3
    ensures FirstAreEqual(SplitFile(n, fileSize), n - 1) && RestIs(SplitFile(n, fileSize), n - 1, fileSize)
  {
    var size, rest := fileSize / (n - 1), fileSize % (n - 1);
    Divided(n - 1, fileSize);
    RestShape(n - 1, size, rest, fileSize);
    assert SplitFile(n, fileSize) == Split(n - 1 + (if rest > 0 then 1 else 0), size, rest);
  }

  /** The first `p` pieces are there and have one size. */
  ghost predicate FirstAreEqual(sp: Split, p: nat) {
    p <= sp.count && forall i: nat :: i < p ==> PieceSize(sp, i) == PieceSize(sp, 0)
  }

  /** There is one piece more exactly if they do not exhaust the file: the rest. */
  ghost predicate RestIs(sp: Split, p: nat, fileSize: nat) {
    var rest := fileSize - p * PieceSize(sp, 0);
    && 0 <= rest < p
    && sp.count == (if rest > 0 then p + 1 else p)
    && (rest > 0 ==> PieceSize(sp, p) == rest)
  }

  lemma RestShape(p: nat, size: nat, rest: nat, fileSize: nat)
    requires p >= 2 && p * size + rest == fileSize && rest < p
    ensures var sp := Split(p + (if rest > 0 then 1 else 0), size, rest);
      FirstAreEqual(sp, p) && RestIs(sp, p, fileSize)
  {
  }

  /** Where piece `i` ends. */
  function End(sp: Split, i: nat): nat {
    Offset(sp, i) + PieceSize(sp, i)
  }

  /** Every byte of the file is in exactly one piece. */
  lemma ByteInOnePiece(sp: Split, fileSize: nat, k: nat)
    requires Tiles(sp, fileSize) && k < fileSize
    ensures exists i: nat :: i < sp.count && Offset(sp, i) <= k < End(sp, i)
    ensures forall i: nat, j: nat :: i < j < sp.count ==> End(sp, i) <= Offset(sp, j)
  {
    var i := sp.count - 1;
    while k < Offset(sp, i)
      invariant 0 <= i < sp.count && k < End(sp, i)
    {
      assert Offset(sp, i) == Offset(sp, i - 1) + PieceSize(sp, i - 1);
      i := i - 1;
    }
    forall i: nat, j: nat | i < j < sp.count ensures End(sp, i) <= Offset(sp, j) {
      Ordered(sp, fileSize, i, j);
    }
  }

  lemma {:induction false} Ordered(sp: Split, fileSize: nat, i: nat, j: nat)
    requires Tiles(sp, fileSize) && i < j < sp.count
    ensures End(sp, i) <= Offset(sp, j)
    decreases j
  {
    assert Offset(sp, j - 1 + 1) == Offset(sp, j - 1) + PieceSize(sp, j - 1);
    if i < j - 1 {
      Ordered(sp, fileSize, i, j - 1);
    }
  }

  // ----- fetching and joining -----

  /** What the providers have of the file, in the order in which they are named:
      its bytes, or None if they cannot open it. */
  type Copies = seq<Option<Bytes>>

  /** What fetching piece `i` brings. */
  ghost function Delivered(serve: Copies, sp: Split, compress: Codec, i: nat): (r: Option<Bytes>)
    requires i < |serve|
    ensures r.Some? ==> |r.value| == PieceSize(sp, i)
  {
    Arrived(serve[i], Offset(sp, i), PieceSize(sp, i), compress)
  }

  function Had(temps: Disk, i: nat): Bytes {
    if i in temps then temps[i] else []
  }

  /** The temporary file of piece `i` once the fetching is over, if it gets that
      far and the file exists then.  New data is appended to what an earlier
      attempt left. */
  ghost function Fetched(serve: Copies, sp: Split, temps: Disk, compress: Codec, i: nat): Option<Bytes>
    requires i < sp.count <= |serve|
  {
    if |Had(temps, i)| < PieceSize(sp, i) then
      var data := Delivered(serve, sp, compress, i);
      if data.Some? then Some(Had(temps, i) + data.value) else None
    else if i in temps then Some(temps[i])
    else None
  }

  /** The first `k` temporary files joined; opening a missing one is fatal. */
  ghost function Joined(serve: Copies, sp: Split, temps: Disk, compress: Codec, k: nat): Option<Bytes>
    requires k <= sp.count <= |serve|
  {
    if k == 0 then Some([])
    else
      var front := Joined(serve, sp, temps, compress, k - 1);
      var last := Fetched(serve, sp, temps, compress, k - 1);
      if front.Some? && last.Some? then Some(front.value + last.value) else None
  }

  ghost function Downloaded(serve: Copies, fileSize: nat, temps: Disk, compress: Codec): Option<Bytes> {
    SplitTiles(|serve|, fileSize);
    var sp := SplitFile(|serve|, fileSize);
    Joined(serve, sp, temps, compress, sp.count)
  }

  /** Each of the first `k` pieces has something to fetch, so that a thread is
      created for it. */
  ghost predicate NoneSkipped(sp: Split, temps: Disk, k: nat) {
    forall i: nat :: i < k ==> |Had(temps, i)| < PieceSize(sp, i)
  }

  /** `joinable` tells whether every thread that is waited for was created. */
  method PtpDownload(serve: Copies, fileSize: nat, temps: Disk, compress: Codec, uncompress: Codec)
    returns (file: Option<Bytes>, joinable: bool)
    requires Inverse(compress, uncompress)
    ensures file == Downloaded(serve, fileSize, temps, compress)
    ensures file.Some? ==> (joinable <==> var sp := SplitFile(|serve|, fileSize); NoneSkipped(sp, temps, sp.count))
  {
    var sp := Divide(|serve|, fileSize);
    SplitTiles(|serve|, fileSize);
    var ok, disk;
    ok, joinable, disk := FetchPieces(serve, sp, temps, compress, uncompress);
    if !ok {
      ghost var i: nat :| i < sp.count && Fatal(serve, sp, temps, compress, i);
      FatalFails(serve, sp, temps, compress, i);
      return None, joinable;
    }
    file := JoinPieces(serve, sp, temps, compress, disk);
  }

  method Divide(providers: nat, fileSize: nat) returns (sp: Split)
    ensures sp == SplitFile(providers, fileSize)
  {
    var peerNum, pieceSize, remainderLen := 1, fileSize, 0;
    if providers == 2 {
      peerNum := 2;
      pieceSize := (fileSize + 1) / 2;
      remainderLen := fileSize - pieceSize;
    } else if providers != 1 {
      peerNum := providers - 1;
      var divisor := if peerNum < 0 then peerNum + WORD else peerNum;
      pieceSize := fileSize / divisor;
      remainderLen := fileSize % divisor;
      if remainderLen > 0 {
        peerNum := peerNum + 1;
      }
    }
    sp := Split(if peerNum < 0 then 0 else peerNum, pieceSize, remainderLen);
  }

  /** `disk` holds the temporary files of the first `k` pieces as fetched, and
      the others as they were. */
  ghost predicate FetchedUpTo(serve: Copies, sp: Split, temps: Disk, compress: Codec, disk: Disk, k: nat)
    requires k <= sp.count <= |serve|
  {
    && (forall j: nat :: j < k ==>
          Fetched(serve, sp, temps, compress, j) == if j in disk then Some(disk[j]) else None)
    && (forall j: nat :: k <= j < sp.count ==> (j in disk <==> j in temps) && (j in temps ==> disk[j] == temps[j]))
  }

  /** Piece `i` has to be fetched and cannot be. */
  ghost predicate Fatal(serve: Copies, sp: Split, temps: Disk, compress: Codec, i: nat)
    requires i < sp.count <= |serve|
  {
    |Had(temps, i)| < PieceSize(sp, i) && Delivered(serve, sp, compress, i).None?
  }

  /** The state of the fetching after `k` pieces, none of which was fatal. */
  ghost predicate FetchState(serve: Copies, sp: Split, temps: Disk, compress: Codec, joinable: bool, disk: Disk, k: nat)
    requires k <= sp.count <= |serve|
  {
    && FetchedUpTo(serve, sp, temps, compress, disk, k)
    && (joinable <==> NoneSkipped(sp, temps, k))
    && (forall i: nat :: i < k ==> !Fatal(serve, sp, temps, compress, i))
  }

  lemma FetchedNext(serve: Copies, sp: Split, temps: Disk, compress: Codec, joinable: bool, disk: Disk, i: nat,
                    piece: Bytes)
    requires i < sp.count <= |serve| && FetchState(serve, sp, temps, compress, joinable, disk, i)
    requires |Had(temps, i)| < PieceSize(sp, i) && Delivered(serve, sp, compress, i) == Some(piece)
    ensures FetchState(serve, sp, temps, compress, joinable, disk[i := Had(temps, i) + piece], i + 1)
  {
  }

  lemma SkippedNext(serve: Copies, sp: Split, temps: Disk, compress: Codec, joinable: bool, disk: Disk, i: nat)
    requires i < sp.count <= |serve| && FetchState(serve, sp, temps, compress, joinable, disk, i)
    requires |Had(temps, i)| >= PieceSize(sp, i)
    ensures FetchState(serve, sp, temps, compress, false, disk, i + 1)
  {
  }

  /** All pieces that are needed are fetched, unless one of them is fatal. */
  method FetchPieces(serve: Copies, sp: Split, temps: Disk, compress: Codec, uncompress: Codec)
    returns (ok: bool, joinable: bool, disk: Disk)
    requires sp.count <= |serve| && Inverse(compress, uncompress)
    ensures ok ==> FetchState(serve, sp, temps, compress, joinable, disk, sp.count)
    ensures !ok ==> exists i: nat :: i < sp.count && Fatal(serve, sp, temps, compress, i)
  {
    ok, joinable, disk := true, true, temps;
    for i := 0 to sp.count
      invariant ok && FetchState(serve, sp, temps, compress, joinable, disk, i)
    {
      ok, joinable, disk := FetchPiece(serve, sp, temps, joinable, disk, i, compress, uncompress);
      if !ok {
        return;
      }
    }
  }

  method FetchPiece(serve: Copies, sp: Split, ghost temps: Disk, joinable: bool, disk: Disk, i: nat,
                    compress: Codec, uncompress: Codec)
    returns (ok: bool, joinable': bool, disk': Disk)
    requires i < sp.count <= |serve| && Inverse(compress, uncompress)
    requires FetchState(serve, sp, temps, compress, joinable, disk, i)
    ensures ok ==> FetchState(serve, sp, temps, compress, joinable', disk', i + 1)
    ensures !ok ==> Fatal(serve, sp, temps, compress, i)
  {
    ok, joinable', disk' := true, joinable, disk;
    var have: Bytes := if i in disk then disk[i] else [];
    var curLength := |have|;
    if (i < sp.count - 1 && curLength < sp.size)
       || (i == sp.count - 1 && curLength < sp.size && sp.rest == 0)
       || (i == sp.count - 1 && curLength < sp.rest && sp.rest > 0)
    {
      var size := if sp.rest > 0 && i == sp.count - 1 then sp.rest else sp.size;
      var piece := Transfer(serve[i], i * sp.size, size, compress, uncompress);
      if piece.None? {
        return false, joinable, disk;
      }
      FetchedNext(serve, sp, temps, compress, joinable, disk, i, piece.value);
      disk' := disk[i := have + piece.value];
    } else {
      SkippedNext(serve, sp, temps, compress, joinable, disk, i);
      joinable' := false;
    }
  }

  /** A fatal piece ends the download. */
  lemma FatalFails(serve: Copies, sp: Split, temps: Disk, compress: Codec, i: nat)
    requires i < sp.count <= |serve| && Fatal(serve, sp, temps, compress, i)
    ensures Joined(serve, sp, temps, compress, sp.count).None?
  {
    JoinedFails(serve, sp, temps, compress, i + 1, sp.count);
  }

  method JoinPieces(ghost serve: Copies, sp: Split, ghost temps: Disk, ghost compress: Codec, disk: Disk)
    returns (file: Option<Bytes>)
    requires sp.count <= |serve| && FetchedUpTo(serve, sp, temps, compress, disk, sp.count)
    ensures file == Joined(serve, sp, temps, compress, sp.count)
  {
    var joined: Bytes := [];
    for i := 0 to sp.count
      invariant Joined(serve, sp, temps, compress, i) == Some(joined)
    {
      JoinOne(serve, sp, temps, compress, disk, i);
      if i !in disk {
        return None;
      }
      joined := joined + disk[i];
    }
    file := Some(joined);
  }

  lemma JoinOne(serve: Copies, sp: Split, temps: Disk, compress: Codec, disk: Disk, i: nat)
    requires i < sp.count <= |serve| && FetchedUpTo(serve, sp, temps, compress, disk, sp.count)
    requires Joined(serve, sp, temps, compress, i).Some?
    ensures i in disk ==>
      Joined(serve, sp, temps, compress, i + 1) == Some(Joined(serve, sp, temps, compress, i).value + disk[i])
    ensures i !in disk ==> Joined(serve, sp, temps, compress, sp.count).None?
  {
    if i !in disk {
      JoinedFails(serve, sp, temps, compress, i + 1, sp.count);
    }
  }

  lemma {:induction false} JoinedFails(serve: Copies, sp: Split, temps: Disk, compress: Codec, k: nat, n: nat)
    requires k <= n <= sp.count <= |serve| && Joined(serve, sp, temps, compress, k).None?
    ensures Joined(serve, sp, temps, compress, n).None?
    decreases n
  {
    if k < n {
      JoinedFails(serve, sp, temps, compress, k, n - 1);
    }
  }

  /** One piece, from the provider's disk to the temporary file. */
  method Transfer(file: Option<Bytes>, offset: nat, size: nat, compress: Codec, uncompress: Codec)
    returns (piece: Option<Bytes>)
    requires Inverse(compress, uncompress)
    ensures piece == Arrived(file, offset, size, compress)
  {
    var wire := UploadSend(file, offset, size, compress);
    if wire.None? {
      return None;
    }
    forall i: nat | i < PacketCount(size) ensures Receivable(size, wire.value, uncompress, i) {
      PacketsFit(size, i);
      StrLenOfCopy(PacketData(ReadAt(file.value, offset, size), i));
    }
    piece := PieceDownload(size, wire.value, uncompress);
    assert wire.value[..PacketCount(size)] == wire.value;
    TransferTruncates(ReadAt(file.value, offset, size), compress, uncompress);
  }

  /** Provider `i` is asked exactly for piece `i`, if there is one whose temporary
      file is too short; what the others have makes no difference. */
  lemma {:induction false} JoinedAsksOnly(serve: Copies, other: Copies, sp: Split, temps: Disk, compress: Codec, k: nat)
    requires k <= sp.count <= |serve| == |other|
    requires forall i: nat :: i < sp.count && |Had(temps, i)| < PieceSize(sp, i) ==> serve[i] == other[i]
    ensures Joined(serve, sp, temps, compress, k) == Joined(other, sp, temps, compress, k)
  {
    if k > 0 {
      JoinedAsksOnly(serve, other, sp, temps, compress, k - 1);
    }
  }

  lemma DownloadAsksOnly(serve: Copies, other: Copies, fileSize: nat, temps: Disk, compress: Codec)
    requires |serve| == |other|
    requires var sp := SplitFile(|serve|, fileSize);
      forall i: nat :: i < sp.count && i < |serve| && |Had(temps, i)| < PieceSize(sp, i) ==> serve[i] == other[i]
    ensures Downloaded(serve, fileSize, temps, compress) == Downloaded(other, fileSize, temps, compress)
  {
    var sp := SplitFile(|serve|, fileSize);
    SplitTiles(|serve|, fileSize);
    JoinedAsksOnly(serve, other, sp, temps, compress, sp.count);
  }

  // ----- when the download is the file -----

  /** The part of the file that piece `i` stands for. */
  function Slice(src: Bytes, sp: Split, i: nat): Bytes {
    ReadAt(src, Offset(sp, i), PieceSize(sp, i))
  }

  /** Piece `i` comes out right: its temporary file is complete and correct
      already, or it is absent or empty, there is something to fetch, and what
      provider `i` delivers is that part of the file. */
  ghost predicate GoodPiece(serve: Copies, src: Bytes, sp: Split, temps: Disk, compress: Codec, i: nat)
    requires i < |serve|
  {
    || (i in temps && temps[i] == Slice(src, sp, i))
    || (PieceSize(sp, i) > 0 && Had(temps, i) == [] && Delivered(serve, sp, compress, i) == Some(Slice(src, sp, i)))
  }

  ghost predicate AllGood(serve: Copies, src: Bytes, sp: Split, temps: Disk, compress: Codec)
    requires sp.count <= |serve|
  {
    forall i: nat :: i < sp.count ==> GoodPiece(serve, src, sp, temps, compress, i)
  }

  lemma FetchedIsSliceIffGood(serve: Copies, src: Bytes, sp: Split, temps: Disk, compress: Codec, i: nat)
    requires i < sp.count <= |serve|
    ensures var f := Fetched(serve, sp, temps, compress, i);
      && (f.Some? ==> |f.value| >= PieceSize(sp, i))
      && (f == Some(Slice(src, sp, i)) <==> GoodPiece(serve, src, sp, temps, compress, i))
  {
    var have, data := Had(temps, i), Delivered(serve, sp, compress, i);
    if |have| < PieceSize(sp, i) && data.Some? {
      assert |have + data.value| == |have| + |data.value|;
      if have == [] { assert have + data.value == data.value; }
    }
  }

  lemma SlicesJoin(src: Bytes, sp: Split, i: nat)
    requires Tiles(sp, |src|) && i < sp.count
    ensures End(sp, i) <= |src|
    ensures Slice(src, sp, i) == src[Offset(sp, i)..End(sp, i)]
    ensures End(sp, i) == if i + 1 == sp.count then |src| else Offset(sp, i + 1)
    ensures src[..Offset(sp, i)] + Slice(src, sp, i) == src[..End(sp, i)]
  {
    if i < sp.count - 1 {
      Ordered(sp, |src|, i, sp.count - 1);
    }
  }

  /** If all pieces so far are good, what is joined so far is that much of the file. */
  lemma {:induction false} GoodPiecesJoin(serve: Copies, src: Bytes, sp: Split, temps: Disk, compress: Codec, k: nat)
    requires Tiles(sp, |src|) && k < sp.count <= |serve| && AllGood(serve, src, sp, temps, compress)
    ensures End(sp, k) <= |src| && Joined(serve, sp, temps, compress, k + 1) == Some(src[..End(sp, k)])
  {
    FetchedIsSliceIffGood(serve, src, sp, temps, compress, k);
    SlicesJoin(src, sp, k);
    if k > 0 {
      GoodPiecesJoin(serve, src, sp, temps, compress, k - 1);
      SlicesJoin(src, sp, k - 1);
    } else {
      assert src[..Offset(sp, 0)] == [];
    }
  }

  /** What is joined is never shorter than the pieces it stands for. */
  lemma {:induction false} JoinedIsLong(serve: Copies, sp: Split, temps: Disk, compress: Codec, k: nat)
    requires k < sp.count <= |serve| && Joined(serve, sp, temps, compress, k + 1).Some?
    ensures |Joined(serve, sp, temps, compress, k + 1).value| >= End(sp, k)
  {
    FetchedIsSliceIffGood(serve, [], sp, temps, compress, k);
    if k > 0 {
      JoinedIsLong(serve, sp, temps, compress, k - 1);
      Distribute(k - 1, sp.size);
    }
  }

  /** Two parts that join to a sequence are its parts. */
  lemma SplitAt(front: Bytes, last: Bytes, all: Bytes)
    requires front + last == all
    ensures |front| <= |all| && front == all[..|front|] && last == all[|front|..]
  {
  }

  lemma LastIsGood(serve: Copies, src: Bytes, sp: Split, temps: Disk, compress: Codec, k: nat)
    requires Tiles(sp, |src|) && k < sp.count <= |serve|
    requires End(sp, k) <= |src| && Joined(serve, sp, temps, compress, k + 1) == Some(src[..End(sp, k)])
    ensures GoodPiece(serve, src, sp, temps, compress, k)
    ensures Offset(sp, k) <= |src| && Joined(serve, sp, temps, compress, k) == Some(src[..Offset(sp, k)])
  {
    var front := Joined(serve, sp, temps, compress, k).value;
    var last := Fetched(serve, sp, temps, compress, k).value;
    FetchedIsSliceIffGood(serve, src, sp, temps, compress, k);
    SlicesJoin(src, sp, k);
    SplitAt(front, last, src[..End(sp, k)]);
    if k > 0 {
      JoinedIsLong(serve, sp, temps, compress, k - 1);
      SlicesJoin(src, sp, k - 1);
    }
    assert |front| == Offset(sp, k);
  }

  /** And if it is the file's beginning, and no longer than that, every piece was good. */
  lemma {:induction false} JoinedNeedsGood(serve: Copies, src: Bytes, sp: Split, temps: Disk, compress: Codec,
                                           k: nat, i: nat)
    requires Tiles(sp, |src|) && i <= k < sp.count <= |serve|
    requires End(sp, k) <= |src| && Joined(serve, sp, temps, compress, k + 1) == Some(src[..End(sp, k)])
    ensures GoodPiece(serve, src, sp, temps, compress, i)
    decreases k
  {
    LastIsGood(serve, src, sp, temps, compress, k);
    if i < k {
      SlicesJoin(src, sp, k - 1);
      JoinedNeedsGood(serve, src, sp, temps, compress, k - 1, i);
    }
  }

  /** For any split that tiles the file, joining yields the file exactly if every piece is good. */
  lemma JoinedIsFileIff(serve: Copies, src: Bytes, sp: Split, temps: Disk, compress: Codec)
    requires Tiles(sp, |src|) && sp.count <= |serve|
    ensures Joined(serve, sp, temps, compress, sp.count) == Some(src) <==> AllGood(serve, src, sp, temps, compress)
  {
    if sp.count > 0 {
      var last := sp.count - 1;
      assert End(sp, last) == |src| && src[..|src|] == src;
      if Joined(serve, sp, temps, compress, sp.count) == Some(src) {
        forall i: nat | i < sp.count ensures GoodPiece(serve, src, sp, temps, compress, i) {
          JoinedNeedsGood(serve, src, sp, temps, compress, last, i);
        }
      } else if AllGood(serve, src, sp, temps, compress) {
        GoodPiecesJoin(serve, src, sp, temps, compress, last);
      }
    }
  }

  /** With two providers a single byte comes out as two bytes, if at all. */
  lemma OneByteFromTwoFails(serve: Copies, src: Bytes, temps: Disk, compress: Codec)
    requires |serve| == 2 && |src| == 1
    ensures Downloaded(serve, |src|, temps, compress) != Some(src)
  {
    var sp := Split(2, 1, 0);
    assert SplitFile(2, 1) == sp && End(sp, 1) == 2;
    if Joined(serve, sp, temps, compress, 2).Some? {
      JoinedIsLong(serve, sp, temps, compress, 1);
    }
  }

  /** End to end, whatever the providers have: the download is the file exactly if
      the split is one that tiles and every piece is good.  Without providers it
      is the empty file. */
  lemma DownloadIsFileIff(serve: Copies, src: Bytes, temps: Disk, compress: Codec)
    ensures SplitFile(|serve|, |src|).count <= |serve|
    ensures Downloaded(serve, |src|, temps, compress) == Some(src) <==>
      && !(serve == [] && src != []) && !(|serve| == 2 && |src| == 1)
      && AllGood(serve, src, SplitFile(|serve|, |src|), temps, compress)
    ensures serve == [] ==> Downloaded(serve, |src|, temps, compress) == Some([])
  {
    SplitTiles(|serve|, |src|);
    if |serve| == 2 && |src| == 1 {
      OneByteFromTwoFails(serve, src, temps, compress);
    } else if serve != [] || src == [] {
      JoinedIsFileIff(serve, src, SplitFile(|serve|, |src|), temps, compress);
    }
  }

  /** Enough bytes for every provider asked to have something to send. */
  predicate EnoughBytes(n: nat, size: nat) {
    size >= if n <= 2 then n else n - 1
  }

  lemma PiecesNonEmptyIff(n: nat, size: nat)
    requires n >= 1
    ensures var sp := SplitFile(n, size);
      && (EnoughBytes(n, size) ==> forall i: nat :: i < sp.count ==> PieceSize(sp, i) > 0)
      && (!EnoughBytes(n, size) ==> (n == 2 && size == 1) || (sp.count > 0 && PieceSize(sp, 0) == 0))
  {
  }

  /** Every piece is delivered as it is in the file. */
  ghost predicate AllDelivered(serve: Copies, src: Bytes, sp: Split, compress: Codec)
    requires sp.count <= |serve|
  {
    forall i: nat :: i < sp.count ==> Delivered(serve, sp, compress, i) == Some(Slice(src, sp, i))
  }

  lemma FreshPieceIsGoodIff(serve: Copies, src: Bytes, sp: Split, compress: Codec, i: nat)
    requires i < |serve|
    ensures GoodPiece(serve, src, sp, map[], compress, i) <==>
      PieceSize(sp, i) > 0 && Delivered(serve, sp, compress, i) == Some(Slice(src, sp, i))
  {
  }

  lemma FreshPiecesAreGoodIff(serve: Copies, src: Bytes, sp: Split, compress: Codec)
    requires sp.count <= |serve|
    ensures AllGood(serve, src, sp, map[], compress) <==>
      (forall i: nat :: i < sp.count ==> PieceSize(sp, i) > 0) && AllDelivered(serve, src, sp, compress)
  {
    forall i: nat | i < sp.count
      ensures GoodPiece(serve, src, sp, map[], compress, i) <==>
        PieceSize(sp, i) > 0 && Delivered(serve, sp, compress, i) == Some(Slice(src, sp, i))
    {
      FreshPieceIsGoodIff(serve, src, sp, compress, i);
    }
  }

  /** A download that starts from nothing is the file exactly if there is a byte
      for every piece, which four bytes ensure, and every provider delivers its
      piece of the file; a non-empty file needs a provider.  No piece is skipped
      on the way to it. */
  lemma FreshDownloadIsFileIff(serve: Copies, src: Bytes, compress: Codec)
    requires |serve| <= MAX_PEER_NUM
    ensures SplitFile(|serve|, |src|).count <= |serve|
    ensures Downloaded(serve, |src|, map[], compress) == Some(src) <==>
      && (serve == [] ==> src == []) && EnoughBytes(|serve|, |src|)
      && AllDelivered(serve, src, SplitFile(|serve|, |src|), compress)
    ensures |src| >= MAX_PEER_NUM - 1 ==> EnoughBytes(|serve|, |src|)
    ensures Downloaded(serve, |src|, map[], compress) == Some(src) ==>
      var sp := SplitFile(|serve|, |src|); NoneSkipped(sp, map[], sp.count)
  {
    DownloadIsFileIff(serve, src, map[], compress);
    FreshPiecesAreGoodIff(serve, src, SplitFile(|serve|, |src|), compress);
    if serve != [] {
      PiecesNonEmptyIff(|serve|, |src|);
    }
  }

  // ----- what a provider delivers -----

  /** A provider that holds the file delivers a piece of it unharmed exactly if
      the piece is clean and its compressed packets fit their data field. */
  lemma HolderDeliversIff(serve: Copies, src: Bytes, sp: Split, compress: Codec, i: nat)
    requires i < |serve| && serve[i] == Some(src)
    ensures Delivered(serve, sp, compress, i) == Some(Slice(src, sp, i)) <==>
      Clean(Slice(src, sp, i)) && FitDataField(Sent(Slice(src, sp, i), compress))
  {
    ArrivesIffClean(Slice(src, sp, i));
  }

  /** Where its file has ended, because it holds another version, a provider
      delivers zeros, as many as asked for, and nobody notices. */
  lemma ZerosPastTheEnd(serve: Copies, file: Bytes, sp: Split, compress: Codec, i: nat)
    requires i < |serve| && serve[i] == Some(file)
    ensures var d := Delivered(serve, sp, compress, i);
      d.Some? ==>
        && |d.value| == PieceSize(sp, i)
        && forall k :: 0 <= k < |d.value| && |file| <= Offset(sp, i) + k ==> d.value[k] == 0
    ensures |file| <= Offset(sp, i) && FitDataField(Sent(Zeros(PieceSize(sp, i)), compress)) ==>
      Delivered(serve, sp, compress, i) == Some(Zeros(PieceSize(sp, i)))
  {
    if |file| <= Offset(sp, i) {
      assert ReadAt(file, Offset(sp, i), PieceSize(sp, i)) == Zeros(PieceSize(sp, i));
      assert Truncated(Zeros(PieceSize(sp, i))) == Zeros(PieceSize(sp, i));
    }
  }

  /** A provider that cannot open it, asked for a piece, ends the download and
      the process with it. */
  lemma UnopenedIsFatal(serve: Copies, fileSize: nat, temps: Disk, compress: Codec, i: nat)
    requires var sp := SplitFile(|serve|, fileSize);
      i < sp.count <= |serve| && serve[i] == None && |Had(temps, i)| < PieceSize(sp, i)
    ensures Downloaded(serve, fileSize, temps, compress) == None
  {
    FatalFails(serve, SplitFile(|serve|, fileSize), temps, compress, i);
  }

  /** When all providers hold the file, a download from nothing is the file
      exactly if there is a byte for every piece and all pieces are clean and fit. */
  lemma EqualProvidersServeIff(n: nat, src: Bytes, compress: Codec)
    requires 0 < n <= MAX_PEER_NUM
    ensures var sp := SplitFile(n, |src|);
      Downloaded(seq(n, _ => Some(src)), |src|, map[], compress) == Some(src) <==>
        && EnoughBytes(n, |src|)
        && forall i: nat :: i < sp.count ==>
             Clean(Slice(src, sp, i)) && FitDataField(Sent(Slice(src, sp, i), compress))
  {
    var serve, sp := seq(n, _ => Some(src)), SplitFile(n, |src|);
    FreshDownloadIsFileIff(serve, src, compress);
    forall i: nat | i < sp.count
      ensures Delivered(serve, sp, compress, i) == Some(Slice(src, sp, i)) <==>
        Clean(Slice(src, sp, i)) && FitDataField(Sent(Slice(src, sp, i), compress))
    {
      HolderDeliversIff(serve, src, sp, compress, i);
    }
  }
}
