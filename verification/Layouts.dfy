/** Records as they lie in memory: what fits into the C structs, and how the
    tracker and a peer turn them into bytes and back (common/constant.h,
    common/pkt.h). */
module Layouts {
  import opened Tables
  import opened Links
  import opened Packets

  const FILE_NAME_LEN := 256
  const IP_LEN := 16
  const SHORT := 0x1_0000
  const INT := 0x1_0000_0000
  const LONG := 0x1_0000_0000_0000_0000

  /** A packet from the tracker to a peer. */
  datatype Record = Record(fileTableSize: int, node: WireNode)

  /** A string and its terminating zero fit into an array of `n` characters. */
  predicate FitsString(s: string, n: nat) {
    |s| < n && forall i :: 0 <= i < |s| ==> 0 < s[i] as int < 256
  }

  predicate FitsNode(n: WireNode) {
    && n.next < LONG
    && FitsString(n.file.name, FILE_NAME_LEN)
    && n.file.version.timestamp < LONG && n.file.version.size < LONG
    && -SHORT <= 2 * n.file.status < SHORT
    && forall i :: 0 <= i < MAX_PEER_NUM ==> FitsString(n.file.slots[i], IP_LEN + 1)
  }

  /** The values the struct's fields can hold. */
  predicate Fits(r: Record) {
    -INT <= 2 * r.fileTableSize < INT && FitsNode(r.node)
  }

  /** How records are turned into bytes and read back. */
  datatype Layout = Layout(write: Record -> Bytes, read: Bytes -> Record, size: nat)

  /** Every record that fits takes the same number of bytes and is read as it was written. */
  ghost predicate Faithful(m: Layout) {
    m.size > 0 && forall r :: Fits(r) ==> |m.write(r)| == m.size && m.read(m.write(r)) == r
  }

  // ----- numbers and strings -----

  /** The `n` bytes of a number, lowest first. */
  function ToWord(n: nat, v: nat): (b: Bytes)
    ensures |b| == n
  {
    if n == 0 then [] else [v % 256] + ToWord(n - 1, v / 256)
  }

  function FromWord(b: Bytes): nat {
    if b == [] then 0 else b[0] + 256 * FromWord(b[1..])
  }

  function Limit(n: nat): (l: nat)
    ensures l > 0
  {
    if n == 0 then 1 else 256 * Limit(n - 1)
  }

  lemma {:induction false} WordReadBack(n: nat, v: nat)
    requires v < Limit(n)
    ensures FromWord(ToWord(n, v)) == v
  {
    if n > 0 {
      WordReadBack(n - 1, v / 256);
      assert ToWord(n, v)[1..] == ToWord(n - 1, v / 256);
    }
  }

  lemma Limits()
    ensures Limit(2) == SHORT && Limit(4) == INT && Limit(8) == LONG
  {
    assert Limit(3) == 0x100_0000 && Limit(5) == 0x100 * INT && Limit(6) == SHORT * INT;
  }

  /** Two's complement. */
  function ToSigned(n: nat, v: int): (b: Bytes)
    ensures |b| == n
  {
    ToWord(n, if v >= 0 then v else if v + Limit(n) >= 0 then v + Limit(n) else 0)
  }

  function FromSigned(b: Bytes): int {
    var u := FromWord(b);
    if 2 * u < Limit(|b|) then u else u - Limit(|b|)
  }

  lemma SignedReadBack(n: nat, v: int)
    requires 0 <= 2 * v + Limit(n) && 2 * v < Limit(n)
    ensures FromSigned(ToSigned(n, v)) == v
  {
    WordReadBack(n, if v >= 0 then v else v + Limit(n));
  }

  /** The characters of a string, and zeros up to the end of its array. */
  function PadString(s: string, n: nat): (b: Bytes)
    ensures |b| == n
  {
    seq(n, i requires 0 <= i < n => if i < |s| then s[i] as int % 256 else 0)
  }

  function ReadString(b: Bytes): string {
    seq(StrLen(b), i requires 0 <= i < StrLen(b) => b[i] as char)
  }

  lemma StringReadBack(s: string, n: nat)
    requires FitsString(s, n)
    ensures ReadString(PadString(s, n)) == s
  {
    var b := PadString(s, n);
    assert b[|s|] == 0;
    assert forall i :: 0 <= i < |s| ==> b[i] == s[i] as int != 0;
    assert StrLen(b) == |s|;
  }

  function TypeCode(t: FileType): nat {
    match t
    case FileNone => 0
    case FileCreate => 3
    case FileModify => 4
    case FileDelete => 5
    case FileOpen => 6
    case FileOpenModify => 7
    case FileDownload => 8
    case FileDownloading => 9
  }

  function TypeOf(code: nat): FileType {
    if code == 3 then FileCreate
    else if code == 4 then FileModify
    else if code == 5 then FileDelete
    else if code == 6 then FileOpen
    else if code == 7 then FileOpenModify
    else if code == 8 then FileDownload
    else if code == 9 then FileDownloading
    else FileNone
  }

  // ----- fields one after the other -----

  function Join(fields: seq<Bytes>): Bytes {
    if fields == [] then [] else fields[0] + Join(fields[1..])
  }

  function Total(widths: seq<nat>): nat {
    if widths == [] then 0 else widths[0] + Total(widths[1..])
  }

  /** The fields of the given widths at the beginning of `b`. */
  function Cut(widths: seq<nat>, b: Bytes): seq<Bytes> {
    if widths == [] || |b| < widths[0] then [] else [b[..widths[0]]] + Cut(widths[1..], b[widths[0]..])
  }

  ghost predicate HaveWidths(fields: seq<Bytes>, widths: seq<nat>) {
    |fields| == |widths| && forall i :: 0 <= i < |widths| ==> |fields[i]| == widths[i]
  }

  lemma {:induction false} CutJoin(fields: seq<Bytes>, widths: seq<nat>)
    requires HaveWidths(fields, widths)
    ensures |Join(fields)| == Total(widths) && Cut(widths, Join(fields)) == fields
    decreases |widths|
  {
    if widths != [] {
      CutJoin(fields[1..], widths[1..]);
      assert Join(fields)[..widths[0]] == fields[0] && Join(fields)[widths[0]..] == Join(fields[1..]);
    }
  }

  // ----- the struct -----

  /** Widths of the fields of a record and of the gaps between them: the count
      and a gap, status and a gap, size, name, timestamp, type and a gap, link,
      the addresses and a gap. */
  const WIDTHS: seq<nat> := [4, 4, 2, 6, 8, 256, 8, 4, 4, 8, 17, 17, 17, 17, 17, 3]

  function Fields(r: Record): seq<Bytes> {
    var e := r.node.file;
    [ToSigned(4, r.fileTableSize), Zeros(4), ToSigned(2, e.status), Zeros(6), ToWord(8, e.version.size),
     PadString(e.name, 256), ToWord(8, e.version.timestamp), ToWord(4, TypeCode(e.ftype)), Zeros(4),
     ToWord(8, r.node.next), PadString(e.slots[0], 17), PadString(e.slots[1], 17), PadString(e.slots[2], 17),
     PadString(e.slots[3], 17), PadString(e.slots[4], 17), Zeros(3)]
  }

  function FromFields(f: seq<Bytes>): Record
    requires |f| == 16
  {
    var slots := [ReadString(f[10]), ReadString(f[11]), ReadString(f[12]), ReadString(f[13]), ReadString(f[14])];
    var version := Version(FromWord(f[6]), FromWord(f[4]));
    var file := Entry(ReadString(f[5]), version, TypeOf(FromWord(f[7])), FromSigned(f[2]), slots);
    Record(FromSigned(f[0]), WireNode(file, FromWord(f[9])))
  }

  function WriteRecord(r: Record): Bytes {
    Join(Fields(r))
  }

  function ReadRecord(b: Bytes): Record {
    var f := Cut(WIDTHS, b);
    if |f| == 16 then FromFields(f) else Record(0, NO_NODE)
  }

  /** The struct on a little-endian machine with 64-bit longs and pointers. */
  function CLayout(): Layout {
    Layout(r => WriteRecord(r), b => ReadRecord(b), Total(WIDTHS))
  }

  lemma SlotsReadBack(slots: Slots)
    requires forall i :: 0 <= i < MAX_PEER_NUM ==> FitsString(slots[i], IP_LEN + 1)
    ensures forall i :: 0 <= i < MAX_PEER_NUM ==> ReadString(PadString(slots[i], 17)) == slots[i]
  {
    forall i | 0 <= i < MAX_PEER_NUM ensures ReadString(PadString(slots[i], 17)) == slots[i] {
      StringReadBack(slots[i], 17);
    }
  }

  lemma NumbersReadBack(r: Record)
    requires Fits(r)
    ensures FromSigned(ToSigned(4, r.fileTableSize)) == r.fileTableSize
    ensures var e := r.node.file;
      && FromSigned(ToSigned(2, e.status)) == e.status
      && FromWord(ToWord(8, e.version.size)) == e.version.size
      && FromWord(ToWord(8, e.version.timestamp)) == e.version.timestamp
      && FromWord(ToWord(8, r.node.next)) == r.node.next
      && TypeOf(FromWord(ToWord(4, TypeCode(e.ftype)))) == e.ftype
  {
    var e := r.node.file;
    Limits();
    SignedReadBack(4, r.fileTableSize);
    SignedReadBack(2, e.status);
    WordReadBack(8, e.version.size);
    WordReadBack(8, e.version.timestamp);
    WordReadBack(4, TypeCode(e.ftype));
    WordReadBack(8, r.node.next);
  }

  lemma FieldsReadBack(r: Record)
    requires Fits(r)
    ensures FromFields(Fields(r)) == r
  {
    var e := r.node.file;
    NumbersReadBack(r);
    StringReadBack(e.name, 256);
    SlotsReadBack(e.slots);
    assert FromFields(Fields(r)).node.file.slots == e.slots;
  }

  lemma RecordReadBack(r: Record, widths: seq<nat>)
    requires Fits(r) && widths == WIDTHS
    ensures |WriteRecord(r)| == Total(widths) && ReadRecord(WriteRecord(r)) == r
  {
    CutJoin(Fields(r), widths);
    FieldsReadBack(r);
  }

  /** There is a faithful layout: the one the structs have. */
  lemma CLayoutIsFaithful()
    ensures Faithful(CLayout())
  {
    var m := CLayout();
    forall r | Fits(r) ensures |m.write(r)| == m.size && m.read(m.write(r)) == r {
      RecordReadBack(r, WIDTHS);
    }
  }
}
