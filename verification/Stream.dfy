/** The byte stream from the tracker to a peer: fixed-size records written by
    tracker_sendpkt and read back by peer_recvpkt (common/pkt.c). */
module Stream {
  import opened Tables
  import opened Packets
  import opened Links
  import opened Layouts

  /** The nodes fit into the struct, and so does their number. */
  predicate Sendable(l: seq<WireNode>) {
    2 * |l| < INT && forall k :: 0 <= k < |l| ==> FitsNode(l[k])
  }

  function NodeBytes(m: Layout, l: seq<WireNode>): Bytes {
    if l == [] then [] else m.write(Record(-1, l[0])) + NodeBytes(m, l[1..])
  }

  function TableBytes(m: Layout, l: seq<WireNode>): Bytes {
    m.write(Record(|l|, NO_NODE)) + NodeBytes(m, l)
  }

  lemma {:induction false} NodeBytesSnoc(m: Layout, l: seq<WireNode>, k: nat)
    requires k < |l|
    ensures NodeBytes(m, l[..k + 1]) == NodeBytes(m, l[..k]) + m.write(Record(-1, l[k]))
  {
    var r := m.write(Record(-1, l[k]));
    if k == 0 {
      assert l[..1] == [l[0]] && l[..1][1..] == [] && l[..0] == [];
      assert NodeBytes(m, l[..1]) == r + [];
    } else {
      NodeBytesSnoc(m, l[1..], k - 1);
      assert l[..k + 1][1..] == l[1..][..k] && l[..k][1..] == l[1..][..k - 1];
      var h := m.write(Record(-1, l[0]));
      assert h + (NodeBytes(m, l[1..][..k - 1]) + r) == (h + NodeBytes(m, l[1..][..k - 1])) + r;
    }
  }

  /** What the tracker adds to the stream for one table. */
  method TrackerSendPkt(m: Layout, l: seq<WireNode>) returns (bytes: Bytes)
    ensures bytes == TableBytes(m, l)
  {
    var fileCount := 0;
    while fileCount < |l|
      invariant fileCount <= |l|
    {
      fileCount := fileCount + 1;
    }
    bytes := m.write(Record(fileCount, NO_NODE));
    for k := 0 to |l|
      invariant bytes == m.write(Record(|l|, NO_NODE)) + NodeBytes(m, l[..k])
    {
      NodeBytesSnoc(m, l, k);
      bytes := bytes + m.write(Record(-1, l[k]));
    }
    assert l[..|l|] == l;
  }

  /** Read one record byte by byte; None when the stream ends before that. */
  method Receiver(stream: Bytes, bufsize: nat) returns (buf: Option<Bytes>, rest: Bytes)
    requires bufsize > 0
    ensures |stream| >= bufsize ==> buf == Some(stream[..bufsize]) && rest == stream[bufsize..]
    ensures |stream| < bufsize ==> buf == None
  {
    var bytes := new Byte[bufsize](_ => 0);
    var idx := 0;
    rest := stream;
    while rest != []
      invariant 0 <= idx < bufsize && idx <= |stream| && rest == stream[idx..]
      invariant forall j :: 0 <= j < idx ==> bytes[j] == stream[j]
    {
      bytes[idx] := rest[0];
      rest := rest[1..];
      if idx == bufsize - 1 {
        assert bytes[..] == stream[..bufsize];
        return Some(bytes[..]), rest;
      }
      idx := idx + 1;
    }
    buf := None;
  }

  /** Reading `n` further nodes onto what has been received. */
  function RecvNodes(m: Layout, stream: Bytes, n: nat, sofar: Chain): Option<(Chain, Bytes)> {
    if n == 0 then Some((sofar, stream))
    else if |stream| < m.size then None
    else
      var r := m.read(stream[..m.size]);
      RecvNodes(m, stream[m.size..], n - 1, Extend(sofar, r.node))
  }

  function RecvTable(m: Layout, stream: Bytes): Option<(Chain, Bytes)> {
    if |stream| < m.size then None
    else
      var n := m.read(stream[..m.size]).fileTableSize;
      RecvNodes(m, stream[m.size..], if n < 0 then 0 else n, EMPTY)
  }

  method PeerRecvPkt(m: Layout, stream: Bytes) returns (table: Option<(Chain, Bytes)>)
    requires m.size > 0
    ensures table == RecvTable(m, stream)
  {
    var buf, rest := Receiver(stream, m.size);
    if buf.None? {
      return None;
    }
    var fileTableSize := m.read(buf.value).fileTableSize;
    var chain := EMPTY;
    var counter := 0;
    while counter < fileTableSize
      invariant 0 <= counter && (counter <= fileTableSize || counter == 0)
      invariant RecvTable(m, stream) ==
        RecvNodes(m, rest, if fileTableSize < counter then 0 else fileTableSize - counter, chain)
    {
      buf, rest := Receiver(rest, m.size);
      if buf.None? {
        return None;
      }
      var r := m.read(buf.value);
      chain := Extend(chain, r.node);
      counter := counter + 1;
    }
    table := Some((chain, rest));
  }

  lemma {:induction false} NodesArrive(m: Layout, l: seq<WireNode>, rest: Bytes, sofar: Chain)
    requires Faithful(m) && forall k :: 0 <= k < |l| ==> FitsNode(l[k])
    ensures RecvNodes(m, NodeBytes(m, l) + rest, |l|, sofar) ==
      Some((Chain(sofar.files + Files(l), if l == [] then sofar.last else l[|l| - 1].next), rest))
    decreases |l|
  {
    if l == [] {
      assert NodeBytes(m, l) + rest == rest && sofar.files + Files(l) == sofar.files;
    } else {
      var w, r := m.write(Record(-1, l[0])), Record(-1, l[0]);
      var stream, after := NodeBytes(m, l) + rest, NodeBytes(m, l[1..]) + rest;
      assert Fits(r);
      assert stream == w + after;
      assert stream[..m.size] == w && stream[m.size..] == after;
      NodesArrive(m, l[1..], rest, Extend(sofar, r.node));
      assert (sofar.files + [l[0].file]) + Files(l[1..]) == sofar.files + Files(l);
    }
  }

  /** One table is read back as sent, and just its bytes are taken; the list ends
      properly exactly if it did at the tracker. */
  lemma TableArrives(m: Layout, l: seq<WireNode>, rest: Bytes)
    requires Faithful(m) && Sendable(l)
    ensures RecvTable(m, TableBytes(m, l) + rest) == Some((Linked(l), rest))
  {
    var r := Record(|l|, NO_NODE);
    var w, after := m.write(r), NodeBytes(m, l) + rest;
    var stream := TableBytes(m, l) + rest;
    assert Fits(r);
    assert stream == w + after;
    assert stream[..m.size] == w && stream[m.size..] == after;
    NodesArrive(m, l, rest, EMPTY);
    assert [] + Files(l) == Files(l);
  }

  /** `n` records of a stream take this much, and what is left of them once one is
      read takes as much less. */
  lemma OneLess(m: Layout, n: nat)
    requires n > 0
    ensures n * m.size == m.size + (n - 1) * m.size
  {
  }

  /** Reading further nodes succeeds exactly if as many whole records are there. */
  lemma {:induction false} NodesReadIff(m: Layout, stream: Bytes, n: nat, sofar: Chain)
    ensures RecvNodes(m, stream, n, sofar).Some? <==> n * m.size <= |stream|
    ensures n * m.size <= |stream| ==>
      var c := RecvNodes(m, stream, n, sofar).value;
      && |c.0.files| == |sofar.files| + n && c.1 == stream[n * m.size..]
    decreases n
  {
    if n > 0 {
      OneLess(m, n);
      Product(n - 1, m.size);
      if |stream| >= m.size {
        var r := m.read(stream[..m.size]);
        NodesReadIff(m, stream[m.size..], n - 1, Extend(sofar, r.node));
        if n * m.size <= |stream| {
          assert stream[m.size..][(n - 1) * m.size..] == stream[n * m.size..];
        }
      }
    }
  }

  lemma Product(a: nat, b: nat)
    ensures a * b >= 0
  {
  }

  /** Reading a table succeeds exactly if its header and the announced number of
      whole records are there, none if the number is negative; it takes just
      those, and the table has just as many nodes.  A stream that ends before that
      ends the peer. */
  lemma TableReadIff(m: Layout, stream: Bytes)
    ensures |stream| < m.size ==> RecvTable(m, stream) == None
    ensures |stream| >= m.size ==>
      var size := m.read(stream[..m.size]).fileTableSize;
      var n := if size < 0 then 0 else size;
      && (RecvTable(m, stream).Some? <==> m.size + n * m.size <= |stream|)
      && (m.size + n * m.size <= |stream| ==>
            && |RecvTable(m, stream).value.0.files| == n
            && RecvTable(m, stream).value.1 == stream[m.size..][n * m.size..])
  {
    if |stream| >= m.size {
      var size := m.read(stream[..m.size]).fileTableSize;
      NodesReadIff(m, stream[m.size..], if size < 0 then 0 else size, EMPTY);
    }
  }

  function AllBytes(m: Layout, ls: seq<seq<WireNode>>): Bytes {
    if ls == [] then [] else TableBytes(m, ls[0]) + AllBytes(m, ls[1..])
  }

  /** `n` tables read one after the other. */
  function RecvTables(m: Layout, stream: Bytes, n: nat): Option<(seq<Chain>, Bytes)>
    decreases n
  {
    if n == 0 then Some(([], stream))
    else
      var first := RecvTable(m, stream);
      if first.None? then None
      else
        var more := RecvTables(m, first.value.1, n - 1);
        if more.None? then None else Some(([first.value.0] + more.value.0, more.value.1))
  }

  /** Round trip of back-to-back tables on one stream. */
  lemma {:induction false} StreamRoundTrip(m: Layout, ls: seq<seq<WireNode>>, rest: Bytes)
    requires Faithful(m) && forall i :: 0 <= i < |ls| ==> Sendable(ls[i])
    ensures RecvTables(m, AllBytes(m, ls) + rest, |ls|) == Some((AllLinked(ls), rest))
    decreases |ls|
  {
    if ls == [] {
      assert AllBytes(m, ls) + rest == rest && AllLinked(ls) == [];
    } else {
      var after := AllBytes(m, ls[1..]) + rest;
      assert AllBytes(m, ls) + rest == TableBytes(m, ls[0]) + after;
      TableArrives(m, ls[0], after);
      StreamRoundTrip(m, ls[1..], rest);
      assert AllLinked(ls) == [Linked(ls[0])] + AllLinked(ls[1..]);
    }
  }

  /** In particular with the structs as they lie in memory. */
  lemma StructsRoundTrip(m: Layout, ls: seq<seq<WireNode>>, rest: Bytes)
    requires m == CLayout() && forall i :: 0 <= i < |ls| ==> Sendable(ls[i])
    ensures RecvTables(m, AllBytes(m, ls) + rest, |ls|) == Some((AllLinked(ls), rest))
  {
    CLayoutIsFaithful();
    StreamRoundTrip(m, ls, rest);
  }
}
