/** The packets a peer sends to the tracker (common/pkt.c) and how the tracker's
    handshake thread puts file tables together again (tracker/tracker.c). */
module Framing {
  import opened Tables
  import opened Links

  const REGISTER := 0
  const KEEP_ALIVE := 1
  const FILE_UPDATE := 2

  /** What the tracker reads of a packet.  A size of -1 marks a packet that is
      not the first of a table. */
  datatype PeerPacket = PeerPacket(ptype: int, fileTableSize: int, node: WireNode)

  /** peer_sendpkt: for a file update the number of nodes and then the nodes,
      for anything else a single packet. */
  function SendPackets(l: seq<WireNode>, ptype: int): seq<PeerPacket> {
    if ptype == FILE_UPDATE then
      [PeerPacket(ptype, |l|, NO_NODE)] + seq(|l|, i requires 0 <= i < |l| => PeerPacket(ptype, -1, l[i]))
    else [PeerPacket(ptype, -1, NO_NODE)]
  }

  method PeerSendPkt(l: seq<WireNode>, ptype: int) returns (pkts: seq<PeerPacket>)
    ensures pkts == SendPackets(l, ptype)
  {
    var size := -1;
    if ptype == FILE_UPDATE {
      var fileCount := 0;
      while fileCount < |l|
        invariant fileCount <= |l|
      {
        fileCount := fileCount + 1;
      }
      size := fileCount;
    }
    pkts := [PeerPacket(ptype, size, NO_NODE)];
    if ptype == FILE_UPDATE {
      for i := 0 to |l|
        invariant pkts == SendPackets(l, ptype)[..i + 1]
      {
        pkts := pkts + [PeerPacket(ptype, -1, l[i])];
      }
    }
  }

  // ----- the receiving state machine -----

  /** The thread's variables; `partial` is peer_ft, which points nowhere while
      no table is being received. */
  datatype Decoder = Decoder(counter: int, size: int, partial: Option<Chain>)

  const IDLE := Decoder(-1, -1, None)

  /** What handling a packet amounts to.  Crash stands for a merge through a
      pointer that points nowhere: that of a table which was never announced, or
      the link of a last node which had a successor at the sender.  Whether the
      tracker survives a Batch depends on its own table; module Sessions says when. */
  datatype Action = Nothing | Greet | Batch(table: Table) | Beat | Crash

  /** Between packets the thread is idle, or has some of the announced nodes but
      not all.  An announced size below -1 leaves it waiting for ever. */
  ghost predicate DecoderInv(d: Decoder) {
    || d == IDLE
    || (d.counter >= 0 && d.partial.Some? && |d.partial.value.files| == d.counter
        && (d.counter == 0 ==> d.partial.value == EMPTY) && (d.counter < d.size || d.size < -1))
  }

  /** Taking in a FILE_UPDATE packet, before the check for the last one. */
  function Absorb(d: Decoder, p: PeerPacket): Decoder {
    if d.counter == -1 && p.fileTableSize != -1 then Decoder(0, p.fileTableSize, Some(EMPTY))
    else if d.counter < d.size && p.fileTableSize == -1 then
      var sofar := if d.counter == 0 || d.partial.None? then EMPTY else d.partial.value;
      Decoder(d.counter + 1, d.size, Some(Extend(sofar, p.node)))
    else d
  }

  function Consume(d: Decoder, p: PeerPacket): Decoder {
    if p.ptype != FILE_UPDATE then d
    else
      var e := Absorb(d, p);
      if e.counter == e.size then IDLE else e
  }

  function React(d: Decoder, p: PeerPacket): Action {
    if p.ptype == REGISTER then Greet
    else if p.ptype == KEEP_ALIVE then Beat
    else if p.ptype != FILE_UPDATE then Nothing
    else
      var e := Absorb(d, p);
      if e.counter != e.size then Nothing
      else if e.partial.Some? && e.partial.value.last == 0 then Batch(e.partial.value.files)
      else Crash
  }

  function Consumed(d: Decoder, ps: seq<PeerPacket>): Decoder {
    if ps == [] then d else Consume(Consumed(d, ps[..|ps| - 1]), ps[|ps| - 1])
  }

  function Reactions(d: Decoder, ps: seq<PeerPacket>): (r: seq<Action>)
    ensures |r| == |ps|
  {
    if ps == [] then []
    else Reactions(d, ps[..|ps| - 1]) + [React(Consumed(d, ps[..|ps| - 1]), ps[|ps| - 1])]
  }

  /** The tables merged, in order. */
  function Batches(actions: seq<Action>): seq<Table> {
    if actions == [] then []
    else
      Batches(actions[..|actions| - 1]) + match actions[|actions| - 1] case Batch(t) => [t] case _ => []
  }

  lemma RunSnoc(d: Decoder, ps: seq<PeerPacket>, p: PeerPacket)
    ensures Consumed(d, ps + [p]) == Consume(Consumed(d, ps), p)
    ensures Reactions(d, ps + [p]) == Reactions(d, ps) + [React(Consumed(d, ps), p)]
    ensures Batches(Reactions(d, ps + [p])) ==
      Batches(Reactions(d, ps)) + match React(Consumed(d, ps), p) case Batch(t) => [t] case _ => []
  {
    assert (ps + [p])[..|ps|] == ps;
    BatchesSnoc(Reactions(d, ps), React(Consumed(d, ps), p));
  }

  lemma BatchesSnoc(actions: seq<Action>, a: Action)
    ensures Batches(actions + [a]) == Batches(actions) + match a case Batch(t) => [t] case _ => []
  {
    assert (actions + [a])[..|actions|] == actions;
  }

  /** The packet brings the last node of a table, and that node has a link. */
  predicate DanglingEnd(d: Decoder, p: PeerPacket) {
    0 <= d.counter == d.size - 1 && p.fileTableSize == -1 && p.node.next != 0
  }

  /** The state invariant holds for every stream of packets.  The thread merges
      through a pointer that points nowhere exactly on a table packet that
      announces nothing while it is idle, or that completes a table with a node
      that has a link. */
  lemma {:induction false} DecoderStaysValid(ps: seq<PeerPacket>, p: PeerPacket)
    ensures DecoderInv(Consumed(IDLE, ps))
    ensures var d := Consumed(IDLE, ps);
      React(d, p) == Crash <==>
        p.ptype == FILE_UPDATE && ((d == IDLE && p.fileTableSize == -1) || DanglingEnd(d, p))
  {
    if ps != [] {
      DecoderStaysValid(ps[..|ps| - 1], p);
    }
  }

  /** While a table is being received, a further announcement makes no difference. */
  lemma StrayAnnouncementIsIgnored(ps: seq<PeerPacket>, p: PeerPacket)
    requires Consumed(IDLE, ps) != IDLE && p.ptype == FILE_UPDATE && p.fileTableSize != -1
    ensures Consume(Consumed(IDLE, ps), p) == Consumed(IDLE, ps) && React(Consumed(IDLE, ps), p) == Nothing
  {
    DecoderStaysValid(ps, p);
  }

  /** An announced size below -1 is the end of all merging on the connection: the
      thread waits for ever, answering greetings and heartbeats only. */
  lemma {:induction false} NegativeSizeBlocks(p: PeerPacket, ps: seq<PeerPacket>)
    requires p.ptype == FILE_UPDATE && p.fileTableSize < -1
    ensures var d := Consume(IDLE, p);
      && React(IDLE, p) == Nothing && d != IDLE
      && Consumed(d, ps) == d && Batches(Reactions(d, ps)) == [] && Crash !in Reactions(d, ps)
  {
    if ps != [] {
      var qs, q := ps[..|ps| - 1], ps[|ps| - 1];
      NegativeSizeBlocks(p, qs);
      assert ps == qs + [q];
      RunSnoc(Consume(IDLE, p), qs, q);
    }
  }

  /** What a peer sends to register or as a heartbeat is one packet, which greets or
      beats whatever state the thread is in, and leaves it in that state. */
  lemma OtherPacketsAreHeard(d: Decoder, l: seq<WireNode>, ptype: int)
    requires ptype == REGISTER || ptype == KEEP_ALIVE
    ensures Reactions(d, SendPackets(l, ptype)) == [if ptype == REGISTER then Greet else Beat]
    ensures Consumed(d, SendPackets(l, ptype)) == d
  {
    var p := SendPackets(l, ptype)[0];
    assert SendPackets(l, ptype) == [] + [p];
    RunSnoc(d, [], p);
  }

  // ----- round trip -----

  /** The file-update packets of a stream. */
  function Updates(ps: seq<PeerPacket>): seq<PeerPacket> {
    if ps == [] then []
    else Updates(ps[..|ps| - 1]) + if ps[|ps| - 1].ptype == FILE_UPDATE then [ps[|ps| - 1]] else []
  }

  function SendAll(ls: seq<seq<WireNode>>): seq<PeerPacket> {
    if ls == [] then [] else SendAll(ls[..|ls| - 1]) + SendPackets(ls[|ls| - 1], FILE_UPDATE)
  }

  /** Other packets in between make no difference to the tables. */
  lemma {:induction false} OthersAreSkipped(d: Decoder, ps: seq<PeerPacket>)
    ensures Consumed(d, ps) == Consumed(d, Updates(ps))
    ensures Batches(Reactions(d, ps)) == Batches(Reactions(d, Updates(ps)))
  {
    if ps != [] {
      var qs, p := ps[..|ps| - 1], ps[|ps| - 1];
      assert ps == qs + [p];
      assert p.ptype != FILE_UPDATE ==> Updates(ps) == Updates(qs);
      OthersAreSkipped(d, qs);
      RunSnoc(d, qs, p);
      RunSnoc(d, Updates(qs), p);
    }
  }

  lemma {:induction false} RunConcat(d: Decoder, ps: seq<PeerPacket>, qs: seq<PeerPacket>)
    ensures Consumed(d, ps + qs) == Consumed(Consumed(d, ps), qs)
    ensures Reactions(d, ps + qs) == Reactions(d, ps) + Reactions(Consumed(d, ps), qs)
  {
    if qs == [] {
      assert ps + qs == ps;
    } else {
      RunConcat(d, ps, qs[..|qs| - 1]);
      assert (ps + qs)[..|ps + qs| - 1] == ps + qs[..|qs| - 1];
    }
  }

  lemma {:induction false} BatchesConcat(xs: seq<Action>, ys: seq<Action>)
    ensures Batches(xs + ys) == Batches(xs) + Batches(ys)
  {
    if ys == [] {
      assert xs + ys == xs;
    } else {
      var zs := ys[..|ys| - 1];
      BatchesConcat(xs, zs);
      assert xs + ys == (xs + zs) + [ys[|ys| - 1]];
      BatchesSnoc(xs + zs, ys[|ys| - 1]);
    }
  }

  /** The announcement and the first `k` nodes of a table. */
  function Prefix(l: seq<WireNode>, k: nat): seq<PeerPacket>
    requires k <= |l|
  {
    SendPackets(l, FILE_UPDATE)[..k + 1]
  }

  lemma PrefixSnoc(l: seq<WireNode>, k: nat)
    requires 0 < k <= |l|
    ensures Prefix(l, k) == Prefix(l, k - 1) + [PeerPacket(FILE_UPDATE, -1, l[k - 1])]
  {
  }

  /** What an idle thread has made of them. */
  function Progress(l: seq<WireNode>, k: nat): Decoder
    requires k <= |l|
  {
    if k == |l| then IDLE else Decoder(k, |l|, Some(Linked(l[..k])))
  }

  /** What it does with a whole table. */
  function Outcome(l: seq<WireNode>): Action {
    if Ends(l) then Batch(Files(l)) else Crash
  }

  lemma NodeArrives(l: seq<WireNode>, k: nat)
    requires 0 < k <= |l|
    ensures var d, p := Progress(l, k - 1), PeerPacket(FILE_UPDATE, -1, l[k - 1]);
      && Consume(d, p) == Progress(l, k)
      && React(d, p) == if k == |l| then Outcome(l) else Nothing
  {
    assert l[..k] == l[..k - 1] + [l[k - 1]];
    LinkedSnoc(l[..k - 1], l[k - 1]);
    assert k == 1 ==> Linked(l[..k - 1]) == EMPTY;
    assert Absorb(Progress(l, k - 1), PeerPacket(FILE_UPDATE, -1, l[k - 1])) == Decoder(k, |l|, Some(Linked(l[..k])));
    assert k == |l| ==> l[..k] == l;
  }

  /** The reactions to a part of a table: none but, at the end, its outcome. */
  ghost predicate Handled(actions: seq<Action>, l: seq<WireNode>, k: nat) {
    && Batches(actions) == (if k == |l| && Ends(l) then [Files(l)] else [])
    && (Crash in actions <==> k == |l| && !Ends(l))
  }

  lemma AnnouncementArrives(l: seq<WireNode>)
    ensures Consumed(IDLE, Prefix(l, 0)) == Progress(l, 0) && Handled(Reactions(IDLE, Prefix(l, 0)), l, 0)
  {
    var p := PeerPacket(FILE_UPDATE, |l|, NO_NODE);
    assert Prefix(l, 0) == [] + [p];
    RunSnoc(IDLE, [], p);
    assert Absorb(IDLE, p) == Decoder(0, |l|, Some(EMPTY));
    assert Linked(l[..0]) == EMPTY;
    assert |l| == 0 ==> Files(l) == [];
  }

  lemma {:induction false} TablePrefix(l: seq<WireNode>, k: nat)
    requires k <= |l|
    ensures Consumed(IDLE, Prefix(l, k)) == Progress(l, k) && Handled(Reactions(IDLE, Prefix(l, k)), l, k)
  {
    if k == 0 {
      AnnouncementArrives(l);
    } else {
      var ps, p := Prefix(l, k - 1), PeerPacket(FILE_UPDATE, -1, l[k - 1]);
      TablePrefix(l, k - 1);
      PrefixSnoc(l, k);
      NodeArrives(l, k);
      RunSnoc(IDLE, ps, p);
    }
  }

  /** All lists end properly. */
  ghost predicate AllEnd(ls: seq<seq<WireNode>>) {
    forall i :: 0 <= i < |ls| ==> Ends(ls[i])
  }

  /** A run of packets from an idle thread to an idle thread brings the tables of
      `ls` to be merged; it crashes if one of the lists does not end properly. */
  ghost predicate Delivers(ps: seq<PeerPacket>, ls: seq<seq<WireNode>>) {
    && Consumed(IDLE, ps) == IDLE
    && (Crash in Reactions(IDLE, ps) <==> !AllEnd(ls))
    && (AllEnd(ls) ==> Batches(Reactions(IDLE, ps)) == AllFiles(ls))
  }

  lemma AllEndSnoc(ks: seq<seq<WireNode>>, l: seq<WireNode>)
    ensures AllEnd(ks + [l]) <==> AllEnd(ks) && Ends(l)
    ensures AllFiles(ks + [l]) == AllFiles(ks) + [Files(l)]
  {
    var ls := ks + [l];
    assert ls[|ks|] == l;
    assert forall i :: 0 <= i < |ks| ==> ls[i] == ks[i];
  }

  lemma DeliversSnoc(ps: seq<PeerPacket>, ks: seq<seq<WireNode>>, l: seq<WireNode>)
    requires Delivers(ps, ks)
    ensures Delivers(ps + SendPackets(l, FILE_UPDATE), ks + [l])
  {
    var qs := SendPackets(l, FILE_UPDATE);
    TablePrefix(l, |l|);
    assert Prefix(l, |l|) == qs;
    RunConcat(IDLE, ps, qs);
    BatchesConcat(Reactions(IDLE, ps), Reactions(IDLE, qs));
    AllEndSnoc(ks, l);
  }

  lemma {:induction false} TablesArrive(ls: seq<seq<WireNode>>)
    ensures Delivers(SendAll(ls), ls)
  {
    if ls != [] {
      var ks, l := ls[..|ls| - 1], ls[|ls| - 1];
      TablesArrive(ks);
      DeliversSnoc(SendAll(ks), ks, l);
      assert ls == ks + [l];
    }
  }

  /** Round trip: whatever packets of other types are interleaved with those of
      the lists sent, the thread ends idle, and brings exactly their tables to be
      merged, in order, unless one of the lists has a last node with a link; then,
      and only then, it merges through a pointer that points nowhere. */
  lemma FramingRoundTrip(ps: seq<PeerPacket>, ls: seq<seq<WireNode>>)
    requires Updates(ps) == SendAll(ls)
    ensures Delivers(ps, ls)
  {
    OthersAreSkipped(IDLE, ps);
    TablesArrive(ls);
    CrashesOnUpdatesOnly(IDLE, ps);
  }

  lemma {:induction false} CrashesOnUpdatesOnly(d: Decoder, ps: seq<PeerPacket>)
    ensures Crash in Reactions(d, ps) <==> Crash in Reactions(d, Updates(ps))
  {
    if ps != [] {
      var qs, p := ps[..|ps| - 1], ps[|ps| - 1];
      assert ps == qs + [p];
      CrashesOnUpdatesOnly(d, qs);
      OthersAreSkipped(d, qs);
      RunSnoc(d, qs, p);
      if p.ptype == FILE_UPDATE {
        RunSnoc(d, Updates(qs), p);
        assert Updates(ps) == Updates(qs) + [p];
      } else {
        assert Updates(ps) == Updates(qs);
      }
    }
  }
}
