/** The wire layer and the protocol are the same system: a connection served
    packet by packet takes the tracker's steps of module Protocol, and what is
    written to a peer's socket is what its channel from the tracker holds. */
module Connections {
  import opened Tables
  import opened Merge
  import opened Links
  import opened Framing
  import opened Layouts
  import opened Packets
  import opened Stream
  import opened Members
  import opened Sessions
  import opened Peers
  import opened Protocol
  import opened Invariant
  import opened Sources

  /** The same peers in the same order, each on a socket of its own. */
  ghost predicate Mirrors(ms: seq<Member>, ips: seq<string>) {
    |ms| == |ips| && DistinctSocks(ms) && forall i :: 0 <= i < |ms| ==> ms[i].ip == ips[i]
  }

  /** A peer, once `n` of its reports are merged and `after` instead of `before`
      has been written to its socket. */
  ghost predicate PeerServed(p: Peer, q: Peer, before: seq<Table>, after: seq<Table>, n: nat) {
    n <= |p.up| && before <= after && q == p.(down := p.down + after[|before|..], up := p.up[n..])
  }

  /** The session, come from `q0` to `q`, and the system, come from `s0` to `s`,
      have done the same, among it merged `n` reports of peer `ip`. */
  ghost predicate InStep(s0: System, q0: Session, s: System, q: Session, ip: string, n: nat) {
    && s.members == s0.members && s.departures == s0.departures && s.peers.Keys == s0.peers.Keys
    && s.table == q.table && Mirrors(q0.members, s.members) && SameSocks(q0.members, q.members)
    && (forall i :: 0 <= i < |s.members| ==> s.members[i] in s0.peers)
    && (forall i, j :: 0 <= i < j < |s.members| ==> s.members[i] != s.members[j])
    && (forall i :: 0 <= i < |s.members| ==> ServedAt(s0, q0, s, q, ip, n, i))
  }

  ghost predicate ServedAt(s0: System, q0: Session, s: System, q: Session, ip: string, n: nat, i: nat)
    requires i < |s.members| && s.members[i] in s0.peers && s.members[i] in s.peers && i < |q0.members|
  {
    var a, sock := s.members[i], q0.members[i].sock;
    PeerServed(s0.peers[a], s.peers[a], SentTo(q0.sent, sock), SentTo(q.sent, sock), if a == ip then n else 0)
  }

  /** Peer `ip` is on the list, on socket `conn`. */
  ghost predicate Connected(s: System, q: Session, ip: string, conn: int) {
    exists k :: 0 <= k < |s.members| && k < |q.members| && s.members[k] == ip && q.members[k].sock == conn
  }

  lemma ServedMore(p: Peer, q: Peer, before: seq<Table>, after: seq<Table>, n: nat, t: Table)
    requires PeerServed(p, q, before, after, n)
    ensures PeerServed(p, Send(q, t), before, after + [t], n)
    ensures n < |p.up| ==> q.up != [] && q.up[0] == p.up[n]
    ensures n < |p.up| ==> PeerServed(p, Send(q.(up := q.up[1..]), t), before, after + [t], n + 1)
  {
    assert (after + [t])[|before|..] == after[|before|..] + [t];
    assert p.down + (after[|before|..] + [t]) == (p.down + after[|before|..]) + [t];
    if n < |p.up| {
      assert p.up[n..][1..] == p.up[n + 1..];
    }
  }

  lemma GreetInStep(s0: System, q0: Session, s: System, q: Session, ip: string, n: nat, conn: int, at: nat)
    requires InStep(s0, q0, s, q, ip, n) && Connected(s, q0, ip, conn)
    ensures ip in s.peers
    ensures InStep(s0, q0, Apply(s, Register(ip)), Perform(q, conn, at, Greet), ip, n)
  {
    var k :| 0 <= k < |s.members| && s.members[k] == ip && q0.members[k].sock == conn;
    var r, v := Apply(s, Register(ip)), Perform(q, conn, at, Greet);
    assert r.peers.Keys == s.peers.Keys;
    forall i | 0 <= i < |r.members| ensures ServedAt(s0, q0, r, v, ip, n, i) {
      var sock := q0.members[i].sock;
      assert ServedAt(s0, q0, s, q, ip, n, i);
      GreetReaches(q, conn, sock);
      if i == k {
        ServedMore(s0.peers[ip], s.peers[ip], SentTo(q0.sent, sock), SentTo(q.sent, sock), n, s.table);
      } else {
        assert SentTo(q.sent, sock) + [] == SentTo(q.sent, sock);
      }
    }
  }

  lemma MergeReachesMember(s: System, ip: string, a: string)
    requires Enabled(s, MergeStep(ip)) && a in s.members && a in s.peers
    ensures a in Apply(s, MergeStep(ip)).peers
    ensures var r := Apply(s, MergeStep(ip));
      r.peers[a] == Send(if a == ip then s.peers[a].(up := s.peers[a].up[1..]) else s.peers[a], r.table)
  {
  }

  lemma MergeIsEnabled(s0: System, q0: Session, s: System, q: Session, ip: string, n: nat, conn: int)
    requires InStep(s0, q0, s, q, ip, n) && Connected(s, q0, ip, conn)
    requires ip in s0.peers && n < |s0.peers[ip].up|
    ensures Enabled(s, MergeStep(ip)) && s.peers[ip].up[0] == s0.peers[ip].up[n]
  {
    var k :| 0 <= k < |s.members| && s.members[k] == ip && q0.members[k].sock == conn;
    assert ServedAt(s0, q0, s, q, ip, n, k);
    ServedMore(s0.peers[ip], s.peers[ip], SentTo(q0.sent, conn), SentTo(q.sent, conn), n, []);
  }

  lemma BatchInStep(s0: System, q0: Session, s: System, q: Session, ip: string, n: nat, conn: int, at: nat, m: nat)
    requires InStep(s0, q0, s, q, ip, n) && Connected(s, q0, ip, conn) && m == n + 1
    requires ip in s0.peers && n < |s0.peers[ip].up|
    ensures Enabled(s, MergeStep(ip))
    ensures InStep(s0, q0, Apply(s, MergeStep(ip)), Perform(q, conn, at, Batch(s0.peers[ip].up[n])), ip, m)
  {
    MergeIsEnabled(s0, q0, s, q, ip, n, conn);
    var r, v := Apply(s, MergeStep(ip)), Perform(q, conn, at, Batch(s0.peers[ip].up[n]));
    assert r.peers.Keys == s.peers.Keys && r.table == v.table && r.members == s.members;
    forall i | 0 <= i < |r.members| ensures ServedAt(s0, q0, r, v, ip, m, i) {
      assert s.members[i] in s.members;
      MergeReachesMember(s, ip, s.members[i]);
      BatchServes(s0, q0, s, q, ip, n, i);
    }
  }

  /** What the merge of a report does to the peer at position `i` of the list. */
  lemma BatchServes(s0: System, q0: Session, s: System, q: Session, ip: string, n: nat, i: nat)
    requires InStep(s0, q0, s, q, ip, n) && i < |s.members|
    requires ip in s0.peers && n < |s0.peers[ip].up|
    ensures var a, sock, t := s.members[i], q0.members[i].sock, MergeBatch(s.table, s0.peers[ip].up[n]);
      && (a == ip ==> s.peers[a].up != [])
      && PeerServed(s0.peers[a], Send(if a == ip then s.peers[a].(up := s.peers[a].up[1..]) else s.peers[a], t),
           SentTo(q0.sent, sock), SentTo(q.sent + ToAll(q.members, t), sock), if a == ip then n + 1 else 0)
  {
    var a, sock, b := s.members[i], q0.members[i].sock, s0.peers[ip].up[n];
    assert ServedAt(s0, q0, s, q, ip, n, i);
    assert OnList(q.members, sock) by { assert q.members[i].sock == sock; }
    BatchReaches(q, b, sock);
    ServedMore(s0.peers[a], s.peers[a], SentTo(q0.sent, sock), SentTo(q.sent, sock), if a == ip then n else 0,
      MergeBatch(s.table, b));
  }

  lemma StillInStep(s0: System, q0: Session, s: System, q: Session, v: Session, ip: string, n: nat)
    requires InStep(s0, q0, s, q, ip, n)
    requires v.table == q.table && v.sent == q.sent && SameSocks(q.members, v.members)
    ensures InStep(s0, q0, s, v, ip, n)
  {
    forall i | 0 <= i < |s.members| ensures ServedAt(s0, q0, s, v, ip, n, i) {
      assert ServedAt(s0, q0, s, q, ip, n, i);
    }
  }

  lemma StartInStep(s: System, q: Session, ip: string)
    requires Reachable(s) && q.table == s.table && Mirrors(q.members, s.members)
    ensures InStep(s, q, s, q, ip, 0)
  {
    ReachableKeepsInv(s);
    forall i | 0 <= i < |s.members| ensures s.members[i] in s.peers && ServedAt(s, q, s, q, ip, 0, i) {
      assert s.members[i] in s.members;
      var p, sent := s.peers[s.members[i]], SentTo(q.sent, q.members[i].sock);
      assert sent[|sent|..] == [] && p.down + [] == p.down && p.up[0..] == p.up;
    }
  }

  /** One more action, which is a step of the protocol or none. */
  lemma ActionInStep(s0: System, q0: Session, s: System, q: Session, ip: string, n: nat, conn: int, a: Arrival)
    returns (r: System)
    requires Reachable(s) && InStep(s0, q0, s, q, ip, n) && Connected(s, q0, ip, conn) && ip in s0.peers
    requires var act := React(q.decoder, a.packet);
      act != Crash && (act.Batch? ==> n < |s0.peers[ip].up| && act.table == s0.peers[ip].up[n])
    ensures Reachable(r)
    ensures InStep(s0, q0, r, Handle(q, conn, a), ip, if React(q.decoder, a.packet).Batch? then n + 1 else n)
  {
    var act := React(q.decoder, a.packet);
    var v := Perform(q, conn, a.at, act);
    var m := if act.Batch? then n + 1 else n;
    r := s;
    match act {
      case Greet =>
        GreetInStep(s0, q0, s, q, ip, n, conn, a.at);
        r := AfterStep(s, Register(ip));
      case Batch(_) =>
        BatchInStep(s0, q0, s, q, ip, n, conn, a.at, n + 1);
        r := AfterStep(s, MergeStep(ip));
      case Beat => StillInStep(s0, q0, s, q, v, ip, n);
      case Nothing => StillInStep(s0, q0, s, q, v, ip, n);
    }
    StillInStep(s0, q0, r, v, Handle(q, conn, a), ip, m);
  }

  lemma BatchPrefix(pre: seq<Action>, act: Action, up: seq<Table>)
    requires Batches(pre + [act]) <= up
    ensures Batches(pre) <= up
    ensures act.Batch? ==> |Batches(pre)| < |up| && act.table == up[|Batches(pre)|]
    ensures |Batches(pre + [act])| == if act.Batch? then |Batches(pre)| + 1 else |Batches(pre)|
  {
    BatchesSnoc(pre, act);
    if act.Batch? {
      assert (Batches(pre) + [act.table])[|Batches(pre)|] == act.table;
    }
  }

  /** The packets bring nothing that brings the tracker down, and reports that `up` begins with. */
  ghost predicate Bring(arrivals: seq<Arrival>, up: seq<Table>) {
    var actions := Reactions(IDLE, PacketsOf(arrivals));
    Crash !in actions && Batches(actions) <= up
  }

  function Brought(arrivals: seq<Arrival>): nat {
    |Batches(Reactions(IDLE, PacketsOf(arrivals)))|
  }

  lemma PacketInStep(s0: System, q0: Session, s: System, ip: string, conn: int, bs: seq<Arrival>, a: Arrival)
    returns (r: System)
    requires q0.decoder == IDLE && ip in s0.peers && Bring(bs + [a], s0.peers[ip].up)
    requires Reachable(s) && InStep(s0, q0, s, Serve(q0, conn, bs), ip, Brought(bs)) && Connected(s, q0, ip, conn)
    ensures Reachable(r) && InStep(s0, q0, r, Serve(q0, conn, bs + [a]), ip, Brought(bs + [a]))
  {
    var pre, q := Reactions(IDLE, PacketsOf(bs)), Serve(q0, conn, bs);
    ServeSnoc(q0, conn, bs, a);
    BatchPrefix(pre, React(q.decoder, a.packet), s0.peers[ip].up);
    NoCrashSnoc(pre, React(q.decoder, a.packet));
    r := ActionInStep(s0, q0, s, q, ip, |Batches(pre)|, conn, a);
  }

  lemma BringFewer(q0: Session, conn: int, bs: seq<Arrival>, a: Arrival, up: seq<Table>)
    requires q0.decoder == IDLE && Bring(bs + [a], up)
    ensures Bring(bs, up)
  {
    ServeSnoc(q0, conn, bs, a);
    BatchPrefix(Reactions(IDLE, PacketsOf(bs)), React(Serve(q0, conn, bs).decoder, a.packet), up);
    NoCrashSnoc(Reactions(IDLE, PacketsOf(bs)), React(Serve(q0, conn, bs).decoder, a.packet));
  }

  lemma ConnectedStays(s0: System, q0: Session, s: System, q: Session, ip: string, n: nat, conn: int)
    requires InStep(s0, q0, s, q, ip, n) && Connected(s0, q0, ip, conn)
    ensures Connected(s, q0, ip, conn)
  {
  }

  /** Serving packets that bring reports of a peer takes just the steps of the
      protocol: a MergeStep for every report, a Register for every REGISTER. */
  lemma {:induction false} PacketsInStep(s0: System, q0: Session, ip: string, conn: int, arrivals: seq<Arrival>)
    returns (s: System)
    requires Reachable(s0) && q0.decoder == IDLE && q0.table == s0.table && Mirrors(q0.members, s0.members)
    requires ip in s0.peers && Connected(s0, q0, ip, conn) && Bring(arrivals, s0.peers[ip].up)
    ensures Reachable(s) && InStep(s0, q0, s, Serve(q0, conn, arrivals), ip, Brought(arrivals))
  {
    if arrivals == [] {
      s := s0;
      assert PacketsOf(arrivals) == [];
      StartInStep(s0, q0, ip);
    } else {
      var bs, a := arrivals[..|arrivals| - 1], arrivals[|arrivals| - 1];
      assert arrivals == bs + [a];
      BringFewer(q0, conn, bs, a, s0.peers[ip].up);
      s := PacketsInStep(s0, q0, ip, conn, bs);
      ConnectedStays(s0, q0, s, Serve(q0, conn, bs), ip, Brought(bs), conn);
      s := PacketInStep(s0, q0, s, ip, conn, bs, a);
    }
  }

  lemma NoCrashSnoc(pre: seq<Action>, act: Action)
    requires Crash !in pre + [act]
    ensures Crash !in pre && act != Crash
  {
    assert act in pre + [act];
    assert forall a :: a in pre ==> a in pre + [act];
  }

  /** A whole connection, in any reachable state of the protocol: if it carries
      some of the reports that the peer has sent and the tracker has not merged,
      whatever else is interleaved, it is served to its end, and leads to what a
      reachable state of the protocol has: the tracker's table, and on every
      peer's channel just the tables written to that peer's socket. */
  lemma ConnectionRefinesProtocol(s0: System, q0: Session, ip: string, conn: int, arrivals: seq<Arrival>,
                                  ls: seq<seq<WireNode>>)
    returns (s: System)
    requires Reachable(s0) && q0.decoder == IDLE && q0.table == s0.table && Mirrors(q0.members, s0.members)
    requires ip in s0.peers && Connected(s0, q0, ip, conn)
    requires Updates(PacketsOf(arrivals)) == SendAll(ls) && AllEnd(ls) && AllFiles(ls) <= s0.peers[ip].up
    ensures CrashAt(q0, conn, arrivals, 0) == |arrivals|
    ensures Reachable(s) && InStep(s0, q0, s, Serve(q0, conn, arrivals), ip, |ls|)
    ensures Serve(q0, conn, arrivals).decoder == IDLE
  {
    FramingRoundTrip(PacketsOf(arrivals), ls);
    s := PacketsInStep(s0, q0, ip, conn, arrivals);
    ServedIff(q0, conn, arrivals, ls);
    ServedDecoder(q0, conn, arrivals);
    ReachableKeepsInv(s0);
    if ls != [] {
      assert AllFiles(ls)[0] == Files(ls[0]) == s0.peers[ip].up[0];
    }
  }

  /** Both have sent the peer at position `i` of the list the new table, and nothing else. */
  ghost predicate SentAlike(s: System, q: Session, r: System, v: Session, i: nat) {
    && i < |r.members| && i < |q.members| && r.members[i] in s.peers && r.members[i] in r.peers
    && r.peers[r.members[i]].down == s.peers[r.members[i]].down + [r.table]
    && SentTo(v.sent, q.members[i].sock) == SentTo(q.sent, q.members[i].sock) + [v.table]
  }

  /** In particular, serving the packets of a peer's oldest report is its MergeStep. */
  lemma ReportIsMergeStep(s: System, q: Session, ip: string, conn: int, arrivals: seq<Arrival>, l: seq<WireNode>)
    requires Reachable(s) && q.decoder == IDLE && q.table == s.table && Mirrors(q.members, s.members)
    requires Enabled(s, MergeStep(ip)) && Connected(s, q, ip, conn)
    requires Updates(PacketsOf(arrivals)) == SendPackets(l, FILE_UPDATE) && Ends(l) && Files(l) == s.peers[ip].up[0]
    requires forall a :: a in arrivals ==> a.packet.ptype != REGISTER
    ensures var r, v := Apply(s, MergeStep(ip)), Serve(q, conn, arrivals);
      && v.table == r.table && v.decoder == IDLE && Mirrors(v.members, r.members)
      && forall i :: 0 <= i < |r.members| ==> SentAlike(s, q, r, v, i)
  {
    var r, v := Apply(s, MergeStep(ip)), Serve(q, conn, arrivals);
    MembersArePeers(s);
    OneList(l);
    MembersStay(q, conn, arrivals);
    var k :| 0 <= k < |s.members| && s.members[k] == ip && q.members[k].sock == conn;
    ReportReaches(q, conn, arrivals, l, k);
    forall i | 0 <= i < |r.members| ensures SentAlike(s, q, r, v, i) {
      assert s.members[i] in s.members;
      MergeReachesMember(s, ip, s.members[i]);
      ReportReaches(q, conn, arrivals, l, i);
    }
  }

  lemma MembersArePeers(s: System)
    requires Reachable(s)
    ensures forall a :: a in s.members ==> a in s.peers
  {
    ReachableKeepsInv(s);
  }

  lemma OneList(l: seq<WireNode>)
    ensures SendAll([l]) == SendPackets(l, FILE_UPDATE) && AllFiles([l]) == [Files(l)]
    ensures Ends(l) ==> AllEnd([l])
  {
    assert [l][..0] == [];
  }

  lemma OneResult(t: Table, b: Table)
    ensures MergeAll(t, [b]) == MergeBatch(t, b) && Results(t, [b]) == [MergeBatch(t, b)]
  {
    assert [b][..0] == [] && MergeAll(t, []) == t;
    assert Results(t, []) + [MergeAll(t, [b])] == [MergeAll(t, [b])];
  }

  lemma ReportReaches(q: Session, conn: int, arrivals: seq<Arrival>, l: seq<WireNode>, i: nat)
    requires q.decoder == IDLE && DistinctSocks(q.members) && i < |q.members|
    requires Updates(PacketsOf(arrivals)) == SendAll([l]) && Ends(l) && AllEnd([l]) && AllFiles([l]) == [Files(l)]
    requires forall a :: a in arrivals ==> a.packet.ptype != REGISTER
    ensures var v, t := Serve(q, conn, arrivals), MergeBatch(q.table, Files(l));
      && v.table == t && v.decoder == IDLE
      && SentTo(v.sent, q.members[i].sock) == SentTo(q.sent, q.members[i].sock) + [t]
  {
    var sock := q.members[i].sock;
    assert OnList(q.members, sock);
    SessionDelivers(q, conn, arrivals, [l], sock);
    OnlyRegisterGreets(IDLE, arrivals);
    ToldOthers(q.table, Reactions(IDLE, PacketsOf(arrivals)), sock == conn);
    FramingRoundTrip(PacketsOf(arrivals), [l]);
    OneResult(q.table, Files(l));
  }

  lemma {:induction false} MembersStay(q: Session, conn: int, arrivals: seq<Arrival>)
    ensures var v := Serve(q, conn, arrivals);
      |v.members| == |q.members| &&
      forall i :: 0 <= i < |q.members| ==> v.members[i].ip == q.members[i].ip && v.members[i].sock == q.members[i].sock
  {
    if arrivals != [] {
      MembersStay(q, conn, arrivals[..|arrivals| - 1]);
    }
  }

  // ----- peers come and go -----

  /** A peer that connects on a socket of its own and registers does the protocol's
      Join: it is on both lists, at the end, and is sent the table, and nobody else
      notices. */
  lemma ConnectingIsJoin(s: System, q: Session, ip: string, sock: int, now: nat, a: Arrival)
    requires q.table == s.table && Mirrors(q.members, s.members) && a.packet.ptype == REGISTER
    requires Enabled(s, Join(ip)) && !OnList(q.members, sock)
    ensures var r, v := Apply(s, Join(ip)), Handle(q.(members := AddPeer(q.members, sock, ip, now)), sock, a);
      && v.table == r.table && Mirrors(v.members, r.members)
      && r.peers[ip] == Peer(ip, [], [], [], [s.table])
      && (forall i :: i in s.peers ==> r.peers[i] == s.peers[i])
      && (forall k :: SentTo(v.sent, k) == SentTo(q.sent, k) + if k == sock then r.peers[ip].down else [])
  {
    AddPeerIff(q.members, sock, ip, now);
    assert |AddPeer(q.members, sock, ip, now)| == |q.members| + 1 by {
      if exists k :: 0 <= k < |q.members| - 1 && q.members[k].sock == sock {
        assert OnList(q.members, sock);
      }
    }
    forall k ensures SentTo(q.sent + [Transmission(sock, q.table)], k) ==
      SentTo(q.sent, k) + if k == sock then [s.table] else []
    {
      SentToSnoc(q.sent, Transmission(sock, q.table), k);
    }
  }

  lemma {:induction false} WithoutAt(ips: seq<string>, k: nat)
    requires k < |ips| && forall j :: 0 <= j < k ==> ips[j] != ips[k]
    ensures Without(ips, ips[k]) == ips[..k] + ips[k + 1..]
  {
    if k > 0 {
      WithoutAt(ips[1..], k - 1);
      assert ips[..k] == [ips[0]] + ips[1..][..k - 1] && ips[1..][k..] == ips[k + 1..];
    }
  }

  /** A peer other than the head whose connection ends does the protocol's Leave:
      it is taken off both lists and out of every record. */
  lemma DepartingIsLeave(s: System, q: Session, ip: string, sock: int)
    requires Reachable(s) && q.table == s.table && Mirrors(q.members, s.members) && Connected(s, q, ip, sock)
    requires Enabled(s, Leave(ip))
    ensures var r := Apply(s, Leave(ip));
      && r.table == RemovePeer(q.table, ip) && Mirrors(DeletePeer(q.members, sock), r.members)
      && r.peers == s.peers - {ip} && ip !in r.members
  {
    var k :| 0 <= k < |s.members| && s.members[k] == ip && q.members[k].sock == sock;
    MembersAreDistinct(s);
    WithoutAt(s.members, k);
    DeleteIs(q.members, k);
    MirrorsWithout(q.members, s.members, k);
    WithoutIs(s.members, ip);
  }

  lemma MembersAreDistinct(s: System)
    requires Reachable(s)
    ensures forall i, j :: 0 <= i < j < |s.members| ==> s.members[i] != s.members[j]
  {
    ReachableKeepsInv(s);
  }

  lemma MirrorsWithout(ms: seq<Member>, ips: seq<string>, k: nat)
    requires Mirrors(ms, ips) && k < |ms|
    ensures Mirrors(ms[..k] + ms[k + 1..], ips[..k] + ips[k + 1..])
  {
  }

  // ----- the other direction -----

  /** If what is on the stream to a peer are the tables its channel holds, the
      next one it reads is the next one of the channel, and the rest stays. */
  lemma BroadcastIsRead(m: Layout, p: Peer, ls: seq<seq<WireNode>>, rest: Bytes)
    requires m == CLayout() && p.down != [] && AllFiles(ls) == p.down && AllEnd(ls)
    requires forall i :: 0 <= i < |ls| ==> Sendable(ls[i])
    ensures RecvTable(m, AllBytes(m, ls) + rest) == Some((Chain(p.down[0], 0), AllBytes(m, ls[1..]) + rest))
    ensures AllFiles(ls[1..]) == p.down[1..] && Looked(p) == Pass(p.(down := AllFiles(ls[1..])), p.down[0])
  {
    CLayoutIsFaithful();
    FilesOfRest(ls);
    assert AllFiles(ls)[0] == Files(ls[0]);
    assert AllBytes(m, ls) == TableBytes(m, ls[0]) + AllBytes(m, ls[1..]);
    BytesAssociate(TableBytes(m, ls[0]), AllBytes(m, ls[1..]), rest);
    TableArrives(m, ls[0], AllBytes(m, ls[1..]) + rest);
  }

  lemma FilesOfRest(ls: seq<seq<WireNode>>)
    requires ls != []
    ensures AllFiles(ls[1..]) == AllFiles(ls)[1..]
  {
  }

  lemma BytesAssociate(a: Bytes, b: Bytes, c: Bytes)
    ensures (a + b) + c == a + (b + c)
  {
  }
}
