/** One connection served by the tracker: packets in, table merges and
    transmissions out (handshake in tracker/tracker.c). */
module Sessions {
  import opened Tables
  import opened Merge
  import opened Links
  import opened Framing
  import opened Members

  /** A table written to a socket. */
  datatype Transmission = Transmission(sock: int, table: Table)

  /** What the tracker's globals and the thread's variables hold. */
  datatype Session = Session(table: Table, members: seq<Member>, sent: seq<Transmission>, decoder: Decoder)

  /** A packet, the address it carries and when it was received. */
  datatype Arrival = Arrival(packet: PeerPacket, ip: string, at: nat)

  function ToAll(ms: seq<Member>, t: Table): seq<Transmission> {
    seq(|ms|, i requires 0 <= i < |ms| => Transmission(ms[i].sock, t))
  }

  function Perform(s: Session, conn: int, at: nat, a: Action): Session {
    match a
    case Greet => s.(sent := s.sent + [Transmission(conn, s.table)])
    case Batch(b) =>
      var t := MergeBatch(s.table, b);
      s.(table := t, sent := s.sent + ToAll(s.members, t))
    case Beat => s.(members := HeardPeer(s.members, conn, at))
    case Nothing => s
    case Crash => s
  }

  /** An action the tracker does not survive: a merge through a pointer that
      points nowhere, or the merge of an empty table before there is any record,
      which leaves the file table NULL for display_filetable to read through. */
  predicate Sinks(t: Table, a: Action) {
    a == Crash || (t == [] && a == Batch([]))
  }

  function Handle(s: Session, conn: int, a: Arrival): Session {
    Perform(s, conn, a.at, React(s.decoder, a.packet)).(decoder := Consume(s.decoder, a.packet))
  }

  /** What a FILE_UPDATE packet does to a session. */
  lemma UpdateIs(s: Session, conn: int, a: Arrival)
    requires a.packet.ptype == FILE_UPDATE
    ensures var e := Absorb(s.decoder, a.packet);
      && (Sinks(s.table, React(s.decoder, a.packet)) <==>
            && e.counter == e.size
            && (e.partial.None? || e.partial.value.last != 0 || (s.table == [] && e.partial.value.files == [])))
      && (e.counter != e.size ==> Handle(s, conn, a) == s.(decoder := e))
      && (e.counter == e.size && e.partial.Some? && e.partial.value.last == 0 ==>
            var t := MergeBatch(s.table, e.partial.value.files);
            Handle(s, conn, a) == Session(t, s.members, s.sent + ToAll(s.members, t), IDLE))
  {
  }

  function Serve(s: Session, conn: int, arrivals: seq<Arrival>): Session {
    if arrivals == [] then s
    else Handle(Serve(s, conn, arrivals[..|arrivals| - 1]), conn, arrivals[|arrivals| - 1])
  }

  function PacketsOf(arrivals: seq<Arrival>): seq<PeerPacket> {
    seq(|arrivals|, i requires 0 <= i < |arrivals| => arrivals[i].packet)
  }

  /** The tables sent to one socket, in order. */
  function SentTo(sent: seq<Transmission>, sock: int): seq<Table> {
    if sent == [] then []
    else SentTo(sent[..|sent| - 1], sock) + if sent[|sent| - 1].sock == sock then [sent[|sent| - 1].table] else []
  }

  /** The tracker's table after each of the batches. */
  function Results(t: Table, ts: seq<Table>): seq<Table> {
    if ts == [] then [] else Results(t, ts[..|ts| - 1]) + [MergeAll(t, ts)]
  }

  lemma {:induction false} SentToConcat(xs: seq<Transmission>, ys: seq<Transmission>, sock: int)
    ensures SentTo(xs + ys, sock) == SentTo(xs, sock) + SentTo(ys, sock)
  {
    if ys == [] {
      assert xs + ys == xs;
    } else {
      assert (xs + ys)[..|xs + ys| - 1] == xs + ys[..|ys| - 1];
      SentToConcat(xs, ys[..|ys| - 1], sock);
    }
  }

  lemma SentToSnoc(xs: seq<Transmission>, x: Transmission, sock: int)
    ensures SentTo(xs + [x], sock) == SentTo(xs, sock) + if x.sock == sock then [x.table] else []
  {
    assert (xs + [x])[..|xs|] == xs;
  }

  ghost predicate OnList(ms: seq<Member>, sock: int) {
    exists i :: 0 <= i < |ms| && ms[i].sock == sock
  }

  lemma OnListSnoc(ns: seq<Member>, m: Member, sock: int)
    ensures OnList(ns + [m], sock) <==> OnList(ns, sock) || m.sock == sock
  {
    var ms := ns + [m];
    assert ms[|ns|] == m;
    if OnList(ns, sock) {
      var i :| 0 <= i < |ns| && ns[i].sock == sock;
      assert ms[i] == ns[i];
    }
  }

  /** A broadcast reaches every member once. */
  lemma {:induction false} ToAllReaches(ms: seq<Member>, t: Table, sock: int)
    requires DistinctSocks(ms)
    ensures SentTo(ToAll(ms, t), sock) == if OnList(ms, sock) then [t] else []
  {
    if ms != [] {
      var ns, m := ms[..|ms| - 1], ms[|ms| - 1];
      assert forall i :: 0 <= i < |ns| ==> ns[i].sock != m.sock;
      assert ms == ns + [m];
      assert ToAll(ms, t) == ToAll(ns, t) + [Transmission(m.sock, t)];
      SentToSnoc(ToAll(ns, t), Transmission(m.sock, t), sock);
      ToAllReaches(ns, t, sock);
      OnListSnoc(ns, m, sock);
    }
  }

  lemma ResultsSnoc(t: Table, ts: seq<Table>, b: Table)
    ensures Results(t, ts + [b]) == Results(t, ts) + [MergeBatch(MergeAll(t, ts), b)]
    ensures MergeAll(t, ts + [b]) == MergeBatch(MergeAll(t, ts), b)
  {
  }

  /** What a socket is sent for an action, `now` being the tracker's table before it. */
  function Answer(now: Table, a: Action, own: bool): seq<Table> {
    match a
    case Greet => if own then [now] else []
    case Batch(b) => [MergeBatch(now, b)]
    case _ => []
  }

  /** What `sock` is told while a connection is served: the result of each merge
      and, if the connection is its own, the table as it stands at each REGISTER. */
  function Told(t: Table, actions: seq<Action>, own: bool): seq<Table> {
    if actions == [] then []
    else
      var pre, a := actions[..|actions| - 1], actions[|actions| - 1];
      Told(t, pre, own) + Answer(MergeAll(t, Batches(pre)), a, own)
  }

  lemma ToldSnoc(t: Table, pre: seq<Action>, a: Action, own: bool)
    ensures Told(t, pre + [a], own) == Told(t, pre, own) + Answer(MergeAll(t, Batches(pre)), a, own)
  {
    assert (pre + [a])[..|pre|] == pre;
  }

  /** An action other than a greeting is answered by the result of its merge. */
  lemma AnswersAreResults(t: Table, pre: seq<Action>, a: Action, own: bool)
    requires !own || a != Greet
    ensures Results(t, Batches(pre + [a])) == Results(t, Batches(pre)) + Answer(MergeAll(t, Batches(pre)), a, own)
  {
    BatchesSnoc(pre, a);
    if a.Batch? {
      ResultsSnoc(t, Batches(pre), a.table);
    } else {
      assert Batches(pre) + [] == Batches(pre);
    }
  }

  /** Others are told the results of the merges and nothing else. */
  lemma {:induction false} ToldOthers(t: Table, actions: seq<Action>, own: bool)
    requires !own || Greet !in actions
    ensures Told(t, actions, own) == Results(t, Batches(actions))
  {
    if actions != [] {
      var pre, a := actions[..|actions| - 1], actions[|actions| - 1];
      assert actions == pre + [a];
      ToldOthers(t, pre, own);
      ToldSnoc(t, pre, a, own);
      AnswersAreResults(t, pre, a, own);
    }
  }

  ghost predicate SameSocks(ms: seq<Member>, ns: seq<Member>) {
    |ms| == |ns| && forall i :: 0 <= i < |ms| ==> ms[i].sock == ns[i].sock
  }

  /** Starting from `s`, the tracker has done what `actions` say and told `sock` of it. */
  ghost predicate Delivered(s: Session, r: Session, actions: seq<Action>, conn: int, sock: int) {
    && SameSocks(s.members, r.members)
    && r.table == MergeAll(s.table, Batches(actions))
    && SentTo(r.sent, sock) == SentTo(s.sent, sock) + Told(s.table, actions, sock == conn)
  }

  lemma BatchReaches(q: Session, b: Table, sock: int)
    requires DistinctSocks(q.members) && OnList(q.members, sock)
    ensures var t := MergeBatch(q.table, b);
      SentTo(q.sent + ToAll(q.members, t), sock) == SentTo(q.sent, sock) + [t]
  {
    var t := MergeBatch(q.table, b);
    SentToConcat(q.sent, ToAll(q.members, t), sock);
    ToAllReaches(q.members, t, sock);
  }

  lemma SameSocksIs(ms: seq<Member>, ns: seq<Member>, sock: int)
    requires SameSocks(ms, ns) && DistinctSocks(ms) && OnList(ms, sock)
    ensures DistinctSocks(ns) && OnList(ns, sock)
  {
  }

  lemma GreetReaches(q: Session, conn: int, sock: int)
    ensures SentTo(q.sent + [Transmission(conn, q.table)], sock) ==
      SentTo(q.sent, sock) + if sock == conn then [q.table] else []
  {
    SentToSnoc(q.sent, Transmission(conn, q.table), sock);
  }

  lemma SeqAssociates(a: seq<Table>, b: seq<Table>, c: seq<Table>)
    ensures (a + b) + c == a + (b + c)
  {
  }

  lemma BatchesMerged(t: Table, actions: seq<Action>, act: Action)
    ensures MergeAll(t, Batches(actions + [act])) ==
      if act.Batch? then MergeBatch(MergeAll(t, Batches(actions)), act.table) else MergeAll(t, Batches(actions))
  {
    BatchesSnoc(actions, act);
    if act.Batch? {
      ResultsSnoc(t, Batches(actions), act.table);
    } else {
      assert Batches(actions) + [] == Batches(actions);
    }
  }

  /** A step after which the table and what has been sent are as the action says. */
  lemma DeliveredSnoc(s: Session, q: Session, r: Session, conn: int, sock: int, actions: seq<Action>, act: Action)
    requires Delivered(s, q, actions, conn, sock) && SameSocks(q.members, r.members)
    requires r.table == if act.Batch? then MergeBatch(q.table, act.table) else q.table
    requires SentTo(r.sent, sock) == SentTo(q.sent, sock) + Answer(q.table, act, sock == conn)
    ensures Delivered(s, r, actions + [act], conn, sock)
  {
    var own := sock == conn;
    BatchesMerged(s.table, actions, act);
    ToldSnoc(s.table, actions, act, own);
    SeqAssociates(SentTo(s.sent, sock), Told(s.table, actions, own), Answer(q.table, act, own));
  }

  /** What a socket on the list is sent when an action is performed. */
  lemma PerformSends(q: Session, conn: int, at: nat, act: Action, sock: int)
    requires DistinctSocks(q.members) && OnList(q.members, sock)
    ensures var r := Perform(q, conn, at, act);
      && SameSocks(q.members, r.members)
      && SentTo(r.sent, sock) == SentTo(q.sent, sock) + Answer(q.table, act, sock == conn)
  {
    match act
    case Batch(b) => BatchReaches(q, b, sock);
    case Greet => GreetReaches(q, conn, sock);
    case Beat =>
    case Nothing =>
    case Crash =>
  }

  lemma HandleIs(s: Session, q: Session, conn: int, a: Arrival, sock: int, actions: seq<Action>)
    requires DistinctSocks(s.members) && OnList(s.members, sock)
    requires Delivered(s, q, actions, conn, sock)
    ensures Delivered(s, Handle(q, conn, a), actions + [React(q.decoder, a.packet)], conn, sock)
  {
    var act := React(q.decoder, a.packet);
    SameSocksIs(s.members, q.members, sock);
    PerformSends(q, conn, a.at, act, sock);
    DeliveredSnoc(s, q, Handle(q, conn, a), conn, sock, actions, act);
  }

  lemma ServeSnoc(s: Session, conn: int, bs: seq<Arrival>, a: Arrival)
    requires s.decoder == IDLE
    ensures Serve(s, conn, bs + [a]) == Handle(Serve(s, conn, bs), conn, a)
    ensures Reactions(IDLE, PacketsOf(bs + [a])) ==
      Reactions(IDLE, PacketsOf(bs)) + [React(Serve(s, conn, bs).decoder, a.packet)]
  {
    assert (bs + [a])[..|bs|] == bs;
    assert PacketsOf(bs + [a]) == PacketsOf(bs) + [a.packet];
    ServedDecoder(s, conn, bs);
    RunSnoc(IDLE, PacketsOf(bs), a.packet);
  }

  /** A session merges the decoded batches in order, and sends every member just
      what it is to be told. */
  lemma {:induction false} ServeIs(s: Session, conn: int, arrivals: seq<Arrival>, sock: int)
    requires s.decoder == IDLE && DistinctSocks(s.members) && OnList(s.members, sock)
    ensures Delivered(s, Serve(s, conn, arrivals), Reactions(IDLE, PacketsOf(arrivals)), conn, sock)
  {
    if arrivals == [] {
      assert PacketsOf(arrivals) == [];
      assert SentTo(s.sent, sock) + [] == SentTo(s.sent, sock);
    } else {
      var bs, a := arrivals[..|arrivals| - 1], arrivals[|arrivals| - 1];
      assert arrivals == bs + [a];
      ServeIs(s, conn, bs, sock);
      ServeSnoc(s, conn, bs, a);
      HandleIs(s, Serve(s, conn, bs), conn, a, sock, Reactions(IDLE, PacketsOf(bs)));
    }
  }

  /** Packet `k` brings the tracker down. */
  predicate SinksAt(s: Session, conn: int, arrivals: seq<Arrival>, k: nat)
    requires k < |arrivals|
  {
    var q := Serve(s, conn, arrivals[..k]);
    Sinks(q.table, React(q.decoder, arrivals[k].packet))
  }

  /** Position of the first packet that brings the tracker down, or the number of packets. */
  function CrashAt(s: Session, conn: int, arrivals: seq<Arrival>, k: nat): (n: nat)
    requires k <= |arrivals|
    ensures k <= n <= |arrivals|
    decreases |arrivals| - k
  {
    if k == |arrivals| || SinksAt(s, conn, arrivals, k) then k else CrashAt(s, conn, arrivals, k + 1)
  }

  /** The states a connection passes through before any crash. */
  ghost predicate Trail(s: Session, conn: int, arrivals: seq<Arrival>, trail: seq<Session>) {
    && 0 < |trail| <= |arrivals| + 1 && trail[0] == s
    && forall k :: 0 <= k < |trail| - 1 ==>
         && trail[k + 1] == Handle(trail[k], conn, arrivals[k])
         && !Sinks(trail[k].table, React(trail[k].decoder, arrivals[k].packet))
  }

  lemma TrailSnoc(s: Session, conn: int, arrivals: seq<Arrival>, trail: seq<Session>, next: Session)
    requires Trail(s, conn, arrivals, trail) && |trail| <= |arrivals|
    requires var n := |trail| - 1;
      && next == Handle(trail[n], conn, arrivals[n])
      && !Sinks(trail[n].table, React(trail[n].decoder, arrivals[n].packet))
    ensures Trail(s, conn, arrivals, trail + [next])
  {
  }

  lemma HandleKeepsMembers(s: Session, conn: int, a: Arrival)
    ensures |Handle(s, conn, a).members| == |s.members|
  {
  }

  lemma {:induction false} TrailIs(s: Session, conn: int, arrivals: seq<Arrival>, trail: seq<Session>, k: nat)
    requires Trail(s, conn, arrivals, trail) && k < |trail|
    ensures trail[k] == Serve(s, conn, arrivals[..k])
  {
    if k > 0 {
      TrailIs(s, conn, arrivals, trail, k - 1);
      assert arrivals[..k][..k - 1] == arrivals[..k - 1];
      assert trail[k - 1 + 1] == Handle(trail[k - 1], conn, arrivals[k - 1]);
    }
  }

  lemma {:induction false} TrailEnds(s: Session, conn: int, arrivals: seq<Arrival>, trail: seq<Session>, k: nat)
    requires Trail(s, conn, arrivals, trail) && k < |trail|
    requires var n := |trail| - 1;
      n == |arrivals| || Sinks(trail[n].table, React(trail[n].decoder, arrivals[n].packet))
    ensures CrashAt(s, conn, arrivals, k) == |trail| - 1
    decreases |trail| - k
  {
    TrailIs(s, conn, arrivals, trail, k);
    if k < |trail| - 1 {
      TrailEnds(s, conn, arrivals, trail, k + 1);
    }
  }

  lemma {:induction false} ServedDecoder(s: Session, conn: int, arrivals: seq<Arrival>)
    ensures Serve(s, conn, arrivals).decoder == Consumed(s.decoder, PacketsOf(arrivals))
  {
    if arrivals != [] {
      ServedDecoder(s, conn, arrivals[..|arrivals| - 1]);
      assert PacketsOf(arrivals)[..|arrivals| - 1] == PacketsOf(arrivals[..|arrivals| - 1]);
    }
  }

  // ----- which connections are served to their end -----

  lemma {:induction false} CrashAtEndIff(s: Session, conn: int, arrivals: seq<Arrival>, k: nat)
    requires k <= |arrivals|
    ensures CrashAt(s, conn, arrivals, k) == |arrivals| <==>
      forall j :: k <= j < |arrivals| ==> !SinksAt(s, conn, arrivals, j)
    decreases |arrivals| - k
  {
    if k < |arrivals| {
      CrashAtEndIff(s, conn, arrivals, k + 1);
    }
  }

  lemma {:induction false} ServedTable(s: Session, conn: int, arrivals: seq<Arrival>)
    requires s.decoder == IDLE
    ensures Serve(s, conn, arrivals).table == MergeAll(s.table, Batches(Reactions(IDLE, PacketsOf(arrivals))))
  {
    if arrivals == [] {
      assert PacketsOf(arrivals) == [];
    } else {
      var bs, a := arrivals[..|arrivals| - 1], arrivals[|arrivals| - 1];
      assert arrivals == bs + [a];
      ServedTable(s, conn, bs);
      ServeSnoc(s, conn, bs, a);
      BatchesMerged(s.table, Reactions(IDLE, PacketsOf(bs)), React(Serve(s, conn, bs).decoder, a.packet));
    }
  }

  /** The tracker, starting from `t`, survives all of the actions. */
  predicate Survives(t: Table, actions: seq<Action>) {
    actions == [] ||
      var pre, a := actions[..|actions| - 1], actions[|actions| - 1];
      Survives(t, pre) && !Sinks(MergeAll(t, Batches(pre)), a)
  }

  lemma {:induction false} ServedSurvives(s: Session, conn: int, arrivals: seq<Arrival>)
    requires s.decoder == IDLE
    ensures Survives(s.table, Reactions(IDLE, PacketsOf(arrivals))) <==>
      forall j :: 0 <= j < |arrivals| ==> !SinksAt(s, conn, arrivals, j)
  {
    if arrivals == [] {
      assert PacketsOf(arrivals) == [];
    } else {
      var bs, a := arrivals[..|arrivals| - 1], arrivals[|arrivals| - 1];
      assert arrivals == bs + [a];
      ServedSurvives(s, conn, bs);
      ServedTable(s, conn, bs);
      ServeSnoc(s, conn, bs, a);
      SurvivesSnoc(s.table, Reactions(IDLE, PacketsOf(bs)), React(Serve(s, conn, bs).decoder, a.packet));
      SinksSnoc(s, conn, bs, a);
    }
  }

  lemma SinksSnoc(s: Session, conn: int, bs: seq<Arrival>, a: Arrival)
    ensures (forall j :: 0 <= j <= |bs| ==> !SinksAt(s, conn, bs + [a], j)) <==>
      && (forall j :: 0 <= j < |bs| ==> !SinksAt(s, conn, bs, j))
      && var q := Serve(s, conn, bs); !Sinks(q.table, React(q.decoder, a.packet))
  {
    var arrivals := bs + [a];
    assert arrivals[..|bs|] == bs && arrivals[|bs|] == a;
    forall j | 0 <= j < |bs| ensures SinksAt(s, conn, bs, j) == SinksAt(s, conn, arrivals, j) {
      assert bs[..j] == arrivals[..j];
    }
    if forall j :: 0 <= j <= |bs| ==> !SinksAt(s, conn, arrivals, j) {
      assert !SinksAt(s, conn, arrivals, |bs|);
      forall j | 0 <= j < |bs| ensures !SinksAt(s, conn, bs, j) {
        assert !SinksAt(s, conn, arrivals, j);
      }
    }
  }

  lemma SurvivesSnoc(t: Table, pre: seq<Action>, a: Action)
    ensures Survives(t, pre + [a]) <==> Survives(t, pre) && !Sinks(MergeAll(t, Batches(pre)), a)
  {
    assert (pre + [a])[..|pre|] == pre;
  }

  /** The first of the batches is empty, and so is the table before it. */
  predicate EmptyFirst(t: Table, bs: seq<Table>) {
    t == [] && bs != [] && bs[0] == []
  }

  lemma MergeIsEmptyIff(t: Table, b: Table)
    ensures MergeBatch(t, b) == [] <==> t == [] && b == []
  {
  }

  lemma {:induction false} MergeAllIsEmptyIff(t: Table, bs: seq<Table>)
    ensures MergeAll(t, bs) == [] <==> t == [] && forall i :: 0 <= i < |bs| ==> bs[i] == []
  {
    if bs != [] {
      MergeAllIsEmptyIff(t, bs[..|bs| - 1]);
      MergeIsEmptyIff(MergeAll(t, bs[..|bs| - 1]), bs[|bs| - 1]);
    }
  }

  lemma {:induction false} SurvivesIff(t: Table, actions: seq<Action>)
    ensures Survives(t, actions) <==> Crash !in actions && !EmptyFirst(t, Batches(actions))
  {
    if actions != [] {
      var pre, a := actions[..|actions| - 1], actions[|actions| - 1];
      assert actions == pre + [a];
      SurvivesIff(t, pre);
      MergeAllIsEmptyIff(t, Batches(pre));
      if a.Batch? {
        assert Batches(actions) == Batches(pre) + [a.table];
        EmptyFirstSnoc(t, Batches(pre), a.table);
      } else {
        assert Batches(actions) == Batches(pre) + [];
      }
    }
  }

  lemma EmptyFirstSnoc(t: Table, bs: seq<Table>, b: Table)
    ensures EmptyFirst(t, bs + [b]) <==> EmptyFirst(t, bs) || (bs == [] && t == [] && b == [])
  {
  }

  /** From one end to the other: a connection that carries lists `ls`, whatever
      else is interleaved, is served to its end exactly if all of them end
      properly, and the first of them is not an empty one that meets a tracker
      without records.  Then it brings the tracker's table to the merge of all of
      them, and every member of the peer list is sent the result of each merge,
      in order; the member at the other end is also sent the answers to its
      REGISTERs, each as the table stands then. */
  lemma SessionDelivers(s: Session, conn: int, arrivals: seq<Arrival>, ls: seq<seq<WireNode>>, sock: int)
    requires s.decoder == IDLE && DistinctSocks(s.members) && OnList(s.members, sock)
    requires Updates(PacketsOf(arrivals)) == SendAll(ls)
    ensures CrashAt(s, conn, arrivals, 0) == |arrivals| <==>
      AllEnd(ls) && !(s.table == [] && ls != [] && ls[0] == [])
    ensures AllEnd(ls) ==>
      var r, actions := Serve(s, conn, arrivals), Reactions(IDLE, PacketsOf(arrivals));
      && r.table == MergeAll(s.table, AllFiles(ls)) && r.decoder == IDLE
      && SentTo(r.sent, sock) == SentTo(s.sent, sock) + Told(s.table, actions, sock == conn)
      && (sock != conn ==> Told(s.table, actions, sock == conn) == Results(s.table, AllFiles(ls)))
  {
    FramingRoundTrip(PacketsOf(arrivals), ls);
    ServedIff(s, conn, arrivals, ls);
    ServeIs(s, conn, arrivals, sock);
    ServedDecoder(s, conn, arrivals);
    if sock != conn {
      ToldOthers(s.table, Reactions(IDLE, PacketsOf(arrivals)), false);
    }
  }

  lemma ServedIff(s: Session, conn: int, arrivals: seq<Arrival>, ls: seq<seq<WireNode>>)
    requires s.decoder == IDLE && Delivers(PacketsOf(arrivals), ls)
    ensures CrashAt(s, conn, arrivals, 0) == |arrivals| <==>
      AllEnd(ls) && !(s.table == [] && ls != [] && ls[0] == [])
  {
    CrashAtEndIff(s, conn, arrivals, 0);
    ServedSurvives(s, conn, arrivals);
    SurvivesIff(s.table, Reactions(IDLE, PacketsOf(arrivals)));
    assert ls != [] ==> AllFiles(ls)[0] == Files(ls[0]);
  }

  /** The smallest connection that is not: a peer reports an empty table to a
      tracker that has no record yet. */
  lemma EmptyReportSinks(s: Session, conn: int, a: Arrival)
    requires s.decoder == IDLE && s.table == [] && SendPackets([], FILE_UPDATE) == [a.packet]
    ensures CrashAt(s, conn, [a], 0) == 0
  {
    var p := SendPackets([], FILE_UPDATE)[0];
    assert [a][0].packet == p == PeerPacket(FILE_UPDATE, 0, NO_NODE);
    assert [a][..0] == [];
    assert React(IDLE, p) == Batch([]);
    assert SinksAt(s, conn, [a], 0);
  }

  /** A real connection opens with its one REGISTER: its peer is sent the table
      it finds, and then the result of each of its reports, in order. */
  lemma {:induction false} ReporterIsAnswered(s: Session, conn: int, first: Arrival, more: seq<Arrival>,
                                              ls: seq<seq<WireNode>>)
    requires s.decoder == IDLE && DistinctSocks(s.members) && OnList(s.members, conn)
    requires first.packet.ptype == REGISTER && forall a :: a in more ==> a.packet.ptype != REGISTER
    requires Updates(PacketsOf(more)) == SendAll(ls) && AllEnd(ls)
    ensures CrashAt(s, conn, [first] + more, 0) == 1 + |more| <==> !(s.table == [] && ls != [] && ls[0] == [])
    ensures SentTo(Serve(s, conn, [first] + more).sent, conn) ==
      SentTo(s.sent, conn) + ([s.table] + Results(s.table, AllFiles(ls)))
  {
    var greeted := Handle(s, conn, first);
    ServeAfter(s, conn, first, more);
    GreetedIff(s, conn, first, more, ls);
    GreetReaches(s, conn, conn);
    ServeIs(greeted, conn, more, conn);
    FramingRoundTrip(PacketsOf(more), ls);
    OnlyRegisterGreets(IDLE, more);
    ToldOthers(s.table, Reactions(IDLE, PacketsOf(more)), true);
    SeqAssociates(SentTo(s.sent, conn), [s.table], Results(s.table, AllFiles(ls)));
  }

  lemma {:induction false} GreetedIff(s: Session, conn: int, first: Arrival, more: seq<Arrival>,
                                      ls: seq<seq<WireNode>>)
    requires s.decoder == IDLE && first.packet.ptype == REGISTER
    requires Updates(PacketsOf(more)) == SendAll(ls)
    ensures CrashAt(s, conn, [first] + more, 0) == 1 + |more| <==>
      AllEnd(ls) && !(s.table == [] && ls != [] && ls[0] == [])
  {
    UpdatesAfter(first.packet, PacketsOf(more));
    assert PacketsOf([first] + more) == [first.packet] + PacketsOf(more);
    FramingRoundTrip(PacketsOf([first] + more), ls);
    ServedIff(s, conn, [first] + more, ls);
  }

  lemma {:induction false} UpdatesAfter(p: PeerPacket, ps: seq<PeerPacket>)
    requires p.ptype != FILE_UPDATE
    ensures Updates([p] + ps) == Updates(ps)
  {
    if ps == [] {
      assert [p] + ps == [p] && [p][..0] == [];
    } else {
      UpdatesAfter(p, ps[..|ps| - 1]);
      assert ([p] + ps)[..|ps|] == [p] + ps[..|ps| - 1];
    }
  }

  lemma {:induction false} ServeAfter(s: Session, conn: int, first: Arrival, more: seq<Arrival>)
    ensures Serve(s, conn, [first] + more) == Serve(Handle(s, conn, first), conn, more)
  {
    if more == [] {
      assert [first] + more == [first] && [first][..0] == [];
    } else {
      ServeAfter(s, conn, first, more[..|more| - 1]);
      assert ([first] + more)[..|more|] == [first] + more[..|more| - 1];
    }
  }

  lemma {:induction false} OnlyRegisterGreets(d: Decoder, arrivals: seq<Arrival>)
    requires forall a :: a in arrivals ==> a.packet.ptype != REGISTER
    ensures Greet !in Reactions(d, PacketsOf(arrivals))
  {
    if arrivals != [] {
      var pre, a := arrivals[..|arrivals| - 1], arrivals[|arrivals| - 1];
      OnlyRegisterGreets(d, pre);
      assert a in arrivals;
      assert PacketsOf(arrivals) == PacketsOf(pre) + [a.packet];
      RunSnoc(d, PacketsOf(pre), a.packet);
    }
  }
}
