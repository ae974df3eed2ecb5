/** The tracker process: its globals and the functions that change them in place
    (tracker/tracker.c). */
module TrackerProcess {
  import opened Tables
  import opened Providers
  import opened Merge
  import opened FileTables
  import opened Links
  import opened Framing
  import opened Members
  import opened Sessions

  /** What a heartbeat sweep from position `k` on leaves of the table. */
  function SweptTable(t: Table, ms: seq<Member>, k: nat, now: nat): Table
    decreases |ms| - k
  {
    if k >= |ms| then t
    else if !Expired(ms[k], now) then SweptTable(t, ms, k + 1, now)
    else
      var rest := Members.DeletePeer(ms, ms[k].sock);
      SweptTable(RemovePeer(t, ms[k].ip), rest, if |rest| < |ms| then k else k + 1, now)
  }

  /** The address belongs to a member from position `k` on that has expired. */
  ghost predicate ExpiredIp(ms: seq<Member>, k: nat, now: nat, ip: string) {
    exists i :: k <= i < |ms| && Expired(ms[i], now) && ms[i].ip == ip
  }

  /** `r` lists the address exactly if `e` did and it is none that has expired. */
  ghost predicate StillListed(e: Entry, r: Entry, ms: seq<Member>, k: nat, now: nat, ip: string) {
    ip in Listed(r.slots) <==> ip in Listed(e.slots) && !ExpiredIp(ms, k, now, ip)
  }

  lemma ExpiredIpNext(ms: seq<Member>, k: nat, now: nat, ip: string)
    requires DistinctSocks(ms) && k < |ms| && Expired(ms[k], now)
    ensures var rest := Members.DeletePeer(ms, ms[k].sock);
      ExpiredIp(ms, k, now, ip) <==> ip == ms[k].ip || ExpiredIp(rest, if |rest| < |ms| then k else k + 1, now, ip)
  {
    DeleteIs(ms, k);
    if k > 0 {
      var rest := ms[..k] + ms[k + 1..];
      forall i | k < i < |ms| ensures rest[i - 1] == ms[i] {
      }
      if ExpiredIp(ms, k, now, ip) && ip != ms[k].ip {
        var i :| k <= i < |ms| && Expired(ms[i], now) && ms[i].ip == ip;
        assert rest[i - 1] == ms[i];
      }
      if ExpiredIp(rest, k, now, ip) {
        var i :| k <= i < |rest| && Expired(rest[i], now) && rest[i].ip == ip;
        assert rest[i] == ms[i + 1];
      }
    }
  }

  /** A sweep takes out of every record just the addresses of the members that
      have expired, and changes nothing else in the table. */
  lemma {:induction false} SweptTableIs(t: Table, ms: seq<Member>, k: nat, now: nat)
    requires GoodSlots(t) && DistinctSocks(ms)
    ensures var r := SweptTable(t, ms, k, now);
      && GoodSlots(r) && |r| == |t|
      && (forall i :: 0 <= i < |t| ==> r[i] == t[i].(slots := r[i].slots))
      && (forall i, a :: 0 <= i < |t| ==> StillListed(t[i], r[i], ms, k, now, a))
    decreases |ms| - k
  {
    if k < |ms| {
      if Expired(ms[k], now) {
        var rest := Members.DeletePeer(ms, ms[k].sock);
        RemovePeerIsExact(t, ms[k].ip);
        DeleteIs(ms, k);
        var u, n, r := RemovePeer(t, ms[k].ip), if |rest| < |ms| then k else k + 1, SweptTable(t, ms, k, now);
        SweptTableIs(u, rest, n, now);
        forall i, a | 0 <= i < |t| ensures StillListed(t[i], r[i], ms, k, now, a) {
          assert StillListed(u[i], r[i], rest, n, now, a);
          ExpiredIpNext(ms, k, now, a);
        }
      } else {
        SweptTableIs(t, ms, k + 1, now);
        var r := SweptTable(t, ms, k, now);
        forall i, a | 0 <= i < |t|
          ensures StillListed(t[i], r[i], ms, k, now, a)
        {
          assert StillListed(t[i], r[i], ms, k + 1, now, a);
          ExpiredIpSkip(ms, k, now, a);
        }
      }
    }
  }

  lemma ExpiredIpSkip(ms: seq<Member>, k: nat, now: nat, ip: string)
    requires k < |ms| && !Expired(ms[k], now)
    ensures ExpiredIp(ms, k, now, ip) <==> ExpiredIp(ms, k + 1, now, ip)
  {
  }

  /** An expired member is dealt with, and the sweep goes on from where it was or
      from the next member. */
  lemma SweepStepIs(t: Table, ms: seq<Member>, k: nat, now: nat)
    requires DistinctSocks(ms) && k < |ms| && Expired(ms[k], now)
    ensures var rest := Members.DeletePeer(ms, ms[k].sock); var n := if |rest| < |ms| then k else k + 1;
      && DistinctSocks(rest) && |rest| - n < |ms| - k
      && SweepFrom(rest, n, now) == SweepFrom(ms, k, now)
      && SweptTable(RemovePeer(t, ms[k].ip), rest, n, now) == SweptTable(t, ms, k, now)
  {
    DeleteIs(ms, k);
  }

  class Tracker {
    var ft: FileTable?             // not there until the first record is stored
    var members: seq<Member>
    var sent: seq<Transmission>
    ghost var Repr: set<object>    // the objects of the file table

    ghost predicate Valid()
      reads this, ft, Repr
    {
      if ft == null then Repr == {}
      else ft in Repr && ft.Repr == Repr && ft.Valid() && ft.contents != [] && this !in Repr
    }

    ghost function Contents(): Table
      reads this, ft
    {
      if ft == null then [] else ft.contents
    }

    constructor ()
      ensures Valid() && Repr == {} && Contents() == [] && members == [] && sent == []
    {
      ft, members, sent, Repr := null, [], [], {};
    }

    /** One node of a reported table: refresh the record of that name, or append
        a new one behind the last node the search came to. */
    method MergeNode(p: Node, ghost e: Entry)
      requires Valid() && p.Holds(e) && p !in Repr && p.newpeerip !in Repr
      modifies this`ft, this`Repr, Repr
      ensures Valid() && fresh(Repr - old(Repr))
      ensures Contents() == MergeOne(old(Contents()), e)
    {
      var t: Node? := null;
      var fileFound := false;
      ghost var j := 0;
      if ft != null {
        t, fileFound, j := ft.Search(p.name);
        if fileFound {
          ft.RefreshAt(t, j, p, e);
        }
      }
      if !fileFound {
        var rec := Entry(p.name, Version(p.timestamp, p.size), p.ftype, p.status, Only(p.newpeerip[0]));
        if t == null {
          ft := new FileTable();
        }
        var node := ft.Append(t, rec);
        Repr := ft.Repr;
      }
    }

    /** The merge has come from `t0` along `steps`, to the node `p` of the reported
        table or to its end. */
    ghost predicate Merging(peerFt: FileTable, t0: Table, b: Table, steps: seq<Table>, p: Node?)
      reads this, ft, Repr, peerFt, peerFt.Repr
    {
      && Valid() && peerFt.Valid() && peerFt.Repr !! Repr && this !in peerFt.Repr
      && peerFt.contents == b && Passes(t0, b, steps)
      && Contents() == steps[|steps| - 1]
      && p == if |steps| <= |b| then peerFt.spine[|steps| - 1] else null
    }

    /** One turn of the merge loop, which does not disturb the reported table. */
    method MergeNext(peerFt: FileTable, ghost t0: Table, ghost b: Table, ghost steps: seq<Table>, p: Node)
      returns (next: Node?, ghost steps': seq<Table>)
      requires Merging(peerFt, t0, b, steps, p)
      modifies this`ft, this`Repr, Repr
      ensures Merging(peerFt, t0, b, steps', next) && fresh(Repr - old(Repr)) && |steps'| == |steps| + 1
    {
      next := p.pNext;
      MergeNode(p, b[|steps| - 1]);
      PassesSnoc(t0, b, steps, Contents());
      steps' := steps + [Contents()];
    }

    /** Merge a reported table.  `ok` is false when there is no table even then,
        and displaying it goes through NULL. */
    method UpdateFiletable(peerFt: FileTable) returns (ok: bool)
      requires Valid() && peerFt.Valid() && peerFt.Repr !! Repr && this !in peerFt.Repr
      modifies this`ft, this`Repr, Repr
      ensures Valid() && fresh(Repr - old(Repr))
      ensures Contents() == MergeBatch(old(Contents()), old(peerFt.contents))
      ensures ok <==> !(old(Contents()) == [] && old(peerFt.contents) == [])
    {
      ghost var t0, b := Contents(), peerFt.contents;
      ghost var steps := MergeNodes(peerFt);
      PassesEnd(t0, b, steps);
      MergeIsEmptyIff(t0, b);
      ok := ft != null;
    }

    /** The merge loop, node by node, and the tables it passes through. */
    method MergeNodes(peerFt: FileTable) returns (ghost steps: seq<Table>)
      requires Valid() && peerFt.Valid() && peerFt.Repr !! Repr && this !in peerFt.Repr
      modifies this`ft, this`Repr, Repr
      ensures Valid() && fresh(Repr - old(Repr))
      ensures Passes(old(Contents()), old(peerFt.contents), steps)
      ensures |steps| == |old(peerFt.contents)| + 1 && Contents() == steps[|steps| - 1]
    {
      ghost var t0, b := Contents(), peerFt.contents;
      steps := [t0];
      var p := peerFt.head;
      while p != null
        invariant Merging(peerFt, t0, b, steps, p) && fresh(Repr - old(Repr))
        decreases |b| + 1 - |steps|
      {
        p, steps := MergeNext(peerFt, t0, b, steps, p);
      }
    }

    /** tracker_sendpkt of the file table, if there is one. */
    method SendTable(sock: int)
      requires Valid()
      modifies this`sent
      ensures sent == old(sent) + [Transmission(sock, Contents())]
    {
      var files := [];
      if ft != null {
        files := ft.Copies();
      }
      sent := sent + [Transmission(sock, files)];
    }

    /** Send the table to everyone on the list. */
    method BroadcastFiletable()
      requires Valid()
      modifies this`sent
      ensures sent == old(sent) + ToAll(members, Contents())
    {
      for i := 0 to |members|
        invariant sent == old(sent) + ToAll(members, Contents())[..i]
      {
        SendTable(members[i].sock);
      }
    }

    // ----- the peer list -----

    method AddPeer(sock: int, ip: string, now: nat) returns (added: bool)
      modifies this`members
      ensures members == Members.AddPeer(old(members), sock, ip, now)
      ensures added <==> members != old(members)
    {
      if members != [] {
        var k := 0;
        while k < |members| - 1
          invariant 0 <= k <= |members| - 1 && members == old(members)
          invariant forall i :: 0 <= i < k ==> members[i].sock != sock
        {
          if members[k].sock == sock {
            return false;
          }
          k := k + 1;
        }
      }
      members := members + [Member(ip, sock, now)];
      added := true;
    }

    method HeardPeer(sock: int, now: nat) returns (found: bool)
      modifies this`members
      ensures members == Members.HeardPeer(old(members), sock, now)
      ensures found <==> exists i :: 0 <= i < |old(members)| && old(members)[i].sock == sock
    {
      for k := 0 to |members|
        invariant members == old(members)
        invariant forall i :: 0 <= i < k ==> members[i].sock != sock
      {
        if members[k].sock == sock {
          members := members[k := members[k].(lastHeard := now)];
          return true;
        }
      }
      found := false;
    }

    /** Forget an address in every record, and unlink the first member after the
        head that has the socket; a head that has it stays. */
    method DeletePeer(sock: int, ip: string)
      requires Valid() && members != []
      modifies this`members, Repr
      ensures Valid() && Repr == old(Repr) && ft == old(ft)
      ensures Contents() == RemovePeer(old(Contents()), ip)
      ensures members == Members.DeletePeer(old(members), sock)
    {
      if ft != null {
        ft.RemoveFromAll(ip);
      }
      var k := 0;
      while k < |members| - 1
        invariant 0 <= k <= |members| - 1 && members == old(members)
        invariant forall i :: 0 <= i <= k && 0 < k ==> members[i].sock != sock
        decreases |members| - k
      {
        if k == 0 && members[k].sock == sock {
          break;
        } else if members[k + 1].sock == sock {
          members := members[..k + 1] + members[k + 2..];
          break;
        }
        k := k + 1;
      }
    }

    /** One step of a sweep: on to the next member, which is at the same position
        if this one was unlinked. */
    method SweepOne(k: nat, now: nat) returns (next: nat)
      requires Valid() && DistinctSocks(members) && k < |members|
      modifies this`members, Repr
      ensures Valid() && Repr == old(Repr) && ft == old(ft)
      ensures DistinctSocks(members) && |members| - next < |old(members)| - k
      ensures SweepFrom(members, next, now) == SweepFrom(old(members), k, now)
      ensures SweptTable(Contents(), members, next, now) == SweptTable(old(Contents()), old(members), k, now)
    {
      next := k + 1;
      if Expired(members[k], now) {
        var before := |members|;
        SweepStepIs(Contents(), members, k, now);
        DeletePeer(members[k].sock, members[k].ip);
        if |members| < before {
          next := k;
        }
      }
    }

    /** One round of the heartbeat thread. */
    method Heartbeat(now: nat)
      requires Valid() && DistinctSocks(members)
      modifies this`members, Repr
      ensures Valid() && Repr == old(Repr)
      ensures members == Sweep(old(members), now)
      ensures Contents() == SweptTable(old(Contents()), old(members), 0, now)
    {
      var k: nat := 0;
      while k < |members|
        invariant Valid() && Repr == old(Repr) && ft == old(ft)
        invariant DistinctSocks(members)
        invariant SweepFrom(members, k, now) == Sweep(old(members), now)
        invariant SweptTable(Contents(), members, k, now) == SweptTable(old(Contents()), old(members), 0, now)
        decreases |members| - k
      {
        k := SweepOne(k, now);
      }
    }

    // ----- one connection -----

    ghost function Now(d: Decoder): Session
      reads this, ft
    {
      Session(Contents(), members, sent, d)
    }

    static ghost function Received(counter: int, size: int, peerFt: FileTable?, link: nat): Decoder
      reads peerFt
    {
      Decoder(counter, size, if peerFt == null then None else Some(Chain(peerFt.contents, link)))
    }

    /** The thread's own table, null when none is being received, its last node,
        and the link that node came with. */
    static ghost predicate Collecting(counter: int, size: int, peerFt: FileTable?, last: Node?, link: nat)
      reads peerFt, if peerFt == null then {} else peerFt.Repr
    {
      if peerFt == null then counter == size == -1
      else
        && peerFt.Valid() && counter >= 0 && (counter > 0 <==> peerFt.contents != [])
        && (if counter > 0 then last == peerFt.spine[|peerFt.spine| - 1] else link == 0)
    }

    /** A FILE_UPDATE packet goes into the table being received. */
    static method Receive(pkt: PeerPacket, counter: int, size: int, peerFt: FileTable?, last: Node?, link: nat)
      returns (counter': int, size': int, peerFt': FileTable?, last': Node?, link': nat)
      requires Collecting(counter, size, peerFt, last, link)
      modifies if peerFt == null then {} else peerFt.Repr
      ensures Collecting(counter', size', peerFt', last', link')
      ensures peerFt' != null ==> fresh(peerFt'.Repr - if peerFt == null then {} else old(peerFt.Repr))
      ensures Received(counter', size', peerFt', link') == Absorb(old(Received(counter, size, peerFt, link)), pkt)
    {
      counter', size', peerFt', last', link' := counter, size, peerFt, last, link;
      if counter == -1 && pkt.fileTableSize != -1 {
        size' := pkt.fileTableSize;
        peerFt' := new FileTable();
        link' := 0;
        counter' := 0;
      } else if counter < size && pkt.fileTableSize == -1 {
        last' := peerFt.Append(if counter == 0 then null else last, pkt.node.file);
        link' := pkt.node.next;
        counter' := counter + 1;
      }
    }

    /** A complete table is merged and the result sent to everyone. */
    method FinishTable(peerFt: FileTable) returns (ok: bool)
      requires Valid() && peerFt.Valid() && peerFt.Repr !! Repr && this !in peerFt.Repr
      modifies this`ft, this`sent, this`Repr, Repr
      ensures Valid() && fresh(Repr - old(Repr))
      ensures Contents() == MergeBatch(old(Contents()), old(peerFt.contents))
      ensures ok <==> !(old(Contents()) == [] && old(peerFt.contents) == [])
      ensures sent == if ok then old(sent) + ToAll(members, Contents()) else old(sent)
    {
      ok := UpdateFiletable(peerFt);
      if ok {
        BroadcastFiletable();
      }
    }

    /** A FILE_UPDATE packet, with what follows if it is a table's last.  `ok` is
        false when the tracker does not survive that. */
    method TakeUpdate(pkt: PeerPacket, counter: int, size: int, peerFt: FileTable?, last: Node?, link: nat)
      returns (counter': int, size': int, peerFt': FileTable?, last': Node?, link': nat, ok: bool)
      requires Valid() && Collecting(counter, size, peerFt, last, link)
      requires peerFt != null ==> peerFt.Repr !! Repr && this !in peerFt.Repr
      modifies this`ft, this`sent, this`Repr, Repr, if peerFt == null then {} else peerFt.Repr
      ensures Valid() && fresh(Repr - old(Repr))
      ensures var e := Absorb(old(Received(counter, size, peerFt, link)), pkt);
        && (ok <==>
              (e.counter == e.size ==>
                 && e.partial.Some? && e.partial.value.last == 0
                 && !(old(Contents()) == [] && e.partial.value.files == [])))
        && (ok && e.counter == e.size ==>
              && Received(counter', size', peerFt', link') == IDLE
              && Contents() == MergeBatch(old(Contents()), e.partial.value.files)
              && sent == old(sent) + ToAll(members, Contents()))
        && (!ok || e.counter != e.size ==> Contents() == old(Contents()) && sent == old(sent))
        && (e.counter != e.size ==> Received(counter', size', peerFt', link') == e)
      ensures ok ==> Collecting(counter', size', peerFt', last', link')
      ensures ok && peerFt' != null ==>
        && peerFt'.Repr !! Repr && this !in peerFt'.Repr
        && fresh(peerFt'.Repr - if peerFt == null then {} else old(peerFt.Repr))
    {
      counter', size', peerFt', last', link' := Receive(pkt, counter, size, peerFt, last, link);
      ok := true;
      if counter' == size' {
        if peerFt' == null || link' != 0 {
          ok := false;
        } else {
          ok := FinishTable(peerFt');
          counter', size', peerFt' := -1, -1, null;
        }
      }
    }

    /** One packet.  `ok` is false when the tracker does not survive it. */
    method HandlePacket(conn: int, a: Arrival, counter: int, size: int, peerFt: FileTable?, last: Node?, link: nat)
      returns (counter': int, size': int, peerFt': FileTable?, last': Node?, link': nat, ok: bool)
      requires Valid() && Collecting(counter, size, peerFt, last, link)
      requires peerFt != null ==> peerFt.Repr !! Repr && this !in peerFt.Repr
      modifies this, Repr, if peerFt == null then {} else peerFt.Repr
      ensures Valid() && fresh(Repr - old(Repr))
      ensures ok <==> !Sinks(old(Contents()), React(old(Received(counter, size, peerFt, link)), a.packet))
      ensures ok ==> Collecting(counter', size', peerFt', last', link')
      ensures ok && peerFt' != null ==>
        && peerFt'.Repr !! Repr && this !in peerFt'.Repr
        && fresh(peerFt'.Repr - if peerFt == null then {} else old(peerFt.Repr))
      ensures ok ==>
        Now(Received(counter', size', peerFt', link')) ==
          Handle(old(Now(Received(counter, size, peerFt, link))), conn, a)
      ensures !ok ==> Contents() == old(Contents()) && members == old(members) && sent == old(sent)
    {
      if a.packet.ptype == FILE_UPDATE {
        UpdateIs(Now(Received(counter, size, peerFt, link)), conn, a);
        counter', size', peerFt', last', link', ok := TakeUpdate(a.packet, counter, size, peerFt, last, link);
      } else {
        counter', size', peerFt', last', link', ok := counter, size, peerFt, last, link, true;
        if a.packet.ptype == REGISTER {
          SendTable(conn);
        } else if a.packet.ptype == KEEP_ALIVE {
          var found := HeardPeer(conn, a.at);
        }
      }
    }

    /** The loop invariant of the thread: it has come along `trail` from `s0`. */
    ghost predicate Serving(s0: Session, conn: int, arrivals: seq<Arrival>, trail: seq<Session>,
                            counter: int, size: int, peerFt: FileTable?, last: Node?, link: nat)
      reads this, ft, Repr, peerFt, if peerFt == null then {} else peerFt.Repr
    {
      && Valid() && members != []
      && Collecting(counter, size, peerFt, last, link)
      && (peerFt != null ==> peerFt.Repr !! Repr && this !in peerFt.Repr)
      && Trail(s0, conn, arrivals, trail)
      && Now(Received(counter, size, peerFt, link)) == trail[|trail| - 1]
    }

    method ServeNext(ghost s0: Session, conn: int, arrivals: seq<Arrival>, served: nat, ghost trail: seq<Session>,
                     counter: int, size: int, peerFt: FileTable?, last: Node?, link: nat)
      returns (counter': int, size': int, peerFt': FileTable?, last': Node?, link': nat, ok: bool,
               ghost trail': seq<Session>)
      requires Serving(s0, conn, arrivals, trail, counter, size, peerFt, last, link)
      requires served == |trail| - 1 < |arrivals|
      modifies this, Repr, if peerFt == null then {} else peerFt.Repr
      ensures fresh(Repr - old(Repr))
      ensures peerFt' != null ==> fresh(peerFt'.Repr - if peerFt == null then {} else old(peerFt.Repr))
      ensures ok ==>
        |trail'| == |trail| + 1 && Serving(s0, conn, arrivals, trail', counter', size', peerFt', last', link')
      ensures !ok ==> Valid() && members != [] && trail' == trail && Now(trail[served].decoder) == trail[served]
      ensures !ok ==>
        peerFt' == null && Sinks(trail[served].table, React(trail[served].decoder, arrivals[served].packet))
    {
      counter', size', peerFt', last', link', ok :=
        HandlePacket(conn, arrivals[served], counter, size, peerFt, last, link);
      trail' := trail;
      if ok {
        ghost var next := Now(Received(counter', size', peerFt', link'));
        HandleKeepsMembers(trail[served], conn, arrivals[served]);
        TrailSnoc(s0, conn, arrivals, trail, next);
        trail' := trail + [next];
      } else {
        peerFt' := null;
      }
    }

    /** Serve a connection until it ends, and then forget the peer, or until a
        packet brings the tracker down. */
    method Handshake(conn: int, arrivals: seq<Arrival>) returns (served: nat)
      requires Valid() && members != []
      modifies this, Repr
      ensures Valid()
      ensures served == CrashAt(old(Now(IDLE)), conn, arrivals, 0)
      ensures var r := Serve(old(Now(IDLE)), conn, arrivals[..served]);
        && sent == r.sent
        && (served < |arrivals| ==> Contents() == r.table && members == r.members)
        && (served == |arrivals| ==>
              && Contents() == RemovePeer(r.table, if arrivals == [] then "" else arrivals[|arrivals| - 1].ip)
              && members == Members.DeletePeer(r.members, conn))
    {
      ghost var s0 := Now(IDLE);
      ghost var trail;
      served, trail := ServeConnection(conn, arrivals);
      TrailEnds(s0, conn, arrivals, trail, 0);
      TrailIs(s0, conn, arrivals, trail, served);
      if served == |arrivals| {
        DeletePeer(conn, if arrivals == [] then "" else arrivals[|arrivals| - 1].ip);
      }
    }

    /** The packet loop, and the states it passes through. */
    method ServeConnection(conn: int, arrivals: seq<Arrival>) returns (served: nat, ghost trail: seq<Session>)
      requires Valid() && members != []
      modifies this, Repr
      ensures Valid() && members != [] && fresh(Repr - old(Repr))
      ensures served <= |arrivals| && |trail| == served + 1 && Trail(old(Now(IDLE)), conn, arrivals, trail)
      ensures Now(trail[served].decoder) == trail[served]
      ensures served < |arrivals| ==>
        Sinks(trail[served].table, React(trail[served].decoder, arrivals[served].packet))
    {
      ghost var s0 := Now(IDLE);
      var counter, size := -1, -1;
      var peerFt: FileTable? := null;
      var temp: Node? := null;
      var link := 0;
      trail := [s0];
      served := 0;
      while served < |arrivals|
        invariant Serving(s0, conn, arrivals, trail, counter, size, peerFt, temp, link)
        invariant served == |trail| - 1
        invariant fresh(Repr - old(Repr))
        invariant peerFt != null ==> fresh(peerFt.Repr)
      {
        var ok;
        counter, size, peerFt, temp, link, ok, trail :=
          ServeNext(s0, conn, arrivals, served, trail, counter, size, peerFt, temp, link);
        if !ok {
          return;
        }
        served := served + 1;
      }
    }
  }
}
