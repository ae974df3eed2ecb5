/** Packets and the peer list: what serving a connection does to the stamps, and
    whose addresses a sweep takes out of the records (tracker/tracker.c). */
module Heartbeats {
  import opened Tables
  import opened Providers
  import opened Merge
  import opened Framing
  import opened Members
  import opened Sessions
  import opened TrackerProcess

  /** The list after further events. */
  function AfterFrom(ms: seq<Member>, events: seq<Event>): seq<Member> {
    if events == [] then ms else Step(AfterFrom(ms, events[..|events| - 1]), events[|events| - 1])
  }

  /** The signs of life a connection gives: one for each KEEP_ALIVE packet, when it
      is received, and none for any other. */
  function Beats(conn: int, arrivals: seq<Arrival>): seq<Event> {
    if arrivals == [] then []
    else
      var a := arrivals[|arrivals| - 1];
      Beats(conn, arrivals[..|arrivals| - 1]) + if a.packet.ptype == KEEP_ALIVE then [Heard(a.at, conn)] else []
  }

  /** When the last KEEP_ALIVE packet was received. */
  function LastBeat(arrivals: seq<Arrival>): Sign {
    if arrivals == [] then Never
    else
      var a := arrivals[|arrivals| - 1];
      if a.packet.ptype == KEEP_ALIVE then At(a.at) else LastBeat(arrivals[..|arrivals| - 1])
  }

  lemma AfterFromSnoc(ms: seq<Member>, events: seq<Event>, e: Event)
    ensures AfterFrom(ms, events + [e]) == Step(AfterFrom(ms, events), e)
  {
    assert (events + [e])[..|events|] == events;
  }

  lemma {:induction false} AfterConcat(events: seq<Event>, more: seq<Event>)
    ensures After(events + more) == AfterFrom(After(events), more)
  {
    if more == [] {
      assert events + more == events;
    } else {
      AfterConcat(events, more[..|more| - 1]);
      assert (events + more)[..|events + more| - 1] == events + more[..|more| - 1];
    }
  }

  /** Serving a connection leaves the list of the run in which each of its
      KEEP_ALIVE packets is a sign of life, and no other packet is anything. */
  lemma {:induction false} ServedListIs(s: Session, conn: int, arrivals: seq<Arrival>)
    ensures Serve(s, conn, arrivals).members == AfterFrom(s.members, Beats(conn, arrivals))
  {
    if arrivals != [] {
      var bs, a := arrivals[..|arrivals| - 1], arrivals[|arrivals| - 1];
      ServedListIs(s, conn, bs);
      if a.packet.ptype == KEEP_ALIVE {
        AfterFromSnoc(s.members, Beats(conn, bs), Heard(a.at, conn));
      } else {
        assert Beats(conn, arrivals) == Beats(conn, bs);
      }
    }
  }

  /** So serving extends a timed run, and what is proved of timed runs holds of it. */
  lemma ServingExtendsRun(events: seq<Event>, s: Session, conn: int, arrivals: seq<Arrival>)
    requires s.members == After(events)
    ensures Serve(s, conn, arrivals).members == After(events + Beats(conn, arrivals))
  {
    ServedListIs(s, conn, arrivals);
    AfterConcat(events, Beats(conn, arrivals));
  }

  /** The member on the connection has the time of the last KEEP_ALIVE as its
      stamp, or its old one if there was none, and every other is as it was. */
  lemma {:induction false} ServedStampsAre(s: Session, conn: int, arrivals: seq<Arrival>)
    requires DistinctSocks(s.members)
    ensures var ms, r := s.members, Serve(s, conn, arrivals).members;
      && |r| == |ms|
      && forall k :: 0 <= k < |ms| ==>
           r[k] == if ms[k].sock == conn && LastBeat(arrivals).At? then ms[k].(lastHeard := LastBeat(arrivals).time)
                   else ms[k]
  {
    if arrivals != [] {
      var bs, a := arrivals[..|arrivals| - 1], arrivals[|arrivals| - 1];
      ServedStampsAre(s, conn, bs);
      if a.packet.ptype == KEEP_ALIVE {
        HeardPeerIs(Serve(s, conn, bs).members, conn, a.at);
      }
    }
  }

  /** A peer other than the head that sends keep-alives is unlinked by a sweep
      exactly if the last one is more than HEARTBEAT_TIMEOUT seconds old. */
  lemma KeepAlivesKeep(s: Session, conn: int, arrivals: seq<Arrival>, now: nat, k: nat)
    requires DistinctSocks(s.members) && 0 < k < |s.members| && s.members[k].sock == conn
    requires LastBeat(arrivals).At? && LastBeat(arrivals).time <= now < WORD
    ensures var r := Serve(s, conn, arrivals).members;
      k < |r| && (r[k] !in Sweep(r, now) <==> now > LastBeat(arrivals).time + HEARTBEAT_TIMEOUT)
  {
    ServedStampsAre(s, conn, arrivals);
    var r := Serve(s, conn, arrivals).members;
    assert forall i :: 0 <= i < |r| ==> r[i].sock == s.members[i].sock;
    SweepDrops(r, now, k);
    ExpiredIff(r[k], now);
  }

  // ----- the addresses a sweep takes out -----

  /** A connection from this address is on the list and has been silent for too long. */
  ghost predicate SilentFrom(events: seq<Event>, now: nat, ip: string) {
    exists k :: 0 <= k < |After(events)| && SilentAt(events, now, ip, After(events)[k].sock)
  }

  predicate SilentAt(events: seq<Event>, now: nat, ip: string, sock: int) {
    && CameFrom(events, sock) == From(ip)
    && LastHeard(events, sock).At? && now > LastHeard(events, sock).time + HEARTBEAT_TIMEOUT
  }

  lemma ExpiredIsSilent(events: seq<Event>, now: nat, ip: string)
    requires Timed(events) && now < WORD && forall i :: 0 <= i < |events| ==> events[i].at <= now
    ensures ExpiredIp(After(events), 0, now, ip) <==> SilentFrom(events, now, ip)
  {
    var ms := After(events);
    StampsAreTrue(events);
    AddressesAreTrue(events);
    forall k | 0 <= k < |ms|
      ensures Expired(ms[k], now) && ms[k].ip == ip <==> SilentAt(events, now, ip, ms[k].sock)
    {
      assert ms[k] in ms;
      HeardInThePast(events, ms[k].sock, now);
      ExpiredIff(ms[k], now);
    }
  }

  /** A sweep takes out of the records exactly the addresses that silent
      connections on the list came from, the head's among them, and changes
      nothing else in the table. */
  lemma SweepTakesOutSilent(events: seq<Event>, t: Table, now: nat, i: nat, a: string)
    requires Timed(events) && now < WORD && forall i :: 0 <= i < |events| ==> events[i].at <= now
    requires GoodSlots(t) && i < |t|
    ensures var r := SweptTable(t, After(events), 0, now);
      && |r| == |t| && r[i] == t[i].(slots := r[i].slots)
      && (a in Listed(r[i].slots) <==> a in Listed(t[i].slots) && !SilentFrom(events, now, a))
  {
    StampsAreTrue(events);
    SweptTableIs(t, After(events), 0, now);
    ExpiredIsSilent(events, now, a);
    assert StillListed(t[i], SweptTable(t, After(events), 0, now)[i], After(events), 0, now, a);
  }
}
