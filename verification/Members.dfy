/** The tracker's peer list: who is on it, when each was last heard, and how the
    heartbeat thread prunes it (tracker/tracker.c). */
module Members {

  const HEARTBEAT_INTERVAL := 60
  const HEARTBEAT_TIMEOUT := 240
  const WORD := 0x1_0000_0000_0000_0000

  datatype Member = Member(ip: string, sock: int, lastHeard: nat)

  ghost predicate DistinctSocks(ms: seq<Member>) {
    forall i, j :: 0 <= i < j < |ms| ==> ms[i].sock != ms[j].sock
  }

  /** First position from `k` on with the given socket, or the length. */
  function Locate(ms: seq<Member>, sock: int, k: nat): (i: nat)
    requires k <= |ms|
    ensures k <= i <= |ms|
    ensures i < |ms| ==> ms[i].sock == sock
    ensures forall j :: k <= j < i ==> ms[j].sock != sock
    decreases |ms| - k
  {
    if k == |ms| || ms[k].sock == sock then k else Locate(ms, sock, k + 1)
  }

  /** add_peer looks for the socket everywhere but in the last member. */
  function AddPeer(ms: seq<Member>, sock: int, ip: string, now: nat): seq<Member> {
    if ms != [] && Locate(ms, sock, 0) < |ms| - 1 then ms else ms + [Member(ip, sock, now)]
  }

  /** The list part of delete_peer: a head that matches ends the search and
      stays; a later match is unlinked; a list of one is left alone. */
  function DeletePeer(ms: seq<Member>, sock: int): seq<Member> {
    if |ms| < 2 || ms[0].sock == sock then ms
    else
      var i := Locate(ms, sock, 1);
      if i < |ms| then ms[..i] + ms[i + 1..] else ms
  }

  function HeardPeer(ms: seq<Member>, sock: int, now: nat): seq<Member> {
    var i := Locate(ms, sock, 0);
    if i < |ms| then ms[i := ms[i].(lastHeard := now)] else ms
  }

  /** An unsigned difference: a stamp from the future counts as very old. */
  predicate Expired(m: Member, now: nat) {
    (now - m.lastHeard) % WORD > HEARTBEAT_TIMEOUT
  }

  /** The sweep from position `k` on.  When a member is unlinked its successor
      takes its place. */
  function SweepFrom(ms: seq<Member>, k: nat, now: nat): seq<Member>
    decreases |ms| - k
  {
    if k >= |ms| then ms
    else if !Expired(ms[k], now) then SweepFrom(ms, k + 1, now)
    else
      var rest := DeletePeer(ms, ms[k].sock);
      if |rest| < |ms| then SweepFrom(rest, k, now) else SweepFrom(ms, k + 1, now)
  }

  function Sweep(ms: seq<Member>, now: nat): seq<Member> {
    SweepFrom(ms, 0, now)
  }

  function Alive(ms: seq<Member>, now: nat): seq<Member> {
    if ms == [] then []
    else if Expired(ms[0], now) then Alive(ms[1..], now)
    else [ms[0]] + Alive(ms[1..], now)
  }

  /** A connection leaves the list alone exactly if its socket is that of a member
      before the last; otherwise it adds itself at the end, with its address and
      the time, so that a socket may be on the list twice. */
  lemma AddPeerIff(ms: seq<Member>, sock: int, ip: string, now: nat)
    ensures AddPeer(ms, sock, ip, now) == ms <==> exists k :: 0 <= k < |ms| - 1 && ms[k].sock == sock
    ensures AddPeer(ms, sock, ip, now) != ms ==> AddPeer(ms, sock, ip, now) == ms + [Member(ip, sock, now)]
  {
    assert |ms + [Member(ip, sock, now)]| == |ms| + 1;
  }

  /** A heartbeat stamps the first member with the socket, and nothing else changes. */
  lemma HeardPeerIs(ms: seq<Member>, sock: int, now: nat)
    ensures var r := HeardPeer(ms, sock, now);
      && |r| == |ms|
      && forall k :: 0 <= k < |ms| ==>
           r[k] == if ms[k].sock == sock && (forall j :: 0 <= j < k ==> ms[j].sock != sock)
                   then ms[k].(lastHeard := now) else ms[k]
  {
  }

  /** A departure unlinks nobody exactly if the list has a single member, its head
      is on the socket, or nobody is; otherwise the first member on the socket. */
  lemma DeletePeerIff(ms: seq<Member>, sock: int)
    ensures DeletePeer(ms, sock) == ms <==>
      |ms| < 2 || ms[0].sock == sock || forall k :: 0 <= k < |ms| ==> ms[k].sock != sock
    ensures DeletePeer(ms, sock) != ms ==>
      exists k :: 0 < k < |ms| && ms[k].sock == sock && (forall j :: 0 <= j < k ==> ms[j].sock != sock)
        && DeletePeer(ms, sock) == ms[..k] + ms[k + 1..]
  {
    if |ms| >= 2 && ms[0].sock != sock {
      var i := Locate(ms, sock, 1);
      if i < |ms| {
        assert |ms[..i] + ms[i + 1..]| == |ms| - 1;
        assert forall j :: 0 <= j < i ==> ms[j].sock != sock;
      }
    }
  }

  /** A member has expired exactly if it was last heard more than HEARTBEAT_TIMEOUT
      seconds ago, or if its stamp is from the future, unless that is so far off
      that the unsigned difference comes round to a small one. */
  lemma ExpiredIff(m: Member, now: nat)
    requires m.lastHeard < WORD && now < WORD
    ensures Expired(m, now) <==>
      || now > m.lastHeard + HEARTBEAT_TIMEOUT
      || now < m.lastHeard < now + WORD - HEARTBEAT_TIMEOUT
  {
    if now < m.lastHeard {
      assert (now - m.lastHeard) % WORD == now - m.lastHeard + WORD;
    }
  }

  lemma DeleteIs(ms: seq<Member>, k: nat)
    requires DistinctSocks(ms) && k < |ms|
    ensures DeletePeer(ms, ms[k].sock) == if k == 0 then ms else ms[..k] + ms[k + 1..]
  {
  }

  lemma {:induction false} SweepFromIs(ms: seq<Member>, k: nat, now: nat)
    requires DistinctSocks(ms) && 0 < k <= |ms|
    ensures SweepFrom(ms, k, now) == ms[..k] + Alive(ms[k..], now)
    decreases |ms| - k
  {
    if k == |ms| {
      assert ms[..k] + [] == ms;
    } else if Expired(ms[k], now) {
      var rest := ms[..k] + ms[k + 1..];
      DeleteIs(ms, k);
      SweepFromIs(rest, k, now);
      assert rest[..k] == ms[..k] && rest[k..] == ms[k..][1..];
    } else {
      SweepFromIs(ms, k + 1, now);
      assert ms[k..][1..] == ms[k + 1..] && ms[..k + 1] == ms[..k] + [ms[k]];
    }
  }

  /** A sweep keeps the head, and of the others exactly those heard in time, in
      order, however many adjacent ones expire at once. */
  lemma SweepIsExact(ms: seq<Member>, now: nat)
    requires DistinctSocks(ms) && ms != []
    ensures Sweep(ms, now) == [ms[0]] + Alive(ms[1..], now)
  {
    DeleteIs(ms, 0);
    SweepFromIs(ms, 1, now);
    assert ms[..1] == [ms[0]];
  }

  lemma {:induction false} AliveAre(ms: seq<Member>, now: nat)
    ensures forall m :: m in Alive(ms, now) <==> m in ms && !Expired(m, now)
  {
    if ms != [] {
      AliveAre(ms[1..], now);
      assert forall m :: m in ms <==> m == ms[0] || m in ms[1..];
    }
  }

  lemma {:induction false} AliveDistinct(ms: seq<Member>, now: nat)
    requires DistinctSocks(ms)
    ensures DistinctSocks(Alive(ms, now))
  {
    if ms != [] {
      var rest := Alive(ms[1..], now);
      AliveDistinct(ms[1..], now);
      AliveAre(ms[1..], now);
      forall k | 0 <= k < |rest| ensures rest[k].sock != ms[0].sock {
        assert rest[k] in ms[1..];
      }
    }
  }

  /** Which members other than the head a sweep unlinks. */
  lemma SweepDrops(ms: seq<Member>, now: nat, k: nat)
    requires DistinctSocks(ms) && 0 < k < |ms|
    ensures ms[k] !in Sweep(ms, now) <==> Expired(ms[k], now)
  {
    SweepIsExact(ms, now);
    AliveAre(ms[1..], now);
    assert ms[k] == ms[1..][k - 1];
    assert ms[k] != ms[0];
  }

  // ----- timed runs -----

  datatype Event =
    | Connect(at: nat, sock: int, ip: string)
    | Heard(at: nat, sock: int)
    | Swept(at: nat)
    | Gone(at: nat, sock: int)

  function After(events: seq<Event>): seq<Member> {
    if events == [] then [] else Step(After(events[..|events| - 1]), events[|events| - 1])
  }

  function Step(ms: seq<Member>, e: Event): seq<Member> {
    match e
    case Connect(at, sock, ip) => AddPeer(ms, sock, ip, at)
    case Heard(at, sock) => HeardPeer(ms, sock, at)
    case Swept(at) => Sweep(ms, at)
    case Gone(_, sock) => DeletePeer(ms, sock)
  }

  /** Time passes, the clock does not wrap, and a connection's socket is not one
      the list still holds. */
  ghost predicate Timed(events: seq<Event>) {
    && (forall i :: 0 <= i < |events| ==> events[i].at < WORD)
    && (forall i, j :: 0 <= i < j < |events| ==> events[i].at <= events[j].at)
    && FreshSocks(events)
  }

  ghost predicate FreshSocks(events: seq<Event>) {
    events == [] || (
      var es, e := events[..|events| - 1], events[|events| - 1];
      FreshSocks(es) && (e.Connect? ==> forall m :: m in After(es) ==> m.sock != e.sock))
  }

  datatype Sign = Never | At(time: nat)

  /** When a socket was last connected or heard. */
  function LastHeard(events: seq<Event>, sock: int): Sign {
    if events == [] then Never
    else
      var e := events[|events| - 1];
      if (e.Connect? || e.Heard?) && e.sock == sock then At(e.at) else LastHeard(events[..|events| - 1], sock)
  }

  lemma TimedPrefix(events: seq<Event>)
    requires Timed(events) && events != []
    ensures Timed(events[..|events| - 1])
  {
  }

  /** Sockets stay distinct, and every stamp is the time of the last sign of life. */
  lemma {:induction false} StampsAreTrue(events: seq<Event>)
    requires Timed(events)
    ensures DistinctSocks(After(events))
    ensures forall m :: m in After(events) ==> LastHeard(events, m.sock) == At(m.lastHeard)
  {
    if events != [] {
      var es, e := events[..|events| - 1], events[|events| - 1];
      TimedPrefix(events);
      StampsAreTrue(es);
      var ms := After(es);
      match e
      case Connect(at, sock, ip) =>
        assert events[..|events| - 1] == es;
        if ms != [] { assert forall j :: 0 <= j < |ms| ==> ms[j] in ms; }
      case Heard(at, sock) =>
      case Swept(at) => SweepKeeps(ms, at);
      case Gone(at, sock) =>
    }
  }

  datatype Origin = Nowhere | From(ip: string)

  /** Where the last connection on a socket came from. */
  function CameFrom(events: seq<Event>, sock: int): Origin {
    if events == [] then Nowhere
    else
      var e := events[|events| - 1];
      if e.Connect? && e.sock == sock then From(e.ip) else CameFrom(events[..|events| - 1], sock)
  }

  /** Every member has the address its connection came from. */
  lemma {:induction false} AddressesAreTrue(events: seq<Event>)
    requires Timed(events)
    ensures forall m :: m in After(events) ==> CameFrom(events, m.sock) == From(m.ip)
  {
    if events != [] {
      var es, e := events[..|events| - 1], events[|events| - 1];
      TimedPrefix(events);
      AddressesAreTrue(es);
      StampsAreTrue(es);
      StepKeepsAddresses(After(es), e);
      forall m | m in After(events) ensures CameFrom(events, m.sock) == From(m.ip) {
        if !(e.Connect? && m.sock == e.sock && m.ip == e.ip) {
          var o :| o in After(es) && o.sock == m.sock && o.ip == m.ip;
          assert e.Connect? ==> o.sock != e.sock;
        }
      }
    }
  }

  /** Whoever is on the list after an event was there before, or has just connected. */
  lemma StepKeepsAddresses(ms: seq<Member>, e: Event)
    requires DistinctSocks(ms)
    ensures forall m :: m in Step(ms, e) ==>
      || (e.Connect? && m == Member(e.ip, e.sock, e.at))
      || exists o :: o in ms && o.sock == m.sock && o.ip == m.ip
  {
    match e
    case Connect(at, sock, ip) => AddPeerIff(ms, sock, ip, at);
    case Heard(at, sock) =>
      HeardPeerIs(ms, sock, at);
      forall m | m in HeardPeer(ms, sock, at) ensures exists o :: o in ms && o.sock == m.sock && o.ip == m.ip {
        var k :| 0 <= k < |ms| && HeardPeer(ms, sock, at)[k] == m;
        assert ms[k] in ms;
      }
    case Swept(at) => SweepKeeps(ms, at);
    case Gone(_, sock) =>
  }

  lemma SweepKeeps(ms: seq<Member>, at: nat)
    requires DistinctSocks(ms)
    ensures DistinctSocks(Sweep(ms, at)) && forall m :: m in Sweep(ms, at) ==> m in ms
  {
    if ms != [] {
      SweepIsExact(ms, at);
      AliveAre(ms[1..], at);
      AliveDistinct(ms[1..], at);
      forall m | m in Alive(ms[1..], at) ensures m in ms[1..] && m.sock != ms[0].sock {
      }
    }
  }

  lemma {:induction false} HeardInThePast(events: seq<Event>, sock: int, now: nat)
    requires forall i :: 0 <= i < |events| ==> events[i].at <= now
    requires LastHeard(events, sock).At?
    ensures LastHeard(events, sock).time <= now
  {
    var es, e := events[..|events| - 1], events[|events| - 1];
    if !((e.Connect? || e.Heard?) && e.sock == sock) {
      HeardInThePast(es, sock, now);
    }
  }

  /** A sweep unlinks a member other than the head exactly if it was last heard
      more than HEARTBEAT_TIMEOUT seconds before. */
  lemma SweepUnlinksIffSilent(events: seq<Event>, now: nat, k: nat)
    requires Timed(events) && 0 < k < |After(events)|
    requires now < WORD && forall i :: 0 <= i < |events| ==> events[i].at <= now
    ensures var m := After(events)[k];
      && LastHeard(events, m.sock) == At(m.lastHeard)
      && (m !in Sweep(After(events), now) <==> now > m.lastHeard + HEARTBEAT_TIMEOUT)
  {
    StampsAreTrue(events);
    var ms := After(events);
    assert ms[k] in ms;
    HeardInThePast(events, ms[k].sock, now);
    SweepDrops(ms, now, k);
  }

  /** The socket is not that of a member other than the head. */
  ghost predicate Unlinked(ms: seq<Member>, sock: int) {
    forall k :: 0 < k < |ms| ==> ms[k].sock != sock
  }

  lemma {:induction false} NotHeardSince(events: seq<Event>, sock: int, i: nat)
    requires Timed(events) && i < |events| && LastHeard(events, sock).At?
    requires LastHeard(events, sock).time < events[i].at
    ensures forall j :: i <= j < |events| && (events[j].Connect? || events[j].Heard?) ==> events[j].sock != sock
    ensures LastHeard(events[..i], sock) == LastHeard(events, sock)
    decreases |events|
  {
    var es, e := events[..|events| - 1], events[|events| - 1];
    assert !((e.Connect? || e.Heard?) && e.sock == sock);
    TimedPrefix(events);
    if i < |es| {
      NotHeardSince(es, sock, i);
      assert es[..i] == events[..i];
      forall j | i <= j < |events| && (events[j].Connect? || events[j].Heard?) ensures events[j].sock != sock {
        if j < |es| { assert es[j] == events[j]; }
      }
    } else {
      assert events[..i] == es;
    }
  }

  lemma StepKeepsUnlinked(ms: seq<Member>, e: Event, sock: int)
    requires DistinctSocks(ms) && Unlinked(ms, sock)
    requires e.Connect? ==> e.sock != sock
    ensures Unlinked(Step(ms, e), sock)
  {
    if e.Swept? {
      SweepDropsSock(ms, e.at, sock);
    }
  }

  lemma SweepDropsSock(ms: seq<Member>, at: nat, sock: int)
    requires DistinctSocks(ms)
    requires forall k :: 0 < k < |ms| && ms[k].sock == sock ==> Expired(ms[k], at)
    ensures Unlinked(Sweep(ms, at), sock)
  {
    if ms != [] {
      SweepIsExact(ms, at);
      AliveAre(ms[1..], at);
      var r := Alive(ms[1..], at);
      forall k | 0 <= k < |r| ensures r[k].sock != sock {
        assert r[k] in r;
        var j :| 0 <= j < |ms[1..]| && ms[1..][j] == r[k];
        assert ms[j + 1] == r[k];
      }
    }
  }

  lemma StampsAreOld(events: seq<Event>, sock: int, t: nat, k: nat)
    requires Timed(events) && LastHeard(events, sock) == At(t) && k < |After(events)| && After(events)[k].sock == sock
    ensures After(events)[k].lastHeard == t
  {
    StampsAreTrue(events);
    assert After(events)[k] in After(events);
  }

  /** A sweep more than HEARTBEAT_TIMEOUT after the last sign of life unlinks the member. */
  lemma SweepUnlinks(events: seq<Event>, sock: int, i: nat)
    requires Timed(events) && i < |events| && events[i].Swept?
    requires LastHeard(events, sock).At? && LastHeard(events, sock).time + HEARTBEAT_TIMEOUT < events[i].at
    ensures Unlinked(After(events[..i + 1]), sock)
  {
    var t, at, es := LastHeard(events, sock).time, events[i].at, events[..i];
    NotHeardSince(events, sock, i);
    PrefixTimed(events, i);
    StampsAreTrue(es);
    forall k | 0 < k < |After(es)| && After(es)[k].sock == sock ensures Expired(After(es)[k], at) {
      StampsAreOld(es, sock, t, k);
    }
    SweepDropsSock(After(es), at, sock);
    assert events[..i + 1][..i] == es;
  }

  lemma UnlinkedStep(events: seq<Event>, sock: int, n: nat)
    requires Timed(events) && n < |events| && Unlinked(After(events[..n]), sock)
    requires events[n].Connect? ==> events[n].sock != sock
    ensures Unlinked(After(events[..n + 1]), sock)
  {
    PrefixTimed(events, n);
    StampsAreTrue(events[..n]);
    assert events[..n + 1][..n] == events[..n];
    StepKeepsUnlinked(After(events[..n]), events[n], sock);
  }

  /** And it stays so. */
  lemma {:induction false} StaysUnlinked(events: seq<Event>, sock: int, i: nat, n: nat)
    requires Timed(events) && i < n <= |events| && events[i].Swept?
    requires LastHeard(events, sock).At? && LastHeard(events, sock).time + HEARTBEAT_TIMEOUT < events[i].at
    ensures Unlinked(After(events[..n]), sock)
    decreases n
  {
    if n == i + 1 {
      SweepUnlinks(events, sock, i);
    } else {
      NotHeardSince(events, sock, i);
      StaysUnlinked(events, sock, i, n - 1);
      UnlinkedStep(events, sock, n - 1);
    }
  }

  lemma {:induction false} PrefixTimed(events: seq<Event>, n: nat)
    requires Timed(events) && n <= |events|
    ensures Timed(events[..n])
    decreases |events|
  {
    if n < |events| {
      TimedPrefix(events);
      PrefixTimed(events[..|events| - 1], n);
      assert events[..|events| - 1][..n] == events[..n];
    } else {
      assert events[..n] == events;
    }
  }

  ghost predicate SweptWithin(events: seq<Event>, t: nat) {
    exists j :: 0 <= j < |events| && events[j].Swept? && t < events[j].at <= t + HEARTBEAT_INTERVAL
  }

  /** A sweep, a sleep of HEARTBEAT_INTERVAL seconds, and so on: between `from`
      and `now` every stretch of that length contains a sweep. */
  ghost predicate SweptRegularly(events: seq<Event>, from: nat, now: nat) {
    forall t: nat :: from <= t && t + HEARTBEAT_INTERVAL <= now ==> SweptWithin(events, t)
  }

  /** Whoever falls silent, unless it is the head, is off the list 300 seconds
      after its last sign of life, whatever else happens. */
  lemma SilentPeersAreDropped(events: seq<Event>, sock: int, now: nat)
    requires Timed(events) && LastHeard(events, sock).At?
    requires var t := LastHeard(events, sock).time;
      t + HEARTBEAT_TIMEOUT + HEARTBEAT_INTERVAL <= now && SweptRegularly(events, t, now)
    ensures Unlinked(After(events), sock)
  {
    var t := LastHeard(events, sock).time + HEARTBEAT_TIMEOUT;
    assert SweptWithin(events, t);
    var j :| 0 <= j < |events| && events[j].Swept? && t < events[j].at <= t + HEARTBEAT_INTERVAL;
    StaysUnlinked(events, sock, j, |events|);
    assert events[..|events|] == events;
  }
}
