/** Once local edits, arrivals and departures stop, the system settles: every
    further step descends in a well-founded order, some step is always possible
    until all is quiet, and then everyone agrees. */
module Settling {
  import opened Tables
  import opened Merge
  import opened Peers
  import opened Jobs
  import opened Protocol
  import opened Invariant
  import opened Convergence

  /** The monitor has just seen a file that was downloaded. */
  predicate Notices(p: Peer, name: string) {
    Has(p.table, name) && Get(p.table, name).ftype == FileDownload
  }

  /** The steps that remain once the outside world leaves the system alone. */
  predicate Settles(s: System, a: Step) {
    && Enabled(s, a)
    && match a
       case MergeStep(_) => true
       case PassStep(_) => true
       case FinishStep(_, _) => true
       case CreateEvent(ip, name, _) => Notices(s.peers[ip], name)
       case ModifyEvent(ip, name, _) => Notices(s.peers[ip], name)
       case _ => false
  }

  // ----- the order -----

  ghost function Pairs(t: Table): set<(string, Version)> {
    set e | e in t :: (e.name, e.version)
  }

  ghost function PeerPairs(p: Peer): set<(string, Version)> {
    Pairs(p.table) + (set b, x | b in p.up && x in Pairs(b) :: x) + (set b, x | b in p.down && x in Pairs(b) :: x)
  }

  /** Every version of every name that occurs anywhere in the system. */
  ghost function Seen(s: System): set<(string, Version)> {
    Pairs(s.table) + (set ip, x | ip in s.peers && x in PeerPairs(s.peers[ip]) :: x)
  }

  /** The versions still above some peer's own. */
  ghost function Behind(s: System): set<(string, (string, Version))> {
    set ip, x | ip in s.peers && x in Seen(s) && !Covers(s.peers[ip].table, x.0, x.1) :: (ip, x)
  }

  /** Downloads under way or unnoticed. */
  ghost function Busy(s: System): set<(string, string)> {
    set ip, e | ip in s.peers && e in s.peers[ip].table && Transient(e.ftype) :: (ip, e.name)
  }

  ghost function Loading(s: System): set<(string, string)> {
    set ip, e | ip in s.peers && e in s.peers[ip].table && e.ftype == FileDownloading :: (ip, e.name)
  }

  ghost function Uploads(s: System): set<(string, int)> {
    set ip, k | ip in s.peers && 0 <= k < |s.peers[ip].up| :: (ip, k)
  }

  ghost function Downs(s: System): set<(string, int)> {
    set ip, k | ip in s.peers && 0 <= k < |s.peers[ip].down| :: (ip, k)
  }

  datatype Rank = Rank(
    behind: set<(string, (string, Version))>,
    busy: set<(string, string)>,
    loading: set<(string, string)>,
    uploads: set<(string, int)>,
    downs: set<(string, int)>)

  ghost function RankOf(s: System): Rank {
    Rank(Behind(s), Busy(s), Loading(s), Uploads(s), Downs(s))
  }

  /** The lexicographic order on the five sets. */
  ghost predicate Below(r: Rank, s: Rank) {
    && r.behind <= s.behind
    && (r.behind != s.behind || (
         && r.busy <= s.busy
         && (r.busy != s.busy || (
              && r.loading <= s.loading
              && (r.loading != s.loading || (
                   && r.uploads <= s.uploads
                   && (r.uploads != s.uploads || r.downs < s.downs)))))))
  }

  ghost predicate Descends(s: System, r: System) {
    Below(RankOf(r), RankOf(s))
  }

  /** The order is well-founded. */
  lemma DescentStops(rank: nat -> Rank, go: nat -> bool, n: nat) returns (m: nat)
    requires forall i: nat :: go(i) ==> Below(rank(i + 1), rank(i))
    ensures m >= n && !go(m) && forall i: nat :: n <= i < m ==> go(i)
    decreases rank(n).behind, rank(n).busy, rank(n).loading, rank(n).uploads, rank(n).downs
  {
    if go(n) {
      m := DescentStops(rank, go, n + 1);
    } else {
      m := n;
    }
  }

  // ----- nothing new is ever seen, and no peer falls further behind -----

  lemma BehindShrinks(s: System, r: System)
    requires r.peers.Keys == s.peers.Keys && Seen(r) <= Seen(s)
    requires forall ip :: ip in s.peers ==> Grows(s.peers[ip].table, r.peers[ip].table)
    ensures Behind(r) <= Behind(s)
  {
  }

  lemma SeenShrinks(s: System, r: System)
    requires r.peers.Keys == s.peers.Keys
    requires Pairs(r.table) <= Seen(s)
    requires forall ip :: ip in s.peers ==> PeerPairs(r.peers[ip]) <= Seen(s)
    ensures Seen(r) <= Seen(s)
  {
  }

  lemma PeerSeen(s: System, ip: string)
    requires ip in s.peers
    ensures PeerPairs(s.peers[ip]) <= Seen(s)
  {
  }

  lemma {:induction false} MergePairs(t: Table, b: Table)
    ensures Pairs(MergeBatch(t, b)) <= Pairs(t) + Pairs(b)
  {
    if b != [] {
      var c, e := b[..|b| - 1], b[|b| - 1];
      assert b == c + [e];
      MergePairs(t, c);
      var m, k := MergeBatch(t, c), IndexOf(MergeBatch(t, c), e.name);
      forall r | r in MergeOne(m, e) ensures (r.name, r.version) in Pairs(t) + Pairs(b) {
        var i :| 0 <= i < |MergeOne(m, e)| && MergeOne(m, e)[i] == r;
        if i < |m| { assert m[i] in m; assert (m[i].name, m[i].version) in Pairs(m); }
      }
    }
  }

  lemma ComparePairs(p: Peer, e: Entry)
    ensures Pairs(CompareNode(p, e).table) <= Pairs(p.table) + {(e.name, e.version)}
  {
  }

  lemma {:induction false} PassPairs(p: Peer, t: Table)
    ensures Pairs(Pass(p, t).table) <= Pairs(p.table) + Pairs(t)
  {
    if t != [] {
      var c, e := t[..|t| - 1], t[|t| - 1];
      assert t == c + [e];
      PassPairs(p, c);
      ComparePairs(Pass(p, c), e);
      assert Pairs(c) <= Pairs(t) && (e.name, e.version) in Pairs(t);
    }
  }

  // ----- each kind of step descends -----

  lemma SameTables(s: System, r: System)
    requires r.peers.Keys == s.peers.Keys
    requires forall ip :: ip in s.peers ==> r.peers[ip].table == s.peers[ip].table
    ensures Busy(r) == Busy(s) && Loading(r) == Loading(s)
  {
  }

  lemma BroadcastSeen(s: System, ip: string, i: string)
    requires Enabled(s, MergeStep(ip)) && i in s.peers
    ensures PeerPairs(Apply(s, MergeStep(ip)).peers[i]) <= Seen(s)
    ensures Pairs(Apply(s, MergeStep(ip)).table) <= Seen(s)
  {
    var p, q := s.peers[ip], s.peers[i];
    var u := MergeBatch(s.table, p.up[0]);
    var taken := if i == ip then q.(up := q.up[1..]) else q;
    MergePairs(s.table, p.up[0]);
    PeerSeen(s, ip);
    PeerSeen(s, i);
    assert Pairs(p.up[0]) <= PeerPairs(p);
    MergedPairs(q, taken, u);
    assert Apply(s, MergeStep(ip)).peers[i] == if i in s.members then Send(taken, u) else taken;
    assert PeerPairs(taken) <= PeerPairs(Send(taken, u)) by {
      assert forall b :: b in taken.down ==> b in Send(taken, u).down;
    }
  }

  lemma MergeShrinks(s: System, ip: string)
    requires Enabled(s, MergeStep(ip))
    ensures Behind(Apply(s, MergeStep(ip))) <= Behind(s)
  {
    var r := Apply(s, MergeStep(ip));
    assert r.peers.Keys == s.peers.Keys;
    forall i | i in s.peers
      ensures PeerPairs(r.peers[i]) <= Seen(s) && Pairs(r.table) <= Seen(s)
      ensures Grows(s.peers[i].table, r.peers[i].table)
    {
      BroadcastSeen(s, ip, i);
    }
    SeenShrinks(s, r);
    BehindShrinks(s, r);
  }

  lemma MergeUploads(s: System, r: System, ip: string)
    requires Inv(s) && Enabled(s, MergeStep(ip)) && r == Apply(s, MergeStep(ip))
    ensures Uploads(r) < Uploads(s)
  {
    var p := s.peers[ip];
    assert |r.peers[ip].up| == |p.up| - 1;
    assert forall i :: i in s.peers && i != ip ==> r.peers[i].up == s.peers[i].up;
    var y := (ip, |p.up| - 1);
    assert y in Uploads(s) && y !in Uploads(r);
  }

  lemma MergeDescends(s: System, ip: string)
    requires Inv(s) && Enabled(s, MergeStep(ip))
    ensures Descends(s, Apply(s, MergeStep(ip)))
  {
    var r := Apply(s, MergeStep(ip));
    MergeShrinks(s, ip);
    assert r.peers.Keys == s.peers.Keys;
    SameTables(s, r);
    MergeUploads(s, r, ip);
  }

  lemma MergedPairs(p: Peer, q: Peer, u: Table)
    requires q == p || (p.up != [] && q == p.(up := p.up[1..]))
    ensures PeerPairs(Send(q, u)) <= PeerPairs(p) + Pairs(u)
  {
  }

  lemma {:induction false} IdlePass(p: Peer, d: Table)
    requires Started(p.table, d) == [] && forall k :: 0 <= k < |d| ==> d[k].ftype != FileDelete
    ensures Pass(p, d) == p
  {
    if d != [] {
      IdlePass(p, d[..|d| - 1]);
      CompareAt(p, d[|d| - 1], "");
    }
  }

  lemma LookedPairs(p: Peer)
    requires p.down != []
    ensures PeerPairs(Looked(p)) <= PeerPairs(p)
  {
    var q, d := p.(down := p.down[1..]), p.down[0];
    PassPairs(q, d);
    PassFrame(q, d);
    assert forall b :: b in q.down ==> b in p.down;
    assert d in p.down;
  }

  /** Replacing one peer by one that has seen nothing new. */
  lemma OneShrinks(s: System, ip: string, q: Peer)
    requires ip in s.peers && PeerPairs(q) <= PeerPairs(s.peers[ip]) && Grows(s.peers[ip].table, q.table)
    ensures var r := s.(peers := s.peers[ip := q]); Seen(r) <= Seen(s) && Behind(r) <= Behind(s)
  {
  }

  lemma PassShrinks(s: System, ip: string)
    requires Inv(s) && Enabled(s, PassStep(ip))
    ensures Behind(Apply(s, PassStep(ip))) <= Behind(s)
  {
    var p := s.peers[ip];
    TakeKeepsCore(s.table, p, s.departures);
    PassKeeps(s.table, p.(down := p.down[1..]), p.down[0], s.departures);
    LookedPairs(p);
    OneShrinks(s, ip, Looked(p));
  }

  lemma TakenDowns(s: System, ip: string)
    requires ip in s.peers && s.peers[ip].down != []
    ensures var r := s.(peers := s.peers[ip := s.peers[ip].(down := s.peers[ip].down[1..])]);
      Uploads(r) == Uploads(s) && Downs(r) < Downs(s)
  {
    var p := s.peers[ip];
    var r := s.(peers := s.peers[ip := p.(down := p.down[1..])]);
    var y := (ip, |p.down| - 1);
    assert y in Downs(s) && y !in Downs(r);
    assert forall i :: i in s.peers ==> r.peers[i].up == s.peers[i].up;
    assert Uploads(r) == Uploads(s);
  }

  lemma IdlePassDescends(s: System, ip: string)
    requires Enabled(s, PassStep(ip)) && Started(s.peers[ip].table, s.peers[ip].down[0]) == []
    requires forall k :: 0 <= k < |s.peers[ip].down[0]| ==> s.peers[ip].down[0][k].ftype != FileDelete
    ensures var r := Apply(s, PassStep(ip));
      Busy(r) == Busy(s) && Loading(r) == Loading(s) && Uploads(r) == Uploads(s) && Downs(r) < Downs(s)
  {
    var p := s.peers[ip];
    IdlePass(p.(down := p.down[1..]), p.down[0]);
    TakenDowns(s, ip);
    SameTables(s, Apply(s, PassStep(ip)));
  }

  lemma PassDescends(s: System, ip: string)
    requires Inv(s) && Enabled(s, PassStep(ip))
    ensures Descends(s, Apply(s, PassStep(ip)))
  {
    var r, started := Apply(s, PassStep(ip)), Started(s.peers[ip].table, s.peers[ip].down[0]);
    PassShrinks(s, ip);
    if started == [] {
      var p := s.peers[ip];
      assert Offered(s.table, p.ip, p.table, p.down[0], s.departures);
      IdlePassDescends(s, ip);
    } else {
      var y := (ip, (started[0].name, started[0].version));
      StartedWasBehind(s, ip, started[0]);
      StartedNoLongerBehind(s, ip, started[0]);
      assert y in Behind(s) && y !in Behind(r);
    }
  }

  lemma StartedWasBehind(s: System, ip: string, j: Job)
    requires ip in s.peers && s.peers[ip].down != [] && j in Started(s.peers[ip].table, s.peers[ip].down[0])
    ensures (ip, (j.name, j.version)) in Behind(s)
  {
    var p := s.peers[ip];
    var d := p.down[0];
    StartedExactly(p.table, d, j);
    var e :| e in d && Starts(Find(p.table, e.name), e) && j == JobFor(e);
    var x := (e.name, e.version);
    assert x in Pairs(d) && d in p.down;
    assert x in PeerPairs(p);
    assert x in Seen(s);
  }

  lemma StartedNoLongerBehind(s: System, ip: string, j: Job)
    requires Inv(s) && Enabled(s, PassStep(ip)) && j in Started(s.peers[ip].table, s.peers[ip].down[0])
    ensures (ip, (j.name, j.version)) !in Behind(Apply(s, PassStep(ip)))
  {
    var p := s.peers[ip];
    assert Offered(s.table, p.ip, p.table, p.down[0], s.departures);
    StartedAreHeld(p.(down := p.down[1..]), p.down[0], j);
    assert Apply(s, PassStep(ip)).peers[ip] == Looked(p);
    assert Covers(Looked(p).table, j.name, j.version);
  }

  lemma FinishDescends(s: System, ip: string, k: nat)
    requires Inv(s) && Enabled(s, FinishStep(ip, k))
    ensures Descends(s, Apply(s, FinishStep(ip, k)))
  {
    var r, p := Apply(s, FinishStep(ip, k)), s.peers[ip];
    var q, i := FinishJob(p, k), IndexOf(p.table, p.jobs[k].name);
    FinishShape(p, k);
    UpdateGrows(p.table, i, q.table[i]);
    RetypedPairs(p.table, i, FileDownload);
    OneShrinks(s, ip, q);
    assert Busy(r) <= Busy(s) && Loading(r) < Loading(s) by {
      RetypedSets(s, ip, q, i, FileDownload);
    }
  }

  lemma RetypedPairs(t: Table, i: nat, ftype: FileType)
    requires i < |t|
    ensures Pairs(t[i := t[i].(ftype := ftype)]) == Pairs(t)
  {
    var u := t[i := t[i].(ftype := ftype)];
    forall x | x in Pairs(t) ensures x in Pairs(u) {
      var e :| e in t && (e.name, e.version) == x;
      var k :| 0 <= k < |t| && t[k] == e;
      assert u[k] in u;
    }
    forall x | x in Pairs(u) ensures x in Pairs(t) {
      var e :| e in u && (e.name, e.version) == x;
      var k :| 0 <= k < |u| && u[k] == e;
      assert t[k] in t;
    }
  }

  /** Moving one transient record on from being downloaded, or from being unnoticed. */
  lemma RetypedSets(s: System, ip: string, q: Peer, i: nat, ftype: FileType)
    requires ip in s.peers && UniqueNames(s.peers[ip].table) && i < |s.peers[ip].table|
    requires var e := s.peers[ip].table[i];
      || (e.ftype == FileDownloading && ftype == FileDownload)
      || (e.ftype == FileDownload && ftype == FileModify)
    requires q.table == s.peers[ip].table[i := s.peers[ip].table[i].(ftype := ftype)]
    ensures var r := s.(peers := s.peers[ip := q]);
      && Busy(r) <= Busy(s) && Loading(r) <= Loading(s)
      && (ftype == FileDownload ==> Loading(r) != Loading(s))
      && (ftype == FileModify ==> Busy(r) != Busy(s))
  {
    var r, own := s.(peers := s.peers[ip := q]), s.peers[ip].table;
    var y := (ip, own[i].name);
    assert own[i] in own;
    forall e | e in q.table && Transient(e.ftype)
      ensures (ip, e.name) in Busy(s)
      ensures e.ftype == FileDownloading ==> e in own && e.name != own[i].name
      ensures ftype == FileModify ==> e.name != own[i].name
    {
      var k :| 0 <= k < |q.table| && q.table[k] == e;
      assert own[k] in own;
    }
    if ftype == FileDownload {
      assert y in Loading(s) && y !in Loading(r);
    } else {
      assert y in Busy(s) && y !in Busy(r);
    }
  }

  lemma NoticeDescends(s: System, ip: string, q: Peer, name: string)
    requires Inv(s) && ip in s.peers && Notices(s.peers[ip], name)
    requires var p := s.peers[ip]; var k := IndexOf(p.table, name);
      q == Report(p.(table := p.table[k := p.table[k].(ftype := FileModify)]))
    ensures Descends(s, s.(peers := s.peers[ip := q]))
  {
    var p := s.peers[ip];
    var k := IndexOf(p.table, name);
    UpdateGrows(p.table, k, q.table[k]);
    RetypedPairs(p.table, k, FileModify);
    assert forall b :: b in q.up ==> b in p.up || b == q.table;
    OneShrinks(s, ip, q);
    RetypedSets(s, ip, q, k, FileModify);
  }

  lemma SettlingDescends(s: System, a: Step)
    requires Inv(s) && Settles(s, a)
    ensures Descends(s, Apply(s, a))
  {
    match a
    case MergeStep(ip) => MergeDescends(s, ip);
    case PassStep(ip) => PassDescends(s, ip);
    case FinishStep(ip, k) => FinishDescends(s, ip, k);
    case CreateEvent(ip, name, v) => NoticeDescends(s, ip, FileAdded(s.peers[ip], name, v), name);
    case ModifyEvent(ip, name, v) => NoticeDescends(s, ip, FileModified(s.peers[ip], name, v), name);
  }

  // ----- the system settles, and settled it agrees -----

  ghost predicate SettlesTo(s: System, r: System) {
    exists a :: Settles(s, a) && r == Apply(s, a)
  }

  ghost predicate Going(run: nat -> System, i: nat) {
    Inv(run(i)) && SettlesTo(run(i), run(i + 1))
  }

  lemma GoingDescends(run: nat -> System, i: nat)
    requires Going(run, i)
    ensures Inv(run(i + 1)) && Below(RankOf(run(i + 1)), RankOf(run(i)))
  {
    var a :| Settles(run(i), a) && run(i + 1) == Apply(run(i), a);
    StepKeepsInv(run(i), a);
    SettlingDescends(run(i), a);
  }

  /** A transient record means a download to finish or to notice. */
  lemma TransientMeansProgress(s: System, ip: string, k: nat)
    requires Inv(s) && ip in s.peers && k < |s.peers[ip].table| && Transient(s.peers[ip].table[k].ftype)
    ensures exists a :: Settles(s, a)
  {
    var p := s.peers[ip];
    if p.table[k].ftype == FileDownloading {
      assert HasJob(p.jobs, p.table[k].name);
      var j :| 0 <= j < |p.jobs| && p.jobs[j].name == p.table[k].name;
      assert Settles(s, FinishStep(ip, j));
    } else {
      GetUnique(p.table, k);
      assert Settles(s, CreateEvent(ip, p.table[k].name, p.table[k].version));
    }
  }

  /** There is always something left to do until all is quiet. */
  lemma NotQuietMeansProgress(s: System)
    requires Inv(s) && !Quiescent(s)
    ensures exists a :: Settles(s, a)
  {
    var ip :| ip in s.peers &&
      var p := s.peers[ip];
      !(p.up == [] && p.down == [] && forall k :: 0 <= k < |p.table| ==> !Transient(p.table[k].ftype));
    var p := s.peers[ip];
    if p.up != [] {
      assert Settles(s, MergeStep(ip));
    } else if p.down != [] {
      assert Settles(s, PassStep(ip));
    } else {
      var k :| 0 <= k < |p.table| && Transient(p.table[k].ftype);
      TransientMeansProgress(s, ip, k);
    }
  }

  /** In any infinite sequence of states, settling must stop. */
  lemma SettlingStops(run: nat -> System) returns (m: nat)
    requires Inv(run(0))
    ensures Inv(run(m)) && !SettlesTo(run(m), run(m + 1))
    ensures forall i: nat :: i < m ==> SettlesTo(run(i), run(i + 1))
  {
    forall i: nat | Going(run, i) ensures Below(RankOf(run(i + 1)), RankOf(run(i))) {
      GoingDescends(run, i);
    }
    var go := (i: nat) => Going(run, i);
    m := DescentStops((i: nat) => RankOf(run(i)), go, 0);
    forall i: nat | i < m ensures SettlesTo(run(i), run(i + 1)) {
      assert go(i);
    }
    if m > 0 {
      assert go(m - 1);
      GoingDescends(run, m - 1);
    }
  }

  /** No livelock: there is no endless run of settling steps. */
  lemma NoLivelock(run: nat -> System)
    requires Reachable(run(0))
    ensures exists m: nat :: !SettlesTo(run(m), run(m + 1))
  {
    ReachableKeepsInv(run(0));
    var m := SettlingStops(run);
  }

  /** Whatever remains to be done is done some time, as long as it can be. */
  ghost predicate KeepsSettling(run: nat -> System) {
    forall i: nat :: (exists a :: Settles(run(i), a)) ==> SettlesTo(run(i), run(i + 1))
  }

  /** The point at which everything is quiet, with only settling steps before it. */
  lemma QuietPoint(run: nat -> System) returns (m: nat)
    requires Reachable(run(0)) && KeepsSettling(run)
    ensures Quiescent(run(m)) && Agreement(run(m))
    ensures forall i: nat :: i < m ==> SettlesTo(run(i), run(i + 1))
  {
    ReachableKeepsInv(run(0));
    m := SettlingStops(run);
    if !Quiescent(run(m)) {
      NotQuietMeansProgress(run(m));
      assert false;
    }
    InvAgrees(run(m));
  }

  /** However the remaining steps are scheduled, if the system keeps taking them
      while it can, it becomes quiet after finitely many, with all peers in
      agreement. */
  lemma EventuallyAllAgree(run: nat -> System)
    requires Reachable(run(0)) && KeepsSettling(run)
    ensures exists m: nat :: Quiescent(run(m)) && Agreement(run(m))
  {
    var m := QuietPoint(run);
  }
}
