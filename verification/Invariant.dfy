/** Every step of the system keeps the invariant of module Protocol. */
module Invariant {
  import opened Tables
  import opened Providers
  import opened Merge
  import opened Peers
  import opened Jobs
  import opened Protocol

  // ----- monitor events -----

  /** Changing one's table and reporting it. */
  lemma ReportKeeps(t: Table, p: Peer, now: Table, departures: bool)
    requires CoreInv(t, p, departures)
    requires now != [] && Own(now, p.ip) && LiveTable(t, now) && Grows(p.table, now) && Matched(now, p.jobs)
    ensures CoreInv(t, Report(p.(table := now)), departures)
  {
    var up := p.up + [now];
    forall k | 0 <= k < |now| ensures Covers(now, now[k].name, now[k].version) {
      GetUnique(now, k);
    }
    forall k | 0 <= k < |now| ensures Known(t, now, up, k) {
      assert up[|p.up|] == now;
    }
    assert Grows(t, t);
    UpGrows(t, t, p.ip, p.table, now, p.up);
    DownGrows(t, t, p.ip, p.table, now, p.down, departures);
  }

  lemma UpdateKeeps(t: Table, p: Peer, k: nat, e: Entry, departures: bool)
    requires CoreInv(t, p, departures)
    requires k < |p.table| && p.table[k].ftype != FileDownloading
    requires e.name == p.table[k].name && e.slots == p.table[k].slots
    requires AtMost(p.table[k].version, e.version) && (e.ftype == FileCreate || e.ftype == FileModify)
    ensures CoreInv(t, Report(p.(table := p.table[k := e])), departures)
  {
    GetUnique(p.table, k);
    UpdateGrows(p.table, k, e);
    OwnUpdate(p.table, p.ip, k, e);
    MatchedUpdate(p.table, k, e, p.jobs);
    ReportKeeps(t, p, p.table[k := e], departures);
  }

  lemma UpdateKeepsPeer(t: Table, p: Peer, k: nat, e: Entry, departures: bool)
    requires PeerInv(t, p, departures)
    requires k < |p.table| && p.table[k].ftype != FileDownloading
    requires e.name == p.table[k].name && e.slots == p.table[k].slots
    requires AtMost(p.table[k].version, e.version) && (e.ftype == FileCreate || e.ftype == FileModify)
    ensures PeerInv(t, Report(p.(table := p.table[k := e])), departures)
  {
    UpdateKeeps(t, p, k, e, departures);
  }

  lemma AppendKeepsPeer(t: Table, p: Peer, e: Entry, departures: bool)
    requires PeerInv(t, p, departures)
    requires !Has(p.table, e.name) && e.slots[0] == p.ip && e.ftype == FileCreate
    ensures PeerInv(t, Report(p.(table := p.table + [e])), departures)
  {
    AppendGrows(p.table, e);
    OwnAppend(p.table, p.ip, e);
    MatchedAppend(p.table, e, p.jobs);
    ReportKeeps(t, p, p.table + [e], departures);
  }

  lemma CreateKeeps(t: Table, p: Peer, name: string, v: Version, departures: bool)
    requires PeerInv(t, p, departures)
    ensures PeerInv(t, FileAdded(p, name, v), departures)
  {
    var k := IndexOf(p.table, name);
    if k < |p.table| {
      assert Live(p.table[k].ftype);
      if p.table[k].ftype == FileDownload {
        UpdateKeepsPeer(t, p, k, p.table[k].(ftype := FileModify), departures);
      }
    } else {
      AppendKeepsPeer(t, p, Entry(name, v, FileCreate, IS_FILE, Only(p.ip)), departures);
    }
  }

  lemma ModifyKeeps(t: Table, p: Peer, name: string, v: Version, departures: bool)
    requires PeerInv(t, p, departures) && Admissible(p, name, v)
    ensures PeerInv(t, FileModified(p, name, v), departures)
  {
    var k := IndexOf(p.table, name);
    if k < |p.table| {
      if p.table[k].ftype == FileDownload {
        UpdateKeepsPeer(t, p, k, p.table[k].(ftype := FileModify), departures);
      } else if p.table[k].ftype != FileDownloading {
        UpdateKeepsPeer(t, p, k, p.table[k].(version := v, ftype := FileModify), departures);
      }
    }
  }

  // ----- a download finishes -----

  lemma FinishKeepsLocal(t: Table, p: Peer, k: nat)
    requires LocalInv(t, p.ip, p.table, p.up) && Matched(p.table, p.jobs) && k < |p.jobs|
    ensures LocalInv(t, p.ip, FinishJob(p, k).table, p.up)
    ensures Grows(p.table, FinishJob(p, k).table)
  {
    var q, i := FinishJob(p, k), IndexOf(p.table, p.jobs[k].name);
    FinishShape(p, k);
    OwnUpdate(p.table, p.ip, i, q.table[i]);
    UpdateGrows(p.table, i, q.table[i]);
    forall j | 0 <= j < |q.table|
      ensures Known(t, q.table, p.up, j) && Live(q.table[j].ftype)
      ensures Transient(q.table[j].ftype) ==> Covers(t, q.table[j].name, q.table[j].version)
    {
      assert Known(t, p.table, p.up, j);
      assert q.table[j].version == p.table[j].version && q.table[j].name == p.table[j].name;
    }
  }

  lemma FewerJobsAreGood(ip: string, jobs: seq<Job>, k: nat, departures: bool)
    requires GoodJobs(ip, jobs, departures) && k < |jobs|
    ensures GoodJobs(ip, jobs[..k] + jobs[k + 1..], departures)
  {
  }

  lemma FinishKeeps(t: Table, p: Peer, k: nat, departures: bool)
    requires PeerInv(t, p, departures) && k < |p.jobs|
    ensures PeerInv(t, FinishJob(p, k), departures)
  {
    var q := FinishJob(p, k);
    FinishKeepsLocal(t, p, k);
    FinishKeepsMatched(p, k);
    FewerJobsAreGood(p.ip, p.jobs, k, departures);
    assert Grows(t, t);
    UpGrows(t, t, p.ip, p.table, q.table, p.up);
    DownGrows(t, t, p.ip, p.table, q.table, p.down, departures);
    assert q == p.(table := q.table, jobs := p.jobs[..k] + p.jobs[k + 1..]);
    FinishKeepsLag(t, p, k);
  }

  lemma FinishKeepsLag(t: Table, p: Peer, k: nat)
    requires Own(p.table, p.ip) && Matched(p.table, p.jobs) && LagInv(t, p) && k < |p.jobs|
    ensures LagInv(t, FinishJob(p, k))
  {
    var q, i := FinishJob(p, k), IndexOf(p.table, p.jobs[k].name);
    FinishShape(p, k);
    if p.down == [] && p.up == [] {
      forall r | 0 <= r < |t| ensures CaughtUp(q.table, t[r]) {
        assert CaughtUp(p.table, t[r]);
        FindUpdate(p.table, i, q.table[i], t[r].name);
      }
    }
  }

  // ----- a broadcast is worked through -----

  /** A record of a broadcast that the peer is offered. */
  ghost predicate OfferedRecord(t: Table, p: Peer, seek: Entry, departures: bool) {
    && Covers(t, seek.name, seek.version)
    && (seek.ftype == FileCreate || seek.ftype == FileModify)
    && (p.ip in Listed(seek.slots) ==> Covers(p.table, seek.name, seek.version))
    && Distinct(seek.slots) && (!departures ==> Listed(seek.slots) != [])
  }

  lemma CompareGrows(p: Peer, seek: Entry)
    requires UniqueNames(p.table)
    ensures Grows(p.table, CompareNode(p, seek).table)
  {
    var k, q := IndexOf(p.table, seek.name), CompareNode(p, seek);
    if k < |p.table| {
      UpdateGrows(p.table, k, q.table[k]);
    } else {
      AppendGrows(p.table, Adopted(p.ip, seek));
    }
  }

  lemma CompareKeepsKnown(t: Table, p: Peer, seek: Entry, departures: bool)
    requires OfferedRecord(t, p, seek, departures) && UniqueNames(p.table)
    requires LiveTable(t, p.table) && forall k :: 0 <= k < |p.table| ==> Known(t, p.table, p.up, k)
    ensures var q := CompareNode(p, seek);
      LiveTable(t, q.table) && forall k :: 0 <= k < |q.table| ==> Known(t, q.table, q.up, k)
  {
    var q := CompareNode(p, seek);
    forall k | 0 <= k < |q.table|
      ensures Known(t, q.table, q.up, k)
      ensures Live(q.table[k].ftype)
      ensures Transient(q.table[k].ftype) ==> Covers(t, q.table[k].name, q.table[k].version)
    {
      if k < |p.table| { assert Known(t, p.table, p.up, k); }
    }
  }

  lemma StartedJobIsGood(t: Table, p: Peer, seek: Entry, departures: bool)
    requires OfferedRecord(t, p, seek, departures) && UniqueNames(p.table) && Starts(Find(p.table, seek.name), seek)
    ensures GoodJob(p.ip, JobFor(seek), departures)
  {
  }

  lemma CompareKeepsJobs(t: Table, p: Peer, seek: Entry, departures: bool)
    requires OfferedRecord(t, p, seek, departures) && UniqueNames(p.table)
    requires Matched(p.table, p.jobs) && GoodJobs(p.ip, p.jobs, departures)
    ensures var q := CompareNode(p, seek); Matched(q.table, q.jobs) && GoodJobs(p.ip, q.jobs, departures)
  {
    HeardKeepsMatchedIff(p, seek);
    CompareAt(p, seek, seek.name);
    if Starts(Find(p.table, seek.name), seek) {
      StartedJobIsGood(t, p, seek, departures);
    }
  }

  lemma CompareKeeps(t: Table, p: Peer, seek: Entry, departures: bool)
    requires CoreInv(t, p, departures) && OfferedRecord(t, p, seek, departures)
    ensures CoreInv(t, CompareNode(p, seek), departures)
    ensures Grows(p.table, CompareNode(p, seek).table)
  {
    var q := CompareNode(p, seek);
    CompareGrows(p, seek);
    CompareKeepsOwn(p, seek);
    CompareKeepsKnown(t, p, seek, departures);
    CompareKeepsJobs(t, p, seek, departures);
    CompareAt(p, seek, seek.name);
    assert Grows(t, t);
    UpGrows(t, t, p.ip, p.table, q.table, p.up);
    DownGrows(t, t, p.ip, p.table, q.table, p.down, departures);
  }

  lemma {:induction false} PassKeeps(t: Table, p: Peer, d: Table, departures: bool)
    requires CoreInv(t, p, departures) && Offered(t, p.ip, p.table, d, departures)
    ensures CoreInv(t, Pass(p, d), departures) && Grows(p.table, Pass(p, d).table)
  {
    if d != [] {
      var c, e := d[..|d| - 1], d[|d| - 1];
      assert forall k :: 0 <= k < |c| ==> c[k] == d[k];
      assert Offered(t, p.ip, p.table, c, departures);
      PassKeeps(t, p, c, departures);
      PassFrame(p, c);
      assert d[|d| - 1] == e;
      CompareKeeps(t, Pass(p, c), e, departures);
    }
  }

  lemma RecordCatchesUp(p: Peer, d: Table, r: Entry)
    requires UniqueNames(d) && Has(d, r.name) && Get(d, r.name).version == r.version
    requires Get(d, r.name).ftype != FileDelete
    ensures CaughtUp(Pass(p, d).table, r)
  {
    PassAt(p, d, r.name);
  }

  /** After the newest broadcast no fetchable record is left behind. */
  lemma PassCatchesUp(t: Table, p: Peer, d: Table, departures: bool)
    requires Offer(d, departures) && UniqueNames(t) && SameVersions(d, t)
    ensures forall k :: 0 <= k < |t| ==> CaughtUp(Pass(p, d).table, t[k])
  {
    forall k | 0 <= k < |t| ensures CaughtUp(Pass(p, d).table, t[k]) {
      GetUnique(t, k);
      RecordCatchesUp(p, d, t[k]);
    }
  }

  lemma TakeKeepsCore(t: Table, p: Peer, departures: bool)
    requires CoreInv(t, p, departures) && p.down != []
    ensures CoreInv(t, p.(down := p.down[1..]), departures)
    ensures Offered(t, p.ip, p.table, p.down[0], departures)
  {
  }

  lemma LookKeepsLag(t: Table, p: Peer, departures: bool)
    requires PeerInv(t, p, departures) && Offer(t, departures) && p.down != []
    ensures LagInv(t, Looked(p))
    ensures var down := p.down[1..]; Looked(p).down == down && (down != [] ==> SameVersions(down[|down| - 1], t))
  {
    var q, d := p.(down := p.down[1..]), p.down[0];
    PassFrame(q, d);
    if q.down == [] {
      assert Offered(t, p.ip, p.table, d, departures);
      PassCatchesUp(t, q, d, departures);
    } else {
      assert q.down[|q.down| - 1] == p.down[|p.down| - 1];
    }
  }

  lemma LookKeeps(t: Table, p: Peer, departures: bool)
    requires PeerInv(t, p, departures) && Offer(t, departures) && p.down != []
    ensures PeerInv(t, Looked(p), departures)
  {
    TakeKeepsCore(t, p, departures);
    PassKeeps(t, p.(down := p.down[1..]), p.down[0], departures);
    LookKeepsLag(t, p, departures);
  }

  // ----- the tracker merges a batch and broadcasts -----

  ghost predicate GoodRecord(r: Entry, ips: set<string>, departures: bool) {
    && Packed(r.slots) && Distinct(r.slots)
    && (r.ftype == FileCreate || r.ftype == FileModify)
    && (!departures ==> Listed(r.slots) != [])
    && (forall a :: a in Listed(r.slots) ==> a in ips)
  }

  lemma FreshIsGood(e: Entry, ips: set<string>, departures: bool)
    requires e.slots[0] in ips && e.slots[0] != "" && (e.ftype == FileCreate || e.ftype == FileModify)
    ensures GoodRecord(Fresh(e), ips, departures)
  {
  }

  lemma RefreshIsGood(r: Entry, e: Entry, ips: set<string>, departures: bool)
    requires GoodRecord(r, ips, departures)
    requires e.slots[0] in ips && e.slots[0] != ""
    requires Older(r.version, e.version) ==> e.ftype == FileCreate || e.ftype == FileModify
    ensures GoodRecord(Refresh(r, e), ips, departures)
  {
    if r.version == e.version {
      AddIsGood(r.slots, e.slots[0]);
      if !departures { assert Listed(r.slots)[0] in Listed(Add(r.slots, e.slots[0])); }
    } else {
      OnlyIsGood(e.slots[0]);
    }
  }

  lemma MergeOneTracker(t: Table, e: Entry, ips: set<string>, departures: bool)
    requires TrackerInv(t, ips, departures)
    requires e.slots[0] in ips && e.slots[0] != ""
    requires Live(e.ftype) && (Transient(e.ftype) ==> Covers(t, e.name, e.version))
    ensures TrackerInv(MergeOne(t, e), ips, departures)
  {
    var m, k := MergeOne(t, e), IndexOf(t, e.name);
    MergeOneKeepsNames(t, e);
    forall i | 0 <= i < |t| ensures GoodRecord(t[i], ips, departures) {
    }
    if k < |t| {
      RefreshIsGood(t[k], e, ips, departures);
    } else {
      FreshIsGood(e, ips, departures);
    }
    AllGood(m, ips, departures);
  }

  lemma AllGood(m: Table, ips: set<string>, departures: bool)
    requires UniqueNames(m) && forall i :: 0 <= i < |m| ==> GoodRecord(m[i], ips, departures)
    ensures TrackerInv(m, ips, departures)
  {
  }

  /** Merging a report never stores a transient type, since a transient record
      is never newer than the tracker's. */
  lemma {:induction false} MergeKeepsTracker(t: Table, b: Table, ip: string, ips: set<string>, departures: bool)
    requires TrackerInv(t, ips, departures) && ip in ips && ip != ""
    requires Own(b, ip) && LiveTable(t, b)
    ensures TrackerInv(MergeBatch(t, b), ips, departures)
  {
    if b != [] {
      var c, e := b[..|b| - 1], b[|b| - 1];
      assert forall k :: 0 <= k < |c| ==> c[k] == b[k];
      MergeKeepsTracker(t, c, ip, ips, departures);
      MergeGrows(t, c);
      assert b[|b| - 1] == e;
      MergeOneTracker(MergeBatch(t, c), e, ips, departures);
    }
  }

  lemma MergeOneClaims(t: Table, e: Entry, ip: string, own: Table)
    requires GoodSlots(t) && Claims(t, ip, own) && ip != ""
    requires e.slots[0] == ip ==> Covers(own, e.name, e.version)
    ensures Claims(MergeOne(t, e), ip, own)
  {
    var m := MergeOne(t, e);
    OnlyIsGood(e.slots[0]);
    forall k | 0 <= k < |m| && ip in Listed(m[k].slots) ensures Covers(own, m[k].name, m[k].version) {
      if k < |t| {
        AddIsGood(t[k].slots, e.slots[0]);
      }
    }
  }

  /** A batch can list a peer only if that peer sent it, and then it holds what it reported. */
  lemma {:induction false} MergeKeepsClaims(t: Table, b: Table, sender: string, ip: string, own: Table)
    requires GoodSlots(t) && Claims(t, ip, own) && ip != ""
    requires Own(b, sender) && (sender == ip ==> AllCovered(b, own))
    ensures Claims(MergeBatch(t, b), ip, own)
  {
    if b != [] {
      var c, e := b[..|b| - 1], b[|b| - 1];
      assert forall k :: 0 <= k < |c| ==> c[k] == b[k];
      MergeKeepsClaims(t, c, sender, ip, own);
      MergeKeepsGoodSlots(t, c);
      assert b[|b| - 1] == e;
      MergeOneClaims(MergeBatch(t, c), e, ip, own);
    }
  }

  /** A new tracker table reaches a peer whose channel from the tracker it is appended to. */
  lemma SendKeeps(t: Table, u: Table, p: Peer, departures: bool)
    requires CoreInv(t, p, departures) && Grows(t, u) && Offer(u, departures) && Claims(u, p.ip, p.table)
    ensures PeerInv(u, Send(p, u), departures)
  {
    LiveGrows(t, u, p.table);
    assert Grows(p.table, p.table);
    UpGrows(t, u, p.ip, p.table, p.table, p.up);
    DownGrows(t, u, p.ip, p.table, p.table, p.down, departures);
    forall k | 0 <= k < |p.table| ensures Known(u, p.table, p.up, k) {
      assert Known(t, p.table, p.up, k);
    }
    SelfOffered(u, p.ip, p.table, departures);
  }

  lemma SelfOffered(u: Table, ip: string, own: Table, departures: bool)
    requires Offer(u, departures) && Claims(u, ip, own)
    ensures Offered(u, ip, own, u, departures)
  {
  }

  lemma BatchCovered(t: Table, b: Table, name: string, v: Version)
    requires Covers(b, name, v)
    ensures Covers(MergeBatch(t, b), name, v)
  {
    MergeCoversBatch(t, b, IndexOf(b, name));
  }

  /** The sender, once its batch is taken off the channel. */
  lemma TakenKeepsCore(t: Table, p: Peer, departures: bool)
    requires CoreInv(t, p, departures) && p.up != [] && Offer(t, departures)
    ensures var u := MergeBatch(t, p.up[0]); CoreInv(u, p.(up := p.up[1..]), departures)
  {
    var b, up := p.up[0], p.up[1..];
    var u := MergeBatch(t, b);
    MergeGrows(t, b);
    LiveGrows(t, u, p.table);
    assert Grows(p.table, p.table);
    assert UpInv(t, p.ip, p.table, up) by {
      assert forall i :: 0 <= i < |up| ==> up[i] == p.up[i + 1];
    }
    UpGrows(t, u, p.ip, p.table, p.table, up);
    DownGrows(t, u, p.ip, p.table, p.table, p.down, departures);
    MergeKeepsClaims(t, b, p.ip, p.ip, p.table);
    forall k | 0 <= k < |p.table| ensures Known(u, p.table, up, k) {
      TakenStaysKnown(t, p, k);
    }
  }

  lemma TakenStaysKnown(t: Table, p: Peer, k: nat)
    requires p.up != [] && k < |p.table| && Known(t, p.table, p.up, k)
    ensures Known(MergeBatch(t, p.up[0]), p.table, p.up[1..], k)
  {
    var n, v := p.table[k].name, p.table[k].version;
    if Covers(t, n, v) {
      MergeKeepsCover(t, p.up[0], n, v);
    } else {
      var i :| 0 <= i < |p.up| && Covers(p.up[i], n, v);
      if i == 0 {
        BatchCovered(t, p.up[0], n, v);
      } else {
        assert Covers(p.up[1..][i - 1], n, v);
      }
    }
  }

  /** The table after a peer's oldest report reaches each peer. */
  lemma MergedPeerKeeps(s: System, ip: string, i: string)
    requires Inv(s) && Enabled(s, MergeStep(ip)) && i in s.peers
    requires Offer(MergeBatch(s.table, s.peers[ip].up[0]), s.departures)
    ensures var q := s.peers[i];
      PeerInv(MergeBatch(s.table, s.peers[ip].up[0]),
        Send(if i == ip then q.(up := q.up[1..]) else q, MergeBatch(s.table, s.peers[ip].up[0])), s.departures)
  {
    var p, q := s.peers[ip], s.peers[i];
    var t, u, b := s.table, MergeBatch(s.table, p.up[0]), p.up[0];
    if i == ip {
      TakenKeepsCore(t, p, s.departures);
      assert Grows(u, u);
      SendKeeps(u, u, p.(up := p.up[1..]), s.departures);
    } else {
      MergeGrows(t, b);
      MergeKeepsClaims(t, b, ip, i, q.table);
      SendKeeps(t, u, q, s.departures);
    }
  }

  lemma MergeStepKeeps(s: System, ip: string)
    requires Inv(s) && Enabled(s, MergeStep(ip))
    ensures Inv(Apply(s, MergeStep(ip)))
  {
    var r, p := Apply(s, MergeStep(ip)), s.peers[ip];
    MergeKeepsTracker(s.table, p.up[0], ip, s.peers.Keys, s.departures);
    assert r.peers.Keys == s.peers.Keys;
    forall i | i in r.peers ensures r.peers[i].ip == i && PeerInv(r.table, r.peers[i], s.departures) {
      MergedPeerKeeps(s, ip, i);
    }
  }

  // ----- peers come and go -----

  lemma JoinKeeps(s: System, ip: string)
    requires Inv(s) && Enabled(s, Join(ip))
    ensures Inv(Apply(s, Join(ip)))
  {
    var r := Apply(s, Join(ip));
    assert r.peers.Keys == s.peers.Keys + {ip};
    assert Claims(s.table, ip, []);
    SelfOffered(s.table, ip, [], s.departures);
    assert PeerInv(s.table, r.peers[ip], s.departures);
    assert forall i :: i in r.members <==> i in s.members || i == ip;
  }

  lemma WithoutIs(ips: seq<string>, ip: string)
    requires ip in ips && forall i, j :: 0 <= i < j < |ips| ==> ips[i] != ips[j]
    ensures var r := Without(ips, ip);
      && (forall i, j :: 0 <= i < j < |r| ==> r[i] != r[j])
      && (forall a :: a in r <==> a in ips && a != ip)
  {
    if ips[0] == ip {
      assert forall a :: a in ips <==> a == ip || a in ips[1..];
    } else {
      WithoutIs(ips[1..], ip);
      var r := Without(ips, ip);
      assert forall j :: 0 < j < |r| ==> r[j] in ips[1..];
      assert ips[0] !in ips[1..];
      assert forall a :: a in ips <==> a == ips[0] || a in ips[1..];
    }
  }

  lemma RemovePeerKeeps(t: Table, ip: string)
    requires Offer(t, false) || Offer(t, true)
    ensures Offer(RemovePeer(t, ip), true)
    ensures SameVersions(t, RemovePeer(t, ip)) && Grows(t, RemovePeer(t, ip))
  {
    var u := RemovePeer(t, ip);
    RemovePeerIsExact(t, ip);
    forall n
      ensures IndexOf(u, n) == IndexOf(t, n)
    {
      IndexOfPrefix(t, u, n);
    }
  }

  /** A departure changes neither versions nor what a peer has. */
  lemma LeaveKeepsTables(t: Table, u: Table, p: Peer)
    requires LocalInv(t, p.ip, p.table, p.up) && UpInv(t, p.ip, p.table, p.up) && Grows(t, u)
    ensures LocalInv(u, p.ip, p.table, p.up) && UpInv(u, p.ip, p.table, p.up)
  {
    LiveGrows(t, u, p.table);
    assert Grows(p.table, p.table);
    UpGrows(t, u, p.ip, p.table, p.table, p.up);
    forall k | 0 <= k < |p.table| ensures Known(u, p.table, p.up, k) {
      assert Known(t, p.table, p.up, k);
    }
  }

  lemma LeaveKeepsDown(t: Table, u: Table, p: Peer, departures: bool)
    requires DownInv(t, p.ip, p.table, p.down, departures) && Grows(t, u)
    ensures DownInv(u, p.ip, p.table, p.down, true)
  {
    assert Grows(p.table, p.table);
    DownGrows(t, u, p.ip, p.table, p.table, p.down, departures);
    forall d | 0 <= d < |p.down| ensures Offered(u, p.ip, p.table, p.down[d], true) {
      assert Offered(u, p.ip, p.table, p.down[d], departures);
    }
  }

  lemma LeaveKeepsClaims(t: Table, ip: string, own: Table, leaver: string)
    requires GoodSlots(t) && Claims(t, ip, own)
    ensures Claims(RemovePeer(t, leaver), ip, own)
  {
    RemovePeerIsExact(t, leaver);
  }

  lemma LeaveKeepsLag(t: Table, p: Peer, ip: string)
    requires GoodSlots(t) && LagInv(t, p)
    ensures LagInv(RemovePeer(t, ip), p)
  {
    var u := RemovePeer(t, ip);
    RemovePeerIsExact(t, ip);
    if p.down == [] && p.up == [] {
      forall k | 0 <= k < |u| ensures CaughtUp(p.table, u[k]) {
        assert CaughtUp(p.table, t[k]);
      }
    }
  }

  lemma GoodJobsStay(ip: string, jobs: seq<Job>, departures: bool)
    requires GoodJobs(ip, jobs, departures)
    ensures GoodJobs(ip, jobs, true)
  {
    forall j | 0 <= j < |jobs| ensures GoodJob(ip, jobs[j], true) {
      assert GoodJob(ip, jobs[j], departures);
    }
  }

  lemma LeaveKeepsPeer(t: Table, p: Peer, ip: string, departures: bool)
    requires PeerInv(t, p, departures) && Offer(t, departures)
    ensures PeerInv(RemovePeer(t, ip), p, true)
  {
    var u := RemovePeer(t, ip);
    RemovePeerKeeps(t, ip);
    LeaveKeepsTables(t, u, p);
    LeaveKeepsDown(t, u, p, departures);
    LeaveKeepsClaims(t, p.ip, p.table, ip);
    GoodJobsStay(p.ip, p.jobs, departures);
    LeaveKeepsLag(t, p, ip);
  }

  lemma LeaveKeeps(s: System, ip: string)
    requires Inv(s) && Enabled(s, Leave(ip))
    ensures Inv(Apply(s, Leave(ip)))
  {
    var r := Apply(s, Leave(ip));
    RemovePeerKeeps(s.table, ip);
    RemovePeerIsExact(s.table, ip);
    WithoutIs(s.members, ip);
    assert r.peers.Keys == s.peers.Keys - {ip};
    forall i | i in r.peers ensures r.peers[i].ip == i && PeerInv(r.table, r.peers[i], true) {
      LeaveKeepsPeer(s.table, s.peers[i], ip, s.departures);
    }
  }

  lemma PeerStepKeeps(s: System, q: Peer)
    requires Inv(s) && q.ip in s.peers && PeerInv(s.table, q, s.departures)
    ensures Inv(s.(peers := s.peers[q.ip := q]))
  {
  }

  /** Every step keeps the invariant. */
  lemma StepKeepsInv(s: System, a: Step)
    requires Inv(s) && Enabled(s, a)
    ensures Inv(Apply(s, a))
  {
    match a
    case Join(ip) => JoinKeeps(s, ip);
    case Leave(ip) => LeaveKeeps(s, ip);
    case Register(ip) =>
      assert Grows(s.table, s.table);
      SendKeeps(s.table, s.table, s.peers[ip], s.departures);
      PeerStepKeeps(s, Send(s.peers[ip], s.table));
    case CreateEvent(ip, name, v) =>
      CreateKeeps(s.table, s.peers[ip], name, v, s.departures);
      PeerStepKeeps(s, FileAdded(s.peers[ip], name, v));
    case ModifyEvent(ip, name, v) =>
      ModifyKeeps(s.table, s.peers[ip], name, v, s.departures);
      PeerStepKeeps(s, FileModified(s.peers[ip], name, v));
    case MergeStep(ip) => MergeStepKeeps(s, ip);
    case PassStep(ip) =>
      var p := s.peers[ip];
      LookKeeps(s.table, p, s.departures);
      PassFrame(p.(down := p.down[1..]), p.down[0]);
      PeerStepKeeps(s, Looked(p));
    case FinishStep(ip, k) =>
      FinishKeeps(s.table, s.peers[ip], k, s.departures);
      PeerStepKeeps(s, FinishJob(s.peers[ip], k));
  }

  // ----- runs -----

  ghost predicate Next(s: System, r: System) {
    exists a :: Enabled(s, a) && r == Apply(s, a)
  }

  /** The states a run passes through, from the initial one on. */
  ghost predicate IsRun(run: seq<System>) {
    && run != [] && run[0] == Init()
    && forall i :: 0 <= i < |run| - 1 ==> Next(run[i], run[i + 1])
  }

  ghost predicate Reachable(s: System) {
    exists run :: IsRun(run) && run[|run| - 1] == s
  }

  /** A longer run is a shorter one and a step. */
  lemma RunSplits(run: seq<System>)
    requires IsRun(run) && |run| > 1
    ensures IsRun(run[..|run| - 1]) && Next(run[|run| - 2], run[|run| - 1])
  {
    var pre, i := run[..|run| - 1], |run| - 2;
    assert forall i :: 0 <= i < |pre| ==> pre[i] == run[i];
    assert Next(run[i], run[i + 1]);
  }

  lemma {:induction false} RunsKeepInv(run: seq<System>)
    requires IsRun(run)
    ensures Inv(run[|run| - 1])
  {
    if |run| > 1 {
      var s := run[|run| - 2];
      RunSplits(run);
      RunsKeepInv(run[..|run| - 1]);
      var a :| Enabled(s, a) && run[|run| - 1] == Apply(s, a);
      StepKeepsInv(s, a);
    }
  }

  lemma ReachableKeepsInv(s: System)
    requires Reachable(s)
    ensures Inv(s)
  {
    var run :| IsRun(run) && run[|run| - 1] == s;
    RunsKeepInv(run);
  }
}
