/** What the invariant says in every reachable state, and that settling down
    always ends in agreement. */
module Convergence {
  import opened Tables
  import opened Providers
  import opened Merge
  import opened Peers
  import opened Protocol
  import opened Invariant

  /** Nothing is on the way and no download is under way or unnoticed. */
  ghost predicate Quiescent(s: System) {
    forall ip :: ip in s.peers ==>
      var p := s.peers[ip];
      && p.up == [] && p.down == []
      && forall k :: 0 <= k < |p.table| ==> !Transient(p.table[k].ftype)
  }

  /** A peer holds just the tracker's version of every non-empty record, and
      nothing the tracker does not have at that version or a later one. */
  ghost predicate Agrees(t: Table, own: Table) {
    && (forall k :: 0 <= k < |t| && t[k].version.size > 0 ==>
          Has(own, t[k].name) && Get(own, t[k].name).version == t[k].version)
    && AllCovered(own, t)
  }

  ghost predicate Agreement(s: System) {
    forall ip :: ip in s.peers ==> Agrees(s.table, s.peers[ip].table)
  }

  lemma QuiescentPeerAgrees(t: Table, p: Peer, departures: bool)
    requires Offer(t, departures) && PeerInv(t, p, departures) && p.up == [] && p.down == []
    requires forall k :: 0 <= k < |p.table| ==> !Transient(p.table[k].ftype)
    ensures Agrees(t, p.table)
  {
    forall k | 0 <= k < |p.table| ensures Covers(t, p.table[k].name, p.table[k].version) {
      assert Known(t, p.table, p.up, k);
    }
    forall k | 0 <= k < |t| && t[k].version.size > 0
      ensures Has(p.table, t[k].name) && Get(p.table, t[k].name).version == t[k].version
    {
      GetUnique(t, k);
      assert CaughtUp(p.table, t[k]);
      var i := IndexOf(p.table, t[k].name);
      assert Covers(t, p.table[i].name, p.table[i].version);
    }
  }

  lemma InvAgrees(s: System)
    requires Inv(s) && Quiescent(s)
    ensures Agreement(s)
  {
    forall ip | ip in s.peers ensures Agrees(s.table, s.peers[ip].table) {
      QuiescentPeerAgrees(s.table, s.peers[ip], s.departures);
    }
  }

  /** Agreement at quiescence. */
  lemma QuiescenceMeansAgreement(s: System)
    requires Reachable(s) && Quiescent(s)
    ensures Agreement(s)
  {
    ReachableKeepsInv(s);
    InvAgrees(s);
  }

  /** No download ever names its own peer as a source; there is at most one per
      file; each has a non-empty file and at most MAX_PEER_NUM distinct sources,
      and at least one unless some peer has been removed. */
  lemma DownloadsAreServable(s: System, ip: string)
    requires Reachable(s) && ip in s.peers
    ensures var jobs := s.peers[ip].jobs;
      && (forall i, j :: 0 <= i < j < |jobs| ==> jobs[i].name != jobs[j].name)
      && (forall j :: 0 <= j < |jobs| ==>
            && ip !in jobs[j].providers
            && jobs[j].version.size > 0
            && |jobs[j].providers| <= MAX_PEER_NUM
            && (forall a, b :: 0 <= a < b < |jobs[j].providers| ==> jobs[j].providers[a] != jobs[j].providers[b])
            && (!s.departures ==> jobs[j].providers != []))
  {
    ReachableKeepsInv(s);
    var p := s.peers[ip];
    forall j | 0 <= j < |p.jobs| ensures GoodJob(ip, p.jobs[j], s.departures) {
    }
  }

  /** The tracker never stores, nor ever broadcasts, a transient type. */
  lemma TrackerNeverTransient(s: System)
    requires Reachable(s)
    ensures forall k :: 0 <= k < |s.table| ==> !Transient(s.table[k].ftype)
    ensures forall ip, d, k :: ip in s.peers && 0 <= d < |s.peers[ip].down| && 0 <= k < |s.peers[ip].down[d]| ==>
      !Transient(s.peers[ip].down[d][k].ftype)
  {
    ReachableKeepsInv(s);
    forall ip, d | ip in s.peers && 0 <= d < |s.peers[ip].down|
      ensures forall k :: 0 <= k < |s.peers[ip].down[d]| ==> !Transient(s.peers[ip].down[d][k].ftype)
    {
      OfferedIsSettled(s.table, s.peers[ip], d, s.departures);
    }
  }

  lemma OfferedIsSettled(t: Table, p: Peer, d: nat, departures: bool)
    requires PeerInv(t, p, departures) && d < |p.down|
    ensures forall k :: 0 <= k < |p.down[d]| ==> !Transient(p.down[d][k].ftype)
  {
    assert Offered(t, p.ip, p.table, p.down[d], departures);
  }

  /** A peer that the tracker, or a broadcast still queued for it, lists for a
      version has a record of that version or a later one, be it that the file is
      still being fetched; and only peers now connected are listed by the tracker. */
  lemma ListedMeansKnown(s: System, ip: string)
    requires Reachable(s) && ip in s.peers
    ensures Claims(s.table, ip, s.peers[ip].table)
    ensures forall d :: 0 <= d < |s.peers[ip].down| ==> Claims(s.peers[ip].down[d], ip, s.peers[ip].table)
    ensures forall k, a :: 0 <= k < |s.table| && a in Listed(s.table[k].slots) ==> a in s.peers
  {
    ReachableKeepsInv(s);
    var p := s.peers[ip];
    forall d | 0 <= d < |p.down| ensures Claims(p.down[d], ip, p.table) {
      assert Offered(s.table, p.ip, p.table, p.down[d], s.departures);
    }
  }

  // ----- what becomes of an edit -----

  /** The monitor reports a file the peer did not know, had marked deleted, or
      holds in its own version. */
  ghost predicate IsEdit(p: Peer, name: string, q: Peer, v: Version) {
    || (q == FileAdded(p, name, v) && (!Has(p.table, name) || Get(p.table, name).ftype == FileDelete))
    || (q == FileModified(p, name, v) && Has(p.table, name) && !Transient(Get(p.table, name).ftype))
  }

  /** The report of an edit says just that of the file, and of all others what
      the table said. */
  lemma EditIsReported(p: Peer, name: string, q: Peer, v: Version)
    requires Own(p.table, p.ip) && IsEdit(p, name, q, v)
    ensures q.up == p.up + [q.table] && q.jobs == p.jobs && Own(q.table, p.ip)
    ensures Has(q.table, name) && Get(q.table, name).version == v
    ensures Get(q.table, name).ftype == FileCreate || Get(q.table, name).ftype == FileModify
    ensures forall n :: n != name ==> Find(q.table, n) == Find(p.table, n)
  {
    var t, k := p.table, IndexOf(p.table, name);
    if k < |t| {
      var e := q.table[k];
      OwnUpdate(t, p.ip, k, e);
      forall n ensures Find(q.table, n) == if n == name then Some(e) else Find(t, n) {
        FindUpdate(t, k, e, n);
      }
    } else {
      var e := q.table[|t|];
      OwnAppend(t, p.ip, e);
      forall n ensures Find(q.table, n) == if n == name then Some(e) else Find(t, n) {
        FindAppend(t, e, n);
      }
    }
  }

  /** An edit to a version the tracker has not reached makes it, once its report
      is merged, the tracker's version, with the editor as the only source; every
      peer that is behind and not fetching the file then fetches it from there. */
  lemma EditBecomesCurrent(t: Table, p: Peer, name: string, q: Peer, v: Version, other: Peer)
    requires Own(p.table, p.ip) && p.ip != "" && IsEdit(p, name, q, v) && !Covers(t, name, v) && v.size > 0
    requires !Covers(other.table, name, v)
    requires Has(other.table, name) ==> Get(other.table, name).ftype != FileDownloading
    ensures var m := MergeBatch(t, q.table);
      && Has(m, name) && Get(m, name).version == v && Listed(Get(m, name).slots) == [p.ip]
      && CompareNode(other, Get(m, name)).jobs == other.jobs + [Job(name, v, [p.ip])]
  {
    EditIsReported(p, name, q, v);
    MergeAt(t, q.table, name);
    OnlyIsGood(p.ip);
    var r := Get(MergeBatch(t, q.table), name);
    assert r == Fresh(Get(q.table, name));
    CompareAt(other, r, name);
  }

  // ----- what the side conditions are for -----

  /** A peer that holds the tracker's version of a file and is listed for it
      edits it.  When the tracker's answer comes back it starts a download, from
      itself among others, exactly if the edit lowered the version of a
      non-empty file. */
  lemma SelfDownloadIffLowered(p: Peer, k: nat, r: Entry, v: Version)
    requires Own(p.table, p.ip) && p.ip != "" && k < |p.table| && !Transient(p.table[k].ftype)
    requires r.name == p.table[k].name && r.version == p.table[k].version && r.ftype != FileDelete
    requires Packed(r.slots) && Distinct(r.slots) && p.ip in Listed(r.slots)
    ensures var q := FileModified(p, r.name, v);
      var answer := CompareNode(q, Refresh(r, q.table[k]));
      && (answer.jobs != p.jobs <==> Older(v, r.version) && r.version.size > 0)
      && (answer.jobs != p.jobs ==> answer.jobs == p.jobs + [JobFor(r)] && p.ip in JobFor(r).providers)
  {
  }

  /** Taking a peer out leaves a record without sources exactly if it was the
      only one listed; the record is still offered, and a download of it would
      have no source. */
  lemma OrphanedIffOnlySource(r: Entry, ip: string)
    requires Packed(r.slots) && Distinct(r.slots)
    ensures JobFor(r.(slots := Remove(r.slots, ip))).providers == [] <==> forall a :: a in Listed(r.slots) ==> a == ip
  {
    RemoveIsExact(r.slots, ip);
    var left := Listed(Remove(r.slots, ip));
    if left != [] {
      assert left[0] in left;
    }
  }

  /** With deletions: a deleted record is fetched exactly by the peers that have
      never heard of a non-empty file of that name. */
  lemma TombstoneFetchedIffUnknown(p: Peer, seek: Entry)
    requires seek.ftype == FileDelete
    ensures CompareNode(p, seek).jobs != p.jobs <==> !Has(p.table, seek.name) && seek.version.size > 0
  {
  }

  /** With deletions: the tracker learns of a deletion of the version it holds
      exactly if the clock has moved on since that version's timestamp; a
      deletion within the same second is lost. */
  lemma DeletionNoticedIffLater(p: Peer, k: nat, r: Entry, now: nat)
    requires Own(p.table, p.ip) && k < |p.table|
    requires r.name == p.table[k].name && r.version == p.table[k].version && r.ftype != FileDelete
    ensures var report := FileDeleted(p, r.name, now).up[|p.up|];
      && Has(report, r.name)
      && (Refresh(r, Get(report, r.name)).ftype == FileDelete <==> now > r.version.timestamp)
  {
    GetUnique(p.table, k);
    var e := p.table[k].(version := p.table[k].version.(timestamp := now), ftype := FileDelete);
    FindUpdate(p.table, k, e, r.name);
  }

  /** With deletions: a tombstone no older than a peer's record marks it deleted
      without starting a download or changing its version. */
  lemma TombstoneBuries(p: Peer, seek: Entry)
    requires seek.ftype == FileDelete && Has(p.table, seek.name)
    requires Get(p.table, seek.name).version.timestamp <= seek.version.timestamp
    ensures var q := CompareNode(p, seek);
      q.jobs == p.jobs && Find(q.table, seek.name) == Some(Get(p.table, seek.name).(ftype := FileDelete))
  {
    CompareAt(p, seek, seek.name);
  }
}
