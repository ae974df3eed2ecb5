/** The files themselves: what is on the peers' disks while the protocol runs. */
module Replicas {
  import opened Tables
  import opened Providers
  import opened Peers
  import opened Jobs
  import opened Protocol
  import opened Invariant
  import opened Convergence
  import opened Sources
  import opened Settling
  import opened Packets
  import opened Download
  import opened Service

  /** The system together with the disks of its peers. */
  datatype World = World(sys: System, disks: Disks)

  /** What comes of a running download, with its sources as they are now and no
      temporary files; None if it ends the process. */
  ghost function Outcome(w: World, ip: string, k: nat, compress: Codec): Option<Bytes>
    requires ip in w.sys.peers && k < |w.sys.peers[ip].jobs|
  {
    var j := w.sys.peers[ip].jobs[k];
    Downloaded(Serving(w.disks, j), j.version.size, map[], compress)
  }

  /** The step can be taken; a download that ends its process does not finish. */
  ghost predicate Possible(w: World, a: Step, compress: Codec) {
    Enabled(w.sys, a) && (a.FinishStep? ==> Outcome(w, a.ip, a.job, compress).Some?)
  }

  /** The event is an edit: the peer's user has put version `v` on the disk. */
  predicate Edits(p: Peer, a: Step) {
    match a
    case CreateEvent(_, name, _) => !Has(p.table, name) || Get(p.table, name).ftype == FileDelete
    case ModifyEvent(_, name, _) => Has(p.table, name) && !Transient(Get(p.table, name).ftype)
    case _ => false
  }

  /** Edits and finished downloads write a file, everything else leaves the disks alone. */
  ghost function Written(w: World, a: Step, content: Contents, compress: Codec): Disks
    requires Possible(w, a, compress)
  {
    if a.FinishStep? then
      w.disks[(a.ip, w.sys.peers[a.ip].jobs[a.job].name) := Outcome(w, a.ip, a.job, compress).value]
    else if (a.CreateEvent? || a.ModifyEvent?) && Edits(w.sys.peers[a.ip], a) then
      w.disks[(a.ip, a.name) := content(a.name, a.version)]
    else w.disks
  }

  ghost function Do(w: World, a: Step, content: Contents, compress: Codec): World
    requires Possible(w, a, compress)
  {
    World(Apply(w.sys, a), Written(w, a, content, compress))
  }

  /** If the step finishes a download, it comes out as its file. */
  ghost predicate Right(w: World, a: Step, content: Contents, compress: Codec)
    requires Enabled(w.sys, a)
  {
    a.FinishStep? ==>
      var j := w.sys.peers[a.ip].jobs[a.job];
      Outcome(w, a.ip, a.job, compress) == Some(content(j.name, j.version))
  }

  ghost predicate Advances(w: World, x: World, content: Contents, compress: Codec) {
    exists a :: Possible(w, a, compress) && Right(w, a, content, compress) && x == Do(w, a, content, compress)
  }

  /** A history from the initial state, with anything on the disks, in which every
      download that finishes comes out as its file. */
  ghost predicate IsHistory(run: seq<World>, content: Contents, compress: Codec) {
    && run != [] && run[0].sys == Init()
    && forall i :: 0 <= i < |run| - 1 ==> Advances(run[i], run[i + 1], content, compress)
  }

  /** Every record of a file that is not being fetched is true of the disk. */
  ghost predicate TableTrue(t: Table, ip: string, content: Contents, disks: Disks) {
    forall n :: Has(t, n) && !Fetching(t, n) ==> OnDisk(disks, ip, n) == Some(content(n, Get(t, n).version))
  }

  ghost predicate AllTrue(w: World, content: Contents) {
    forall ip :: ip in w.sys.peers ==> TableTrue(w.sys.peers[ip].table, ip, content, w.disks)
  }

  lemma TrueIsTruthful(w: World, content: Contents)
    requires AllTrue(w, content)
    ensures Truthful(w.sys, content, w.disks)
  {
    forall ip, name, v | Settled(w.sys, ip, name, v)
      ensures OnDisk(w.disks, ip, name) == Some(content(name, v))
    {
      assert !Fetching(w.sys.peers[ip].table, name);
    }
  }

  // ----- truth is kept -----

  /** A table every settled record of which was there before, on unchanged disks. */
  lemma FewerSettledTrue(t: Table, u: Table, ip: string, content: Contents, disks: Disks)
    requires TableTrue(t, ip, content, disks)
    requires forall n :: Has(u, n) && !Fetching(u, n) ==>
      Has(t, n) && !Fetching(t, n) && Get(u, n).version == Get(t, n).version
    ensures TableTrue(u, ip, content, disks)
  {
  }

  /** One record has changed, and its file with it. */
  lemma OneWrittenTrue(t: Table, u: Table, ip: string, name: string, data: Bytes, content: Contents, disks: Disks)
    requires TableTrue(t, ip, content, disks)
    requires forall n :: n != name ==> Find(u, n) == Find(t, n)
    requires Has(u, name) && data == content(name, Get(u, name).version)
    ensures TableTrue(u, ip, content, disks[(ip, name) := data])
  {
    forall n | Has(u, n) && !Fetching(u, n)
      ensures OnDisk(disks[(ip, name) := data], ip, n) == Some(content(n, Get(u, n).version))
    {
      if n != name { assert Find(u, n) == Find(t, n); }
    }
  }

  lemma OthersStayTrue(w: World, ip: string, name: string, data: Bytes, content: Contents)
    requires AllTrue(w, content)
    ensures forall i :: i in w.sys.peers && i != ip ==>
      TableTrue(w.sys.peers[i].table, i, content, w.disks[(ip, name) := data])
  {
    forall i | i in w.sys.peers && i != ip
      ensures TableTrue(w.sys.peers[i].table, i, content, w.disks[(ip, name) := data])
    {
      var t := w.sys.peers[i].table;
      forall n | Has(t, n) && !Fetching(t, n)
        ensures OnDisk(w.disks[(ip, name) := data], i, n) == Some(content(n, Get(t, n).version))
      {
        assert TableTrue(t, i, content, w.disks);
      }
    }
  }

  lemma EventTouchesOne(p: Peer, name: string, v: Version, n: string)
    requires n != name
    ensures Find(FileAdded(p, name, v).table, n) == Find(p.table, n)
    ensures Find(FileModified(p, name, v).table, n) == Find(p.table, n)
  {
    var t, k := p.table, IndexOf(p.table, name);
    if k < |t| {
      FindUpdate(t, k, t[k].(ftype := FileCreate, version := v), n);
      FindUpdate(t, k, t[k].(ftype := FileModify), n);
      FindUpdate(t, k, t[k].(version := v, ftype := FileModify), n);
    } else {
      FindAppend(t, Entry(name, v, FileCreate, IS_FILE, Only(p.ip)), n);
    }
  }

  /** What an event does to the record of its own file. */
  lemma EventAt(p: Peer, name: string, v: Version)
    requires Has(p.table, name) ==> Live(Get(p.table, name).ftype)
    ensures var own, t := p.table, FileAdded(p, name, v).table;
      && (!Has(own, name) ==> Has(t, name) && Get(t, name).version == v)
      && (Has(own, name) ==>
            && Has(t, name) && Get(t, name).version == Get(own, name).version
            && (Fetching(t, name) <==> Fetching(own, name)))
    ensures var own, t := p.table, FileModified(p, name, v).table;
      && (!Has(own, name) ==> t == own)
      && (Has(own, name) && !Transient(Get(own, name).ftype) ==> Has(t, name) && Get(t, name).version == v)
      && (Has(own, name) && Transient(Get(own, name).ftype) ==>
            && Has(t, name) && Get(t, name).version == Get(own, name).version
            && (Fetching(t, name) <==> Fetching(own, name)))
  {
    var t, k := p.table, IndexOf(p.table, name);
    if k < |t| {
      FindUpdate(t, k, t[k].(ftype := FileModify), name);
      FindUpdate(t, k, t[k].(version := v, ftype := FileModify), name);
    } else {
      FindAppend(t, Entry(name, v, FileCreate, IS_FILE, Only(p.ip)), name);
    }
  }

  /** A record of `name` that says the same as before, or one that has been edited. */
  lemma EditedTrue(t: Table, u: Table, ip: string, name: string, v: Version, edited: bool, content: Contents,
                   disks: Disks)
    requires TableTrue(t, ip, content, disks)
    requires forall n :: n != name ==> Find(u, n) == Find(t, n)
    requires edited ==> Has(u, name) && Get(u, name).version == v
    requires !edited && Has(u, name) ==>
      Has(t, name) && Get(u, name).version == Get(t, name).version && (Fetching(t, name) ==> Fetching(u, name))
    ensures TableTrue(u, ip, content, if edited then disks[(ip, name) := content(name, v)] else disks)
  {
    if edited {
      OneWrittenTrue(t, u, ip, name, content(name, v), content, disks);
    } else {
      forall n | Has(u, n) && !Fetching(u, n) ensures OnDisk(disks, ip, n) == Some(content(n, Get(u, n).version)) {
        if n != name { assert Find(u, n) == Find(t, n); }
        assert Has(t, n) && !Fetching(t, n);
      }
    }
  }

  /** A monitor event either edits a file, or moves a fetched one on, or does nothing. */
  lemma EventTrue(t: Table, p: Peer, name: string, v: Version, departures: bool, content: Contents, disks: Disks)
    requires PeerInv(t, p, departures) && TableTrue(p.table, p.ip, content, disks)
    ensures var now := disks[(p.ip, name) := content(name, v)];
      && TableTrue(FileAdded(p, name, v).table, p.ip, content,
           if Edits(p, CreateEvent(p.ip, name, v)) then now else disks)
      && TableTrue(FileModified(p, name, v).table, p.ip, content,
           if Edits(p, ModifyEvent(p.ip, name, v)) then now else disks)
  {
    var own := p.table;
    assert Has(own, name) ==> Live(own[IndexOf(own, name)].ftype);
    EventAt(p, name, v);
    forall n | n != name
      ensures Find(FileAdded(p, name, v).table, n) == Find(own, n)
      ensures Find(FileModified(p, name, v).table, n) == Find(own, n)
    {
      EventTouchesOne(p, name, v, n);
    }
    EditedTrue(own, FileAdded(p, name, v).table, p.ip, name, v, Edits(p, CreateEvent(p.ip, name, v)), content, disks);
    EditedTrue(own, FileModified(p, name, v).table, p.ip, name, v, Edits(p, ModifyEvent(p.ip, name, v)), content,
      disks);
  }

  /** A pass leaves no record settled but those that were, at their versions. */
  lemma PassSettlesNothing(p: Peer, d: Table, n: string)
    requires UniqueNames(d) && forall k :: 0 <= k < |d| ==> d[k].ftype != FileDelete
    requires Has(Pass(p, d).table, n) && !Fetching(Pass(p, d).table, n)
    ensures Has(p.table, n) && !Fetching(p.table, n) && Get(Pass(p, d).table, n).version == Get(p.table, n).version
  {
    PassAt(p, d, n);
  }

  lemma LookedTrue(t: Table, p: Peer, departures: bool, content: Contents, disks: Disks)
    requires DownInv(t, p.ip, p.table, p.down, departures) && p.down != []
    requires TableTrue(p.table, p.ip, content, disks)
    ensures TableTrue(Looked(p).table, p.ip, content, disks)
  {
    var q, d := p.(down := p.down[1..]), p.down[0];
    assert Offered(t, p.ip, p.table, d, departures);
    forall n | Has(Pass(q, d).table, n) && !Fetching(Pass(q, d).table, n)
      ensures Has(p.table, n) && !Fetching(p.table, n)
      ensures Get(Pass(q, d).table, n).version == Get(p.table, n).version
    {
      PassSettlesNothing(q, d, n);
    }
    FewerSettledTrue(p.table, Pass(q, d).table, p.ip, content, disks);
  }

  lemma FinishedTrue(p: Peer, k: nat, data: Bytes, content: Contents, disks: Disks)
    requires UniqueNames(p.table) && Matched(p.table, p.jobs) && k < |p.jobs|
    requires TableTrue(p.table, p.ip, content, disks)
    requires data == content(p.jobs[k].name, p.jobs[k].version)
    ensures TableTrue(FinishJob(p, k).table, p.ip, content, disks[(p.ip, p.jobs[k].name) := data])
  {
    var i := IndexOf(p.table, p.jobs[k].name);
    FinishShape(p, k);
    assert JobMatches(p.table, p.jobs[k]);
    forall n | n != p.jobs[k].name ensures Find(FinishJob(p, k).table, n) == Find(p.table, n) {
      FindUpdate(p.table, i, p.table[i].(ftype := FileDownload), n);
    }
    FindUpdate(p.table, i, p.table[i].(ftype := FileDownload), p.jobs[k].name);
    OneWrittenTrue(p.table, FinishJob(p, k).table, p.ip, p.jobs[k].name, data, content, disks);
  }

  /** One peer replaced, and at most one of its files written. */
  lemma OneTrue(w: World, q: Peer, disks: Disks, name: string, data: Bytes, content: Contents)
    requires AllTrue(w, content) && q.ip in w.sys.peers
    requires disks == w.disks || disks == w.disks[(q.ip, name) := data]
    requires TableTrue(q.table, q.ip, content, disks)
    ensures AllTrue(World(w.sys.(peers := w.sys.peers[q.ip := q]), disks), content)
  {
    OthersStayTrue(w, q.ip, name, data, content);
  }

  lemma SameTablesTrue(w: World, s: System, content: Contents)
    requires AllTrue(w, content)
    requires forall ip :: ip in s.peers ==>
      s.peers[ip].table == [] || (ip in w.sys.peers && s.peers[ip].table == w.sys.peers[ip].table)
    ensures AllTrue(World(s, w.disks), content)
  {
    forall ip | ip in s.peers ensures TableTrue(s.peers[ip].table, ip, content, w.disks) {
      if s.peers[ip].table != [] { assert TableTrue(w.sys.peers[ip].table, ip, content, w.disks); }
    }
  }

  lemma CreateKeepsTrue(w: World, ip: string, name: string, v: Version, content: Contents, compress: Codec)
    requires Inv(w.sys) && AllTrue(w, content) && Possible(w, CreateEvent(ip, name, v), compress)
    ensures AllTrue(Do(w, CreateEvent(ip, name, v), content, compress), content)
  {
    var p, disks := w.sys.peers[ip], Written(w, CreateEvent(ip, name, v), content, compress);
    EventTrue(w.sys.table, p, name, v, w.sys.departures, content, w.disks);
    OneTrue(w, FileAdded(p, name, v), disks, name, content(name, v), content);
  }

  lemma ModifyKeepsTrue(w: World, ip: string, name: string, v: Version, content: Contents, compress: Codec)
    requires Inv(w.sys) && AllTrue(w, content) && Possible(w, ModifyEvent(ip, name, v), compress)
    ensures AllTrue(Do(w, ModifyEvent(ip, name, v), content, compress), content)
  {
    var p, disks := w.sys.peers[ip], Written(w, ModifyEvent(ip, name, v), content, compress);
    EventTrue(w.sys.table, p, name, v, w.sys.departures, content, w.disks);
    OneTrue(w, FileModified(p, name, v), disks, name, content(name, v), content);
  }

  lemma PassKeepsTrue(w: World, ip: string, content: Contents, compress: Codec)
    requires Inv(w.sys) && AllTrue(w, content) && Possible(w, PassStep(ip), compress)
    ensures AllTrue(Do(w, PassStep(ip), content, compress), content)
  {
    var p := w.sys.peers[ip];
    LookedTrue(w.sys.table, p, w.sys.departures, content, w.disks);
    PassFrame(p.(down := p.down[1..]), p.down[0]);
    OneTrue(w, Looked(p), w.disks, "", [], content);
  }

  lemma FinishKeepsTrue(w: World, ip: string, k: nat, content: Contents, compress: Codec)
    requires Inv(w.sys) && AllTrue(w, content)
    requires Possible(w, FinishStep(ip, k), compress) && Right(w, FinishStep(ip, k), content, compress)
    ensures AllTrue(Do(w, FinishStep(ip, k), content, compress), content)
  {
    var p, x := w.sys.peers[ip], Do(w, FinishStep(ip, k), content, compress);
    var data := Outcome(w, ip, k, compress).value;
    FinishedTrue(p, k, data, content, w.disks);
    OneTrue(w, FinishJob(p, k), x.disks, p.jobs[k].name, data, content);
  }

  /** Steps of the tracker, arrivals and departures leave every peer's table and disk alone. */
  lemma OthersKeepTrue(w: World, a: Step, content: Contents, compress: Codec)
    requires AllTrue(w, content) && Possible(w, a, compress)
    requires a.Join? || a.Leave? || a.Register? || a.MergeStep?
    ensures AllTrue(Do(w, a, content, compress), content)
  {
    SameTablesTrue(w, Apply(w.sys, a), content);
  }

  lemma StepKeepsTrue(w: World, a: Step, content: Contents, compress: Codec)
    requires Inv(w.sys) && AllTrue(w, content)
    requires Possible(w, a, compress) && Right(w, a, content, compress)
    ensures AllTrue(Do(w, a, content, compress), content)
  {
    match a
    case CreateEvent(ip, name, v) => CreateKeepsTrue(w, ip, name, v, content, compress);
    case ModifyEvent(ip, name, v) => ModifyKeepsTrue(w, ip, name, v, content, compress);
    case PassStep(ip) => PassKeepsTrue(w, ip, content, compress);
    case FinishStep(ip, k) => FinishKeepsTrue(w, ip, k, content, compress);
    case _ => OthersKeepTrue(w, a, content, compress);
  }

  /** In every history whose finished downloads come out as their files, every
      record that is not being fetched is true of its peer's disk. */
  lemma {:induction false} HistoriesAreTrue(run: seq<World>, content: Contents, compress: Codec)
    requires IsHistory(run, content, compress)
    ensures Reachable(run[|run| - 1].sys) && AllTrue(run[|run| - 1], content)
  {
    if |run| == 1 {
      ReachableInit();
    } else {
      var pre, w := run[..|run| - 1], run[|run| - 2];
      assert Advances(run[|run| - 2], run[|run| - 2 + 1], content, compress);
      HistoriesAreTrue(pre, content, compress);
      AdvanceKeepsTrue(w, run[|run| - 1], content, compress);
    }
  }

  lemma AdvanceKeepsTrue(w: World, x: World, content: Contents, compress: Codec)
    requires Reachable(w.sys) && AllTrue(w, content) && Advances(w, x, content, compress)
    ensures Reachable(x.sys) && AllTrue(x, content)
  {
    var a :| Possible(w, a, compress) && Right(w, a, content, compress) && x == Do(w, a, content, compress);
    ReachableKeepsInv(w.sys);
    ReachableStep(w.sys, a);
    StepKeepsTrue(w, a, content, compress);
  }

  /** When a download comes out right: in any such history the one that finishes
      next does exactly if it has a source, there is a byte for every piece, and
      every source asked serves its piece. */
  lemma FinishIsRightIff(run: seq<World>, ip: string, k: nat, content: Contents, compress: Codec)
    requires IsHistory(run, content, compress)
    requires var w := run[|run| - 1]; Enabled(w.sys, FinishStep(ip, k))
    requires forall n, v :: |content(n, v)| == v.size
    ensures var w := run[|run| - 1];
      var j := w.sys.peers[ip].jobs[k];
      var n, src := |j.providers|, content(j.name, j.version);
      var sp := SplitFile(n, |src|);
      && sp.count <= n
      && (Right(w, FinishStep(ip, k), content, compress) <==>
            && n > 0 && EnoughBytes(n, |src|)
            && forall i: nat :: i < sp.count ==> Serves(w.sys, w.disks, j, src, sp, compress, i))
  {
    var w := run[|run| - 1];
    HistoriesAreTrue(run, content, compress);
    TrueIsTruthful(w, content);
    EveryDownloadIsFileIff(w.sys, ip, k, content, w.disks, compress);
  }

  // ----- the same bytes everywhere -----

  /** Every peer has just the tracker's version of every non-empty file on its disk. */
  ghost predicate SameBytes(w: World, content: Contents) {
    forall ip, k :: ip in w.sys.peers && 0 <= k < |w.sys.table| && w.sys.table[k].version.size > 0 ==>
      OnDisk(w.disks, ip, w.sys.table[k].name) == Some(content(w.sys.table[k].name, w.sys.table[k].version))
  }

  lemma QuietMeansSameBytes(w: World, content: Contents)
    requires Reachable(w.sys) && AllTrue(w, content) && Quiescent(w.sys)
    ensures SameBytes(w, content)
  {
    QuiescenceMeansAgreement(w.sys);
    forall ip, k | ip in w.sys.peers && 0 <= k < |w.sys.table| && w.sys.table[k].version.size > 0
      ensures OnDisk(w.disks, ip, w.sys.table[k].name) == Some(content(w.sys.table[k].name, w.sys.table[k].version))
    {
      assert Agrees(w.sys.table, w.sys.peers[ip].table);
      assert TableTrue(w.sys.peers[ip].table, ip, content, w.disks);
    }
  }

  /** When everything is quiet at the end of such a history, all peers have the
      same bytes of every non-empty file, those of the tracker's version. */
  lemma QuiescenceMeansSameBytes(run: seq<World>, content: Contents, compress: Codec)
    requires IsHistory(run, content, compress) && Quiescent(run[|run| - 1].sys)
    ensures SameBytes(run[|run| - 1], content)
  {
    HistoriesAreTrue(run, content, compress);
    QuietMeansSameBytes(run[|run| - 1], content);
  }

  ghost function SystemsOf(rest: nat -> World): nat -> System {
    (i: nat) => rest(i).sys
  }

  /** Whatever is left to do is done without a download that ends its process or
      comes out wrong. */
  ghost predicate SettlesRight(rest: nat -> World, content: Contents, compress: Codec) {
    && KeepsSettling(SystemsOf(rest))
    && forall i: nat :: SettlesTo(SystemsOf(rest)(i), SystemsOf(rest)(i + 1)) ==>
         Advances(rest(i), rest(i + 1), content, compress)
  }

  /** And if from there on only the remaining steps are taken, as long as there
      are any, the same bytes are everywhere after finitely many. */
  lemma EventuallySameBytes(run: seq<World>, rest: nat -> World, content: Contents, compress: Codec)
    requires IsHistory(run, content, compress) && rest(0) == run[|run| - 1]
    requires SettlesRight(rest, content, compress)
    ensures exists m: nat :: Quiescent(rest(m).sys) && SameBytes(rest(m), content)
  {
    HistoriesAreTrue(run, content, compress);
    var m := QuietPoint(SystemsOf(rest));
    assert rest(m).sys == SystemsOf(rest)(m);
    StaysTrue(rest, m, content, compress);
    QuietMeansSameBytes(rest(m), content);
  }

  lemma {:induction false} StaysTrue(rest: nat -> World, m: nat, content: Contents, compress: Codec)
    requires Reachable(rest(0).sys) && AllTrue(rest(0), content)
    requires forall i: nat :: i < m ==> Advances(rest(i), rest(i + 1), content, compress)
    ensures Reachable(rest(m).sys) && AllTrue(rest(m), content)
  {
    if m > 0 {
      StaysTrue(rest, m - 1, content, compress);
      AdvanceKeepsTrue(rest(m - 1), rest(m - 1 + 1), content, compress);
    }
  }
}
