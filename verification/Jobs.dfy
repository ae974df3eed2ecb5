/** Running downloads and the records being fetched: which steps of a peer keep
    them in correspondence, and which do not (peer/peer.c, peer/monitor.c). */
module Jobs {
  import opened Tables
  import opened Providers
  import opened Peers

  predicate Fetching(t: Table, name: string) {
    Has(t, name) && Get(t, name).ftype == FileDownloading
  }

  ghost predicate HasJob(jobs: seq<Job>, name: string) {
    exists j :: 0 <= j < |jobs| && jobs[j].name == name
  }

  ghost predicate JobMatches(own: Table, j: Job) {
    Fetching(own, j.name) && Get(own, j.name).version == j.version
  }

  /** One download per record being fetched, with that record's version. */
  ghost predicate Matched(own: Table, jobs: seq<Job>) {
    && (forall j :: 0 <= j < |jobs| ==> JobMatches(own, jobs[j]))
    && (forall i, j :: 0 <= i < j < |jobs| ==> jobs[i].name != jobs[j].name)
    && (forall k :: 0 <= k < |own| && own[k].ftype == FileDownloading ==> HasJob(jobs, own[k].name))
  }

  // ----- records that are not being fetched -----

  lemma MatchedUpdate(own: Table, k: nat, e: Entry, jobs: seq<Job>)
    requires UniqueNames(own) && Matched(own, jobs)
    requires k < |own| && own[k].ftype != FileDownloading
    requires e.name == own[k].name && e.ftype != FileDownloading
    ensures Matched(own[k := e], jobs)
  {
    var now := own[k := e];
    GetUnique(own, k);
    forall j | 0 <= j < |jobs| ensures JobMatches(now, jobs[j]) {
      FindUpdate(own, k, e, jobs[j].name);
    }
    forall i | 0 <= i < |now| && now[i].ftype == FileDownloading ensures HasJob(jobs, now[i].name) {
      assert now[i] == own[i];
    }
  }

  lemma MatchedAppend(own: Table, e: Entry, jobs: seq<Job>)
    requires Matched(own, jobs) && !Has(own, e.name) && e.ftype != FileDownloading
    ensures Matched(own + [e], jobs)
  {
    forall j | 0 <= j < |jobs| ensures JobMatches(own + [e], jobs[j]) {
      FindAppend(own, e, jobs[j].name);
    }
  }

  // ----- a download starts -----

  lemma MatchedStart(own: Table, now: Table, j: Job, jobs: seq<Job>)
    requires UniqueNames(now) && Matched(own, jobs) && !Fetching(own, j.name) && JobMatches(now, j)
    requires forall n :: n != j.name ==> Find(now, n) == Find(own, n)
    ensures Matched(now, jobs + [j])
  {
    var js := jobs + [j];
    forall i | 0 <= i < |jobs| ensures JobMatches(now, js[i]) && js[i].name != j.name {
      assert js[i] == jobs[i] && JobMatches(own, jobs[i]);
      assert Find(now, jobs[i].name) == Find(own, jobs[i].name);
    }
    forall k | 0 <= k < |now| && now[k].ftype == FileDownloading ensures HasJob(js, now[k].name) {
      GetUnique(now, k);
      if now[k].name == j.name {
        assert js[|jobs|] == j;
      } else {
        assert Find(own, now[k].name) == Some(now[k]);
        var i := IndexOf(own, now[k].name);
        var m :| 0 <= m < |jobs| && jobs[m].name == own[i].name;
        assert js[m] == jobs[m];
      }
    }
  }

  // ----- a download finishes -----

  /** Finishing changes a type and nothing else: the size the thread writes back
      is the one on record. */
  lemma FinishShape(p: Peer, k: nat)
    requires Matched(p.table, p.jobs) && k < |p.jobs|
    ensures var i := IndexOf(p.table, p.jobs[k].name);
      && i < |p.table| && p.table[i].ftype == FileDownloading
      && FinishJob(p, k).table == p.table[i := p.table[i].(ftype := FileDownload)]
  {
    assert JobMatches(p.table, p.jobs[k]);
  }

  lemma HasJobWithout(jobs: seq<Job>, k: nat, name: string)
    requires k < |jobs| && HasJob(jobs, name) && jobs[k].name != name
    ensures HasJob(jobs[..k] + jobs[k + 1..], name)
  {
    var rest := jobs[..k] + jobs[k + 1..];
    var j :| 0 <= j < |jobs| && jobs[j].name == name;
    assert rest[if j < k then j else j - 1] == jobs[j];
  }

  lemma FinishKeepsMatched(p: Peer, k: nat)
    requires UniqueNames(p.table) && Matched(p.table, p.jobs) && k < |p.jobs|
    ensures Matched(FinishJob(p, k).table, FinishJob(p, k).jobs)
  {
    var q, job := FinishJob(p, k), p.jobs[k];
    FinishShape(p, k);
    forall j | 0 <= j < |p.jobs| && j != k ensures JobMatches(q.table, p.jobs[j]) {
      assert JobMatches(p.table, p.jobs[j]) && p.jobs[j].name != job.name;
      SetNodeTypeAt(p.table, job.name, FileDownload, job.version.size, p.jobs[j].name);
    }
    forall i | 0 <= i < |q.table| && q.table[i].ftype == FileDownloading ensures HasJob(q.jobs, q.table[i].name) {
      assert q.table[i] == p.table[i] && HasJob(p.jobs, p.table[i].name);
      GetUnique(p.table, i);
      HasJobWithout(p.jobs, k, p.table[i].name);
    }
  }

  // ----- a record being fetched is marked deleted -----

  lemma BuriedIsUnmatched(own: Table, k: nat, e: Entry, jobs: seq<Job>)
    requires UniqueNames(own) && Matched(own, jobs)
    requires k < |own| && own[k].ftype == FileDownloading
    requires e.name == own[k].name && e.ftype != FileDownloading
    ensures !Matched(own[k := e], jobs)
  {
    GetUnique(own, k);
    FindUpdate(own, k, e, e.name);
    var j :| 0 <= j < |jobs| && jobs[j].name == e.name;
    assert !JobMatches(own[k := e], jobs[j]);
  }

  /** The step marks a record deleted while its file is being fetched. */
  predicate MarksFetched(p: Peer, s: LocalStep) {
    match s
    case Deleted(name, _) => Fetching(p.table, name)
    case Heard(e) => Fetching(p.table, e.name) && Buries(Get(p.table, e.name), e)
    case _ => false
  }

  lemma EventKeepsMatched(p: Peer, name: string, v: Version)
    requires UniqueNames(p.table) && Matched(p.table, p.jobs)
    ensures var q := FileAdded(p, name, v); Matched(q.table, q.jobs)
    ensures var q := FileModified(p, name, v); Matched(q.table, q.jobs)
  {
    var t, k := p.table, IndexOf(p.table, name);
    if k < |t| {
      if t[k].ftype != FileDownloading {
        MatchedUpdate(t, k, t[k].(ftype := FileCreate, version := v), p.jobs);
        MatchedUpdate(t, k, t[k].(ftype := FileModify), p.jobs);
        MatchedUpdate(t, k, t[k].(ftype := FileModify, version := v), p.jobs);
      }
    } else {
      MatchedAppend(t, Entry(name, v, FileCreate, IS_FILE, Only(p.ip)), p.jobs);
    }
  }

  lemma DeletedKeepsMatchedIff(p: Peer, name: string, now: nat)
    requires UniqueNames(p.table) && Matched(p.table, p.jobs)
    ensures var q := FileDeleted(p, name, now); Matched(q.table, q.jobs) <==> !Fetching(p.table, name)
  {
    var t, k := p.table, IndexOf(p.table, name);
    if k < |t| {
      var e := t[k].(version := t[k].version.(timestamp := now), ftype := FileDelete);
      if t[k].ftype == FileDownloading {
        BuriedIsUnmatched(t, k, e, p.jobs);
      } else {
        MatchedUpdate(t, k, e, p.jobs);
      }
    }
  }

  lemma HeardKeepsMatchedIff(p: Peer, seek: Entry)
    requires UniqueNames(p.table) && Matched(p.table, p.jobs)
    ensures var q := CompareNode(p, seek); Matched(q.table, q.jobs) <==> !MarksFetched(p, Heard(seek))
  {
    var q, t, k := CompareNode(p, seek), p.table, IndexOf(p.table, seek.name);
    CompareKeepsNames(p, seek);
    if Starts(Find(t, seek.name), seek) {
      CompareAt(p, seek, seek.name);
      forall n | n != seek.name ensures Find(q.table, n) == Find(t, n) {
        CompareAt(p, seek, n);
      }
      MatchedStart(t, q.table, JobFor(seek), p.jobs);
    } else if k < |t| && Buries(t[k], seek) {
      if t[k].ftype == FileDownloading {
        BuriedIsUnmatched(t, k, t[k].(ftype := FileDelete), p.jobs);
      } else {
        MatchedUpdate(t, k, t[k].(ftype := FileDelete), p.jobs);
      }
    }
  }

  lemma CompareKeepsNames(p: Peer, seek: Entry)
    requires UniqueNames(p.table)
    ensures UniqueNames(CompareNode(p, seek).table)
  {
  }

  /** A step keeps downloads and records in correspondence exactly if it does not
      mark deleted a record whose file is being fetched. */
  lemma StepKeepsMatchedIff(p: Peer, s: LocalStep)
    requires UniqueNames(p.table) && Matched(p.table, p.jobs)
    ensures Matched(Local(p, s).table, Local(p, s).jobs) <==> !MarksFetched(p, s)
  {
    match s
    case Added(name, v) => EventKeepsMatched(p, name, v);
    case Modified(name, v) => EventKeepsMatched(p, name, v);
    case Deleted(name, now) => DeletedKeepsMatchedIff(p, name, now);
    case Heard(e) => HeardKeepsMatchedIff(p, e);
    case Finished(k) => if k < |p.jobs| { FinishKeepsMatched(p, k); }
  }

  // ----- whole runs -----

  ghost predicate MatchedAfter(p: Peer, steps: seq<LocalStep>) {
    Matched(LocalRun(p, steps).table, LocalRun(p, steps).jobs)
  }

  /** Downloads and records correspond before, between and after the steps. */
  ghost predicate MatchedThroughout(p: Peer, steps: seq<LocalStep>) {
    forall n :: 0 <= n <= |steps| ==> MatchedAfter(p, steps[..n])
  }

  /** No step of the run marks deleted a record whose file is being fetched. */
  ghost predicate NeverMarks(p: Peer, steps: seq<LocalStep>) {
    forall n :: 0 <= n < |steps| ==> !MarksFetched(LocalRun(p, steps[..n]), steps[n])
  }

  lemma ThroughoutSnoc(p: Peer, pre: seq<LocalStep>, s: LocalStep)
    ensures MatchedThroughout(p, pre + [s]) <==> MatchedThroughout(p, pre) && MatchedAfter(p, pre + [s])
  {
    var steps := pre + [s];
    assert steps[..|steps|] == steps;
    forall n | 0 <= n <= |pre| ensures MatchedAfter(p, steps[..n]) == MatchedAfter(p, pre[..n]) {
      assert steps[..n] == pre[..n];
    }
  }

  lemma NeverMarksSnoc(p: Peer, pre: seq<LocalStep>, s: LocalStep)
    ensures NeverMarks(p, pre + [s]) <==> NeverMarks(p, pre) && !MarksFetched(LocalRun(p, pre), s)
  {
    var steps := pre + [s];
    assert steps[..|pre|] == pre && steps[|pre|] == s;
    forall n | 0 <= n < |pre| ensures steps[..n] == pre[..n] && steps[n] == pre[n] {
    }
    if NeverMarks(p, steps) {
      forall n | 0 <= n < |pre| ensures !MarksFetched(LocalRun(p, pre[..n]), pre[n]) {
        assert !MarksFetched(LocalRun(p, steps[..n]), steps[n]);
      }
    }
  }

  /** All along a run there is one download per record being fetched, with its
      version, exactly if no step of it marks such a record deleted. */
  lemma {:induction false} RunStaysMatchedIff(p: Peer, steps: seq<LocalStep>)
    requires Own(p.table, p.ip) && Matched(p.table, p.jobs)
    ensures Own(LocalRun(p, steps).table, LocalRun(p, steps).ip)
    ensures MatchedThroughout(p, steps) <==> NeverMarks(p, steps)
  {
    if steps == [] {
      assert MatchedAfter(p, steps[..0]);
    } else {
      var pre, s := steps[..|steps| - 1], steps[|steps| - 1];
      assert steps == pre + [s];
      RunStaysMatchedIff(p, pre);
      LocalKeepsOwn(LocalRun(p, pre), s);
      ThroughoutSnoc(p, pre, s);
      NeverMarksSnoc(p, pre, s);
      if MatchedThroughout(p, pre) {
        assert pre[..|pre|] == pre && MatchedAfter(p, pre);
        StepKeepsMatchedIff(LocalRun(p, pre), s);
      }
    }
  }

  /** What a mark leads to.  A file is announced, deleted while it is being
      fetched, and announced again: two downloads of it are then running, and
      when the first one finishes it writes its own, outdated size into the
      record of the other. */
  lemma DeletionDoublesDownload(p: Peer, e: Entry, tombstone: Entry, f: Entry)
    requires !Has(p.table, e.name) && tombstone.name == f.name == e.name
    requires e.version.size > 0 && e.ftype != FileDelete
    requires tombstone.ftype == FileDelete && e.version.timestamp <= tombstone.version.timestamp
    requires f.version.size > 0 && f.ftype != FileDelete && Older(e.version, f.version)
    ensures var q := CompareNode(CompareNode(CompareNode(p, e), tombstone), f);
      && q.jobs == p.jobs + [JobFor(e), JobFor(f)]
      && Has(q.table, e.name) && Get(q.table, e.name).version == f.version
      && Has(FinishJob(q, |p.jobs|).table, e.name)
      && Get(FinishJob(q, |p.jobs|).table, e.name).version == Version(f.version.timestamp, e.version.size)
  {
    var p1 := CompareNode(p, e);
    var p2 := CompareNode(p1, tombstone);
    var q := CompareNode(p2, f);
    CompareAt(p, e, e.name);
    CompareAt(p1, tombstone, e.name);
    CompareAt(p2, f, e.name);
    assert q.jobs == p.jobs + [JobFor(e), JobFor(f)];
    SetNodeTypeAt(q.table, e.name, FileDownload, e.version.size, e.name);
  }
}
