/** Who is named as a source: what the peers that are listed, or asked for a
    file, have of it. */
module Sources {
  import opened Tables
  import opened Providers
  import opened Merge
  import opened Peers
  import opened Jobs
  import opened Protocol
  import opened Invariant

  /** Peer `a` is connected and knows of the file at that version or a later one. */
  ghost predicate Sourced(s: System, a: string, name: string, v: Version) {
    a in s.peers && Covers(s.peers[a].table, name, v)
  }

  ghost predicate TableSourced(s: System, t: Table) {
    forall k, a :: 0 <= k < |t| && a in Listed(t[k].slots) ==> Sourced(s, a, t[k].name, t[k].version)
  }

  ghost predicate JobSourced(s: System, j: Job) {
    forall a :: a in j.providers ==> Sourced(s, a, j.name, j.version)
  }

  ghost predicate PeerSourced(s: System, p: Peer) {
    && (forall d :: 0 <= d < |p.down| ==> TableSourced(s, p.down[d]))
    && (forall j :: 0 <= j < |p.jobs| ==> JobSourced(s, p.jobs[j]))
  }

  /** Whoever is named in a broadcast on the way to any peer, or by a running
      download of any peer, is a source in this sense. */
  ghost predicate AllSourced(s: System) {
    forall ip :: ip in s.peers ==> PeerSourced(s, s.peers[ip])
  }

  // ----- tables only grow -----

  ghost predicate SystemGrows(s: System, r: System) {
    forall ip :: ip in s.peers ==> ip in r.peers && Grows(s.peers[ip].table, r.peers[ip].table)
  }

  lemma SourcedGrows(s: System, r: System, p: Peer)
    requires SystemGrows(s, r) && PeerSourced(s, p)
    ensures PeerSourced(r, p)
  {
    forall d | 0 <= d < |p.down| ensures TableSourced(r, p.down[d]) {
      assert TableSourced(s, p.down[d]);
    }
    forall j | 0 <= j < |p.jobs| ensures JobSourced(r, p.jobs[j]) {
      assert JobSourced(s, p.jobs[j]);
    }
  }

  lemma EventGrows(t: Table, p: Peer, name: string, v: Version, departures: bool)
    requires PeerInv(t, p, departures)
    ensures Grows(p.table, FileAdded(p, name, v).table)
    ensures Admissible(p, name, v) ==> Grows(p.table, FileModified(p, name, v).table)
  {
    var k := IndexOf(p.table, name);
    if k < |p.table| {
      assert Live(p.table[k].ftype);
      UpdateGrows(p.table, k, p.table[k].(ftype := FileModify));
      if Admissible(p, name, v) && !Transient(p.table[k].ftype) {
        UpdateGrows(p.table, k, p.table[k].(version := v, ftype := FileModify));
      }
    } else {
      AppendGrows(p.table, Entry(name, v, FileCreate, IS_FILE, Only(p.ip)));
    }
  }

  lemma LookGrows(t: Table, p: Peer, departures: bool)
    requires PeerInv(t, p, departures) && p.down != []
    ensures Grows(p.table, Looked(p).table)
  {
    TakeKeepsCore(t, p, departures);
    PassKeeps(t, p.(down := p.down[1..]), p.down[0], departures);
  }

  // ----- what each step names -----

  /** The tracker's own table names sources only. */
  lemma TrackerSourced(s: System)
    requires Inv(s)
    ensures TableSourced(s, s.table)
  {
    forall k, a | 0 <= k < |s.table| && a in Listed(s.table[k].slots)
      ensures Sourced(s, a, s.table[k].name, s.table[k].version)
    {
      assert Claims(s.table, a, s.peers[a].table);
    }
  }

  lemma SentSourced(s: System, p: Peer)
    requires Inv(s) && PeerSourced(s, p)
    ensures PeerSourced(s, Send(p, s.table))
  {
    TrackerSourced(s);
  }

  lemma JobForSourced(s: System, d: Table, e: Entry)
    requires TableSourced(s, d) && e in d
    ensures JobSourced(s, JobFor(e))
  {
    var k :| 0 <= k < |d| && d[k] == e;
    forall a | a in JobFor(e).providers ensures Sourced(s, a, e.name, e.version) {
      assert a in Listed(d[k].slots);
    }
  }

  lemma LookedSourced(s: System, p: Peer)
    requires p.down != [] && UniqueNames(p.down[0]) && PeerSourced(s, p)
    ensures PeerSourced(s, Looked(p))
  {
    var q, d := p.(down := p.down[1..]), p.down[0];
    PassFrame(q, d);
    PassStarts(q, d);
    forall j | 0 <= j < |Looked(p).jobs| ensures JobSourced(s, Looked(p).jobs[j]) {
      if j >= |p.jobs| {
        var job := Started(q.table, d)[j - |p.jobs|];
        StartedExactly(q.table, d, job);
        var e :| e in d && Starts(Find(q.table, e.name), e) && job == JobFor(e);
        JobForSourced(s, d, e);
      }
    }
  }

  lemma FinishedSourced(s: System, p: Peer, k: nat)
    requires k < |p.jobs| && PeerSourced(s, p)
    ensures PeerSourced(s, FinishJob(p, k))
  {
    var js := p.jobs[..k] + p.jobs[k + 1..];
    forall j | 0 <= j < |js| ensures JobSourced(s, js[j]) {
      assert js[j] == p.jobs[if j < k then j else j + 1];
    }
  }

  /** One peer replaced by another whose table has grown and who names sources only. */
  lemma OneSourced(s: System, q: Peer)
    requires AllSourced(s) && q.ip in s.peers && PeerSourced(s, q) && Grows(s.peers[q.ip].table, q.table)
    ensures AllSourced(s.(peers := s.peers[q.ip := q]))
  {
    var r := s.(peers := s.peers[q.ip := q]);
    assert SystemGrows(s, r);
    forall i | i in r.peers ensures PeerSourced(r, r.peers[i]) {
      SourcedGrows(s, r, if i == q.ip then q else s.peers[i]);
    }
  }

  lemma RegisterSourced(s: System, ip: string)
    requires Inv(s) && AllSourced(s) && Enabled(s, Register(ip))
    ensures AllSourced(Apply(s, Register(ip)))
  {
    SentSourced(s, s.peers[ip]);
    OneSourced(s, Send(s.peers[ip], s.table));
  }

  /** A step that changes the table of one peer only. */
  lemma TableSourcedOnly(s: System, ip: string, q: Peer)
    requires AllSourced(s) && ip in s.peers && q.ip == ip && Grows(s.peers[ip].table, q.table)
    requires q.down == s.peers[ip].down && q.jobs == s.peers[ip].jobs
    ensures AllSourced(s.(peers := s.peers[ip := q]))
  {
    assert PeerSourced(s, s.peers[ip]);
    OneSourced(s, q);
  }

  lemma EventSourced(s: System, ip: string, name: string, v: Version)
    requires Inv(s) && AllSourced(s) && ip in s.peers
    ensures AllSourced(s.(peers := s.peers[ip := FileAdded(s.peers[ip], name, v)]))
    ensures Admissible(s.peers[ip], name, v) ==>
      AllSourced(s.(peers := s.peers[ip := FileModified(s.peers[ip], name, v)]))
  {
    var p := s.peers[ip];
    EventGrows(s.table, p, name, v, s.departures);
    TableSourcedOnly(s, ip, FileAdded(p, name, v));
    if Admissible(p, name, v) {
      TableSourcedOnly(s, ip, FileModified(p, name, v));
    }
  }

  lemma PassSourced(s: System, ip: string)
    requires Inv(s) && AllSourced(s) && Enabled(s, PassStep(ip))
    ensures AllSourced(Apply(s, PassStep(ip)))
  {
    var p := s.peers[ip];
    assert Offered(s.table, p.ip, p.table, p.down[0], s.departures);
    LookedSourced(s, p);
    LookGrows(s.table, p, s.departures);
    PassFrame(p.(down := p.down[1..]), p.down[0]);
    OneSourced(s, Looked(p));
  }

  lemma FinishSourced(s: System, ip: string, k: nat)
    requires Inv(s) && AllSourced(s) && Enabled(s, FinishStep(ip, k))
    ensures AllSourced(Apply(s, FinishStep(ip, k)))
  {
    FinishKeepsLocal(s.table, s.peers[ip], k);
    FinishedSourced(s, s.peers[ip], k);
    OneSourced(s, FinishJob(s.peers[ip], k));
  }

  lemma MergeSourcedAt(s: System, r: System, ip: string, i: string)
    requires Inv(r) && AllSourced(s) && SystemGrows(s, r) && i in s.peers
    requires ip in s.peers && s.peers[ip].up != []
    ensures var p := s.peers[i]; var taken := if i == ip then p.(up := p.up[1..]) else p;
      PeerSourced(r, taken) && PeerSourced(r, Send(taken, r.table))
  {
    var p := s.peers[i];
    assert PeerSourced(s, p);
    SourcedGrows(s, r, p);
    SentSourced(r, if i == ip then p.(up := p.up[1..]) else p);
  }

  lemma MergeSourced(s: System, ip: string)
    requires Inv(s) && AllSourced(s) && Enabled(s, MergeStep(ip))
    ensures AllSourced(Apply(s, MergeStep(ip)))
  {
    var r := Apply(s, MergeStep(ip));
    StepKeepsInv(s, MergeStep(ip));
    forall i | i in r.peers ensures PeerSourced(r, r.peers[i]) {
      MergeSourcedAt(s, r, ip, i);
    }
  }

  lemma JoinSourced(s: System, ip: string)
    requires Inv(s) && AllSourced(s) && Enabled(s, Join(ip))
    ensures AllSourced(Apply(s, Join(ip)))
  {
    var r := Apply(s, Join(ip));
    StepKeepsInv(s, Join(ip));
    TrackerSourced(r);
    forall i | i in r.peers ensures PeerSourced(r, r.peers[i]) {
      if i != ip { SourcedGrows(s, r, s.peers[i]); }
    }
  }

  lemma StepKeepsSourced(s: System, a: Step)
    requires Inv(s) && AllSourced(s) && Enabled(s, a) && !a.Leave?
    ensures AllSourced(Apply(s, a))
  {
    match a
    case Join(ip) => JoinSourced(s, ip);
    case Register(ip) => RegisterSourced(s, ip);
    case CreateEvent(ip, name, v) => EventSourced(s, ip, name, v);
    case ModifyEvent(ip, name, v) => EventSourced(s, ip, name, v);
    case MergeStep(ip) => MergeSourced(s, ip);
    case PassStep(ip) => PassSourced(s, ip);
    case FinishStep(ip, k) => FinishSourced(s, ip, k);
  }

  lemma NextKeepsSourced(s: System, r: System)
    requires Inv(s) && Next(s, r) && !r.departures
    ensures !s.departures && (AllSourced(s) ==> AllSourced(r))
  {
    var a :| Enabled(s, a) && r == Apply(s, a);
    if AllSourced(s) {
      StepKeepsSourced(s, a);
    }
  }

  lemma {:induction false} RunsKeepSourced(run: seq<System>)
    requires IsRun(run) && !run[|run| - 1].departures
    ensures AllSourced(run[|run| - 1])
  {
    if |run| > 1 {
      RunSplits(run);
      RunsKeepInv(run[..|run| - 1]);
      NextKeepsSourced(run[|run| - 2], run[|run| - 1]);
      RunsKeepSourced(run[..|run| - 1]);
    }
  }

  /** While no peer has been removed, everyone listed by the tracker, by a
      broadcast on the way to any peer, or named by a running download of any
      peer, is connected and has a record of the file at that version or a later
      one. */
  lemma SourcesKnowTheFile(s: System)
    requires Reachable(s) && !s.departures
    ensures TableSourced(s, s.table) && AllSourced(s)
  {
    ReachableKeepsInv(s);
    TrackerSourced(s);
    var run :| IsRun(run) && run[|run| - 1] == s;
    RunsKeepSourced(run);
  }

  // ----- being a source does not mean having the file -----

  /** The merge has put `ip` on the list of the file's providers. */
  predicate NewlyListed(t: Table, u: Table, name: string, ip: string) {
    && Has(u, name) && ip in Listed(Get(u, name).slots)
    && !(Has(t, name) && ip in Listed(Get(t, name).slots))
  }

  /** A record that is not behind the reported one gains the reporter exactly if
      the versions agree, it is not listed, and a slot is free. */
  lemma RefreshListsIff(r: Entry, e: Entry, ip: string)
    requires Packed(r.slots) && Distinct(r.slots) && e.slots[0] == ip != "" && AtMost(e.version, r.version)
    ensures ip in Listed(Refresh(r, e).slots) && ip !in Listed(r.slots) <==>
      r.version == e.version && ip !in Listed(r.slots) && Used(r.slots) < MAX_PEER_NUM
  {
    AddIsGood(r.slots, ip);
  }

  lemma ReportListsIff(t: Table, b: Table, ip: string, name: string)
    requires GoodSlots(t) && Own(b, ip) && ip != "" && Has(b, name) && Covers(t, name, Get(b, name).version)
    ensures NewlyListed(t, MergeBatch(t, b), name, ip) <==>
      && Get(t, name).version == Get(b, name).version
      && ip !in Listed(Get(t, name).slots) && Used(Get(t, name).slots) < MAX_PEER_NUM
  {
    MergeAt(t, b, name);
    RefreshListsIff(Get(t, name), Get(b, name), ip);
  }

  /** A report carries the whole table, and the tracker does not look at types:
      it lists the sender for a file that is reported as not settled yet exactly
      if that record has the version on offer, the sender is not listed, and a
      slot is free. */
  lemma ListedWhileFetchingIff(s: System, ip: string, name: string)
    requires Reachable(s) && Enabled(s, MergeStep(ip)) && Has(s.peers[ip].up[0], name)
    requires Transient(Get(s.peers[ip].up[0], name).ftype)
    ensures var t, e := s.table, Get(s.peers[ip].up[0], name);
      && Has(t, name)
      && (NewlyListed(t, Apply(s, MergeStep(ip)).table, name, ip) <==>
            && Get(t, name).version == e.version
            && ip !in Listed(Get(t, name).slots) && Used(Get(t, name).slots) < MAX_PEER_NUM)
  {
    var b := s.peers[ip].up[0];
    ReachableKeepsInv(s);
    assert Own(b, ip) && LiveTable(s.table, b);
    assert b[IndexOf(b, name)] == Get(b, name);
    ReportListsIff(s.table, b, ip, name);
  }

  lemma ReachableInit()
    ensures Reachable(Init())
  {
    assert IsRun([Init()]);
  }

  lemma ReachableStep(s: System, a: Step)
    requires Reachable(s) && Enabled(s, a)
    ensures Reachable(Apply(s, a))
  {
    var run :| IsRun(run) && run[|run| - 1] == s;
    var more := run + [Apply(s, a)];
    assert Next(s, more[|run|]);
    assert IsRun(more);
  }

  lemma AfterStep(s: System, a: Step) returns (r: System)
    requires Reachable(s) && Enabled(s, a)
    ensures Reachable(r) && r == Apply(s, a)
  {
    ReachableStep(s, a);
    r := Apply(s, a);
  }

  /** A peer creates a file and reports it. */
  lemma AfterCreation(s: System, ip: string, name: string, v: Version) returns (r: System)
    requires Reachable(s) && ip in s.peers && ip in s.members
    requires s.peers[ip].up == [] && !Has(s.peers[ip].table, name) && s.peers[ip].ip == ip
    ensures Reachable(r) && r.members == s.members && r.departures == s.departures && r.peers.Keys == s.peers.Keys
    ensures var now := s.peers[ip].table + [Entry(name, v, FileCreate, IS_FILE, Only(ip))];
      && r.table == MergeBatch(s.table, now)
      && (forall i :: i in s.peers && i in s.members ==>
            r.peers[i] == Send(if i == ip then s.peers[ip].(table := now) else s.peers[i], r.table))
  {
    var p := s.peers[ip];
    var q := p.(table := p.table + [Entry(name, v, FileCreate, IS_FILE, Only(ip))]);
    var c := AfterStep(s, CreateEvent(ip, name, v));
    assert p.up + [q.table] == [q.table];
    assert FileAdded(p, name, v) == q.(up := [q.table]);
    r := AfterMerge(c, ip, q);
  }

  /** The tracker merges a peer's only report. */
  lemma AfterMerge(s: System, ip: string, q: Peer) returns (r: System)
    requires Reachable(s) && ip in s.peers && q.up == [] && s.peers[ip] == q.(up := [q.table])
    ensures Reachable(r) && r.members == s.members && r.departures == s.departures && r.peers.Keys == s.peers.Keys
    ensures r.table == MergeBatch(s.table, q.table)
    ensures forall i :: i in s.peers && i in s.members ==>
      r.peers[i] == Send(if i == ip then q else s.peers[i], r.table)
  {
    r := AfterStep(s, MergeStep(ip));
    assert s.peers[ip].(up := s.peers[ip].up[1..]) == q;
  }

  lemma AfterPass(s: System, ip: string) returns (r: System)
    requires Reachable(s) && ip in s.peers && s.peers[ip].down != []
    ensures Reachable(r) && r == s.(peers := r.peers) && r.peers == s.peers[ip := Looked(s.peers[ip])]
  {
    r := AfterStep(s, PassStep(ip));
  }

  /** A peer that knows nothing yet works through an empty broadcast and one with
      a single file. */
  lemma FetchesOne(ip: string, e: Entry)
    requires e.version.size > 0
    ensures var p := Peer(ip, [], [], [], [[], [e]]);
      && Looked(p) == p.(down := [[e]])
      && Looked(Looked(p)) == Peer(ip, [Adopted(ip, e)], [JobFor(e)], [], [])
  {
    var p, q := Peer(ip, [], [], [], [[], [e]]), Peer(ip, [], [], [], [[e]]);
    assert p.down[1..] == [[e]] && q.down[1..] == [];
    assert [e][..0] == [] && Pass(q.(down := []), []) == q.(down := []);
    assert [] + [Adopted(ip, e)] == [Adopted(ip, e)] && [] + [JobFor(e)] == [JobFor(e)];
  }

  /** The file as its creator reports it, and as a second peer has it that is fetching it. */
  lemma TwoReportsMerge(e: Entry, fetching: Entry, other: Entry)
    requires fetching.name == e.name && fetching.version == e.version && other.name != e.name
    ensures MergeBatch([], [e]) == [Fresh(e)]
    ensures MergeBatch([e], [fetching, other]) == [e.(slots := Add(e.slots, fetching.slots[0])), Fresh(other)]
  {
    assert [e][..0] == [] && MergeBatch([], []) == [];
    var b := [fetching, other];
    assert b[..1] == [fetching] && [fetching][..0] == [];
    assert MergeBatch([e], []) == [e];
    assert MergeBatch([e], [fetching]) == [Refresh(e, fetching)];
  }

  lemma TwoPeers(a: string, b: string) returns (s: System)
    requires a != "" && b != "" && a != b
    ensures Reachable(s) && s.members == [a, b] && s.peers.Keys == {a, b} && s.table == [] && !s.departures
    ensures s.peers[a] == Peer(a, [], [], [], [[]]) && s.peers[b] == Peer(b, [], [], [], [[]])
  {
    ReachableInit();
    s := AfterStep(Init(), Join(a));
    s := AfterStep(s, Join(b));
  }

  lemma BothListed(a: string, b: string)
    requires a != "" && b != "" && a != b
    ensures Add(Only(a), b) == [a, b, "", "", ""] && Listed(Add(Only(a), b)) == [a, b]
  {
    UsedIs(Only(a), 1);
    UsedIs(Add(Only(a), b), 2);
  }

  /** Peer `a` has reported a file, and `b` is fetching it. */
  lemma OneFetches(a: string, b: string, e: Entry) returns (s: System)
    requires a != "" && b != "" && a != b
    requires e.version.size > 0 && e == Entry(e.name, e.version, FileCreate, IS_FILE, Only(a))
    ensures Reachable(s) && s.members == [a, b] && s.peers.Keys == {a, b} && s.table == [e] && !s.departures
    ensures s.peers[a].table == [e] && s.peers[b] == Peer(b, [Adopted(b, e)], [JobFor(e)], [], [])
  {
    s := TwoPeers(a, b);
    s := AfterCreation(s, a, e.name, e.version);
    assert [] + [e] == [e];
    TwoReportsMerge(e, e, e.(name := e.name + " "));
    assert s.peers[b] == Peer(b, [], [], [], [[], [e]]);
    FetchesOne(b, e);
    s := AfterPass(s, b);
    s := AfterPass(s, b);
  }

  /** Peer `a` has reported a file; `b`, which is fetching it, creates another
      one, and its report says both. */
  lemma FetcherIsListed(a: string, b: string, e: Entry, g: string) returns (s: System)
    requires a != "" && b != "" && a != b && g != e.name
    requires e.version.size > 0 && e == Entry(e.name, e.version, FileCreate, IS_FILE, Only(a))
    ensures Reachable(s) && s.members == [a, b] && s.peers.Keys == {a, b} && !s.departures
    ensures var other := Entry(g, Version(0, 0), FileCreate, IS_FILE, Only(b));
      && s.table == [e.(slots := [a, b, "", "", ""]), other]
      && s.peers[a].table == [e] && s.peers[b].table == [Adopted(b, e), other]
  {
    var other := Entry(g, Version(0, 0), FileCreate, IS_FILE, Only(b));
    s := OneFetches(a, b, e);
    s := AfterCreation(s, b, g, Version(0, 0));
    assert [Adopted(b, e)] + [other] == [Adopted(b, e), other];
    TwoReportsMerge(e, Adopted(b, e), other);
    BothListed(a, b);
  }

  /** A third peer then starts a download that names both as sources, although one
      of them is only fetching the file: of any three peers, for any file. */
  lemma SourceMayBeFetching(a: string, b: string, c: string, f: string, v: Version) returns (s: System)
    requires a != "" && b != "" && c != "" && a != b && b != c && a != c && v.size > 0
    ensures Reachable(s) && !s.departures && s.peers.Keys == {a, b, c}
    ensures s.peers[c].jobs == [Job(f, v, [a, b])]
    ensures Fetching(s.peers[b].table, f) && Get(s.peers[b].table, f).version == v
    ensures s.peers[a].table == [Entry(f, v, FileCreate, IS_FILE, Only(a))]
  {
    var e := Entry(f, v, FileCreate, IS_FILE, Only(a));
    var listed, other := e.(slots := [a, b, "", "", ""]), Entry(f + " ", Version(0, 0), FileCreate, IS_FILE, Only(b));
    assert |other.name| != |f|;
    BothListed(a, b);
    s := FetcherIsListed(a, b, e, f + " ");
    s := AfterStep(s, Join(c));
    assert s.peers[c] == Peer(c, [], [], [], [[listed, other]]);
    FetchesBoth(c, listed, other);
    s := AfterPass(s, c);
  }

  lemma FetchesBoth(ip: string, e: Entry, empty: Entry)
    requires e.version.size > 0 && empty.version.size == 0 && empty.name != e.name
    ensures Looked(Peer(ip, [], [], [], [[e, empty]])) == Peer(ip, [Adopted(ip, e)], [JobFor(e)], [], [])
  {
    var p, d := Peer(ip, [], [], [], []), [e, empty];
    assert Peer(ip, [], [], [], [d]).down[1..] == [];
    assert d[..1] == [e] && [e][..0] == [] && Pass(p, []) == p;
    assert [] + [Adopted(ip, e)] == [Adopted(ip, e)] && [] + [JobFor(e)] == [JobFor(e)];
    assert Pass(p, [e]) == Peer(ip, [Adopted(ip, e)], [JobFor(e)], [], []);
  }
}
