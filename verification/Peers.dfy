/** One peer: its file table, its running downloads and its channels, and what
    the monitor's events, the tracker's broadcasts and finished downloads do to
    them (peer/peer.c, peer/monitor.c). */
module Peers {
  import opened Tables
  import opened Providers

  const IS_FILE := 1

  /** A running download thread's argument. */
  datatype Job = Job(name: string, version: Version, providers: seq<string>)

  /** `up` holds the tables reported and not yet merged by the tracker, `down`
      the tables broadcast and not yet looked at; both oldest first. */
  datatype Peer = Peer(ip: string, table: Table, jobs: seq<Job>, up: seq<Table>, down: seq<Table>)

  function Report(p: Peer): Peer {
    p.(up := p.up + [p.table])
  }

  // ----- broadcasts -----

  /** A known record is fetched anew. */
  predicate Wants(cur: Entry, seek: Entry) {
    && cur.version.timestamp <= seek.version.timestamp
    && seek.version.size > 0
    && cur.ftype != FileDownloading
    && seek.ftype != FileDelete
    && Older(cur.version, seek.version)
  }

  /** A known record is marked deleted. */
  predicate Buries(cur: Entry, seek: Entry) {
    && cur.version.timestamp <= seek.version.timestamp
    && seek.ftype == FileDelete
    && cur.ftype != FileDelete
  }

  function JobFor(seek: Entry): Job {
    Job(seek.name, seek.version, Listed(seek.slots))
  }

  function Adopted(ip: string, seek: Entry): Entry {
    Entry(seek.name, seek.version, FileDownloading, 0, Only(ip))
  }

  function CompareNode(p: Peer, seek: Entry): Peer {
    var k := IndexOf(p.table, seek.name);
    if k < |p.table| then
      var cur := p.table[k];
      if Wants(cur, seek) then
        p.(table := p.table[k := cur.(version := seek.version, ftype := FileDownloading)],
           jobs := p.jobs + [JobFor(seek)])
      else if Buries(cur, seek) then
        p.(table := p.table[k := cur.(ftype := FileDelete)])
      else p
    else if seek.version.size > 0 then
      p.(table := p.table + [Adopted(p.ip, seek)], jobs := p.jobs + [JobFor(seek)])
    else p
  }

  function Pass(p: Peer, t: Table): Peer {
    if t == [] then p else CompareNode(Pass(p, t[..|t| - 1]), t[|t| - 1])
  }

  // ----- finished downloads -----

  function SetNodeType(t: Table, name: string, ftype: FileType, size: nat): Table {
    var k := IndexOf(t, name);
    if k < |t| then t[k := t[k].(ftype := ftype, version := t[k].version.(size := size))] else t
  }

  function FinishJob(p: Peer, k: nat): Peer
    requires k < |p.jobs|
  {
    p.(table := SetNodeType(p.table, p.jobs[k].name, FileDownload, p.jobs[k].version.size),
       jobs := p.jobs[..k] + p.jobs[k + 1..])
  }

  // ----- monitor events; `v` is what stat says about the file -----

  function FileAdded(p: Peer, name: string, v: Version): Peer {
    var k := IndexOf(p.table, name);
    if k < |p.table| then
      var cur := p.table[k];
      if cur.ftype == FileDelete then
        Report(p.(table := p.table[k := cur.(ftype := FileCreate, version := v)]))
      else if cur.ftype == FileDownload then
        Report(p.(table := p.table[k := cur.(ftype := FileModify)]))
      else p
    else
      Report(p.(table := p.table + [Entry(name, v, FileCreate, IS_FILE, Only(p.ip))]))
  }

  function FileModified(p: Peer, name: string, v: Version): Peer {
    var k := IndexOf(p.table, name);
    if k < |p.table| then
      var cur := p.table[k];
      if cur.ftype == FileDownloading then p
      else if cur.ftype == FileDownload then
        Report(p.(table := p.table[k := cur.(ftype := FileModify)]))
      else
        Report(p.(table := p.table[k := cur.(version := v, ftype := FileModify)]))
    else p
  }

  function FileDeleted(p: Peer, name: string, now: nat): Peer {
    var k := IndexOf(p.table, name);
    if k < |p.table| then
      var cur := p.table[k];
      Report(p.(table := p.table[k := cur.(version := cur.version.(timestamp := now), ftype := FileDelete)]))
    else p
  }

  // ----- one record at a time -----

  /** What a peer's record becomes when a tracker's record of its name is compared with it. */
  function Judge(ip: string, cur: Option<Entry>, seek: Entry): Option<Entry> {
    match cur
    case None => if seek.version.size > 0 then Some(Adopted(ip, seek)) else None
    case Some(c) =>
      if Wants(c, seek) then Some(c.(version := seek.version, ftype := FileDownloading))
      else if Buries(c, seek) then Some(c.(ftype := FileDelete))
      else Some(c)
  }

  predicate Starts(cur: Option<Entry>, seek: Entry) {
    match cur
    case None => seek.version.size > 0
    case Some(c) => Wants(c, seek)
  }

  lemma CompareAt(p: Peer, seek: Entry, name: string)
    ensures var q := CompareNode(p, seek);
      && NamesPrefix(p.table, q.table)
      && q.jobs == p.jobs + (if Starts(Find(p.table, seek.name), seek) then [JobFor(seek)] else [])
      && q.ip == p.ip && q.up == p.up && q.down == p.down
      && Find(q.table, name) ==
           if name == seek.name then Judge(p.ip, Find(p.table, name), seek) else Find(p.table, name)
  {
    var k := IndexOf(p.table, seek.name);
    if k < |p.table| {
      var cur := p.table[k];
      FindUpdate(p.table, k, cur.(version := seek.version, ftype := FileDownloading), name);
      FindUpdate(p.table, k, cur.(ftype := FileDelete), name);
    } else {
      FindAppend(p.table, Adopted(p.ip, seek), name);
    }
  }

  /** A download's sources are all the addresses of a packed provider array, in
      their order, which decides who serves which piece. */
  lemma JobNamesAllSources(seek: Entry, a: string)
    requires Packed(seek.slots) && a != ""
    ensures a in JobFor(seek).providers <==> a in seek.slots
    ensures forall i :: 0 <= i < MAX_PEER_NUM ==>
      seek.slots[i] == if i < |JobFor(seek).providers| then JobFor(seek).providers[i] else ""
  {
    if a in seek.slots {
      var i :| 0 <= i < MAX_PEER_NUM && seek.slots[i] == a;
      assert Listed(seek.slots)[i] == a;
    }
  }

  /** A whole pass treats every name by itself. */
  lemma {:induction false} PassAt(p: Peer, t: Table, name: string)
    requires UniqueNames(t)
    ensures Find(Pass(p, t).table, name) ==
      match Find(t, name) case None => Find(p.table, name) case Some(e) => Judge(p.ip, Find(p.table, name), e)
  {
    if t != [] {
      var c, e := t[..|t| - 1], t[|t| - 1];
      assert t == c + [e];
      PassAt(p, c, name);
      PassFrame(p, c);
      CompareAt(Pass(p, c), e, name);
      FindSnoc(c, e, name);
      LastIsNew(t);
    }
  }

  lemma {:induction false} PassFrame(p: Peer, t: Table)
    ensures var q := Pass(p, t); q.ip == p.ip && q.up == p.up && q.down == p.down && NamesPrefix(p.table, q.table)
  {
    if t != [] {
      PassFrame(p, t[..|t| - 1]);
      CompareAt(Pass(p, t[..|t| - 1]), t[|t| - 1], "");
    }
  }

  /** The downloads a pass starts, from the table as it was before the pass. */
  function Started(own: Table, t: Table): seq<Job> {
    if t == [] then []
    else
      var e := t[|t| - 1];
      Started(own, t[..|t| - 1]) + if Starts(Find(own, e.name), e) then [JobFor(e)] else []
  }

  /** Although the table changes during the pass, what it starts is decided by
      the table it began with. */
  lemma {:induction false} PassStarts(p: Peer, t: Table)
    requires UniqueNames(t)
    ensures Pass(p, t).jobs == p.jobs + Started(p.table, t)
  {
    if t != [] {
      var c, e := t[..|t| - 1], t[|t| - 1];
      PassStarts(p, c);
      PassAt(p, c, e.name);
      CompareAt(Pass(p, c), e, e.name);
      LastIsNew(t);
    }
  }

  /** A download is started exactly for the records that call for one. */
  lemma {:induction false} StartedExactly(own: Table, t: Table, j: Job)
    ensures j in Started(own, t) <==> exists e :: e in t && Starts(Find(own, e.name), e) && j == JobFor(e)
  {
    if t != [] {
      var c, e := t[..|t| - 1], t[|t| - 1];
      assert t == c + [e];
      StartedExactly(own, c, j);
      assert e in t;
    }
  }

  /** At most one download per name. */
  lemma {:induction false} StartedOncePerName(own: Table, t: Table)
    requires UniqueNames(t)
    ensures forall i, j :: 0 <= i < j < |Started(own, t)| ==> Started(own, t)[i].name != Started(own, t)[j].name
  {
    if t != [] {
      var c, e := t[..|t| - 1], t[|t| - 1];
      StartedOncePerName(own, c);
      forall i | 0 <= i < |Started(own, c)| ensures Started(own, c)[i].name != e.name {
        StartedExactly(own, c, Started(own, c)[i]);
      }
    }
  }

  /** A pass never lowers a version, and leaves every record that is neither
      deleted at the tracker nor being downloaded nor empty at the newer of the
      two versions. */
  lemma PassRaises(p: Peer, t: Table, e: Entry)
    requires UniqueNames(t) && e in t
    ensures var own, after := Find(p.table, e.name), Find(Pass(p, t).table, e.name);
      && (own.Some? ==> after.Some? && AtMost(own.value.version, after.value.version))
      && (own.Some? && own.value.ftype != FileDownloading && e.ftype != FileDelete && e.version.size > 0 ==>
            after.value.version == if Older(own.value.version, e.version) then e.version else own.value.version)
      && (own.None? && e.version.size > 0 ==> after.Some? && after.value.version == e.version)
  {
    var k :| 0 <= k < |t| && t[k] == e;
    GetUnique(t, k);
    PassAt(p, t, e.name);
  }

  // ----- repeating a pass -----

  function FinishAll(t: Table, js: seq<Job>): Table {
    if js == [] then t
    else SetNodeType(FinishAll(t, js[..|js| - 1]), js[|js| - 1].name, FileDownload, js[|js| - 1].version.size)
  }

  lemma SetNodeTypeAt(t: Table, n: string, ftype: FileType, size: nat, name: string)
    ensures NamesPrefix(t, SetNodeType(t, n, ftype, size))
    ensures Find(SetNodeType(t, n, ftype, size), name) ==
      if name == n && Has(t, name) then
        Some(Get(t, name).(ftype := ftype, version := Get(t, name).version.(size := size)))
      else Find(t, name)
  {
  }

  lemma {:induction false} FinishAllAt(t: Table, js: seq<Job>, name: string)
    requires forall j :: j in js ==> Has(t, j.name) && Get(t, j.name).version == j.version
    ensures var u := FinishAll(t, js);
      && (Has(u, name) <==> Has(t, name))
      && (Has(t, name) ==> Get(u, name).version == Get(t, name).version)
      && (Has(t, name) ==> Get(u, name) == Get(t, name) || exists j :: j in js && j.name == name)
  {
    if js != [] {
      var ks, j := js[..|js| - 1], js[|js| - 1];
      assert js == ks + [j];
      FinishAllAt(t, ks, name);
      FinishAllAt(t, ks, j.name);
      SetNodeTypeAt(FinishAll(t, ks), j.name, FileDownload, j.version.size, name);
      assert j in js;
    }
  }

  lemma StartedAreHeld(p: Peer, t: Table, j: Job)
    requires UniqueNames(t) && j in Started(p.table, t)
    ensures Has(Pass(p, t).table, j.name) && Get(Pass(p, t).table, j.name).version == j.version
    ensures Has(t, j.name) && Starts(Find(p.table, j.name), Get(t, j.name))
  {
    StartedExactly(p.table, t, j);
    var e :| e in t && Starts(Find(p.table, e.name), e) && j == JobFor(e);
    var k :| 0 <= k < |t| && t[k] == e;
    GetUnique(t, k);
    PassAt(p, t, j.name);
  }

  /** A second pass over the same table starts nothing, whichever of the
      downloads of the first have finished by then. */
  lemma RepeatStartsNothing(p: Peer, t: Table, done: seq<Job>)
    requires UniqueNames(t)
    requires forall j :: j in done ==> j in Started(p.table, t)
    ensures Started(FinishAll(Pass(p, t).table, done), t) == []
  {
    var q := Pass(p, t).table;
    var u := FinishAll(q, done);
    forall j | j in done ensures Has(q, j.name) && Get(q, j.name).version == j.version {
      StartedAreHeld(p, t, j);
    }
    forall e | e in t ensures !Starts(Find(u, e.name), e) {
      var k :| 0 <= k < |t| && t[k] == e;
      GetUnique(t, k);
      PassAt(p, t, e.name);
      FinishAllAt(q, done, e.name);
      if j :| j in done && j.name == e.name {
        StartedAreHeld(p, t, j);
      }
    }
    NothingStarts(u, t);
  }

  lemma {:induction false} NothingStarts(own: Table, t: Table)
    requires forall e :: e in t ==> !Starts(Find(own, e.name), e)
    ensures Started(own, t) == []
  {
    if t != [] {
      NothingStarts(own, t[..|t| - 1]);
    }
  }

  // ----- well-formedness, deletions included -----

  /** Names are unique and every record carries the peer's own address first. */
  ghost predicate Own(t: Table, ip: string) {
    UniqueNames(t) && forall k :: 0 <= k < |t| ==> t[k].slots[0] == ip
  }

  lemma OwnUpdate(t: Table, ip: string, k: nat, e: Entry)
    requires Own(t, ip) && k < |t| && e.name == t[k].name && e.slots == t[k].slots
    ensures Own(t[k := e], ip) && NamesPrefix(t, t[k := e])
  {
  }

  lemma OwnAppend(t: Table, ip: string, e: Entry)
    requires Own(t, ip) && !Has(t, e.name) && e.slots[0] == ip
    ensures Own(t + [e], ip) && NamesPrefix(t, t + [e])
  {
  }

  datatype LocalStep =
    | Added(name: string, version: Version)
    | Modified(name: string, version: Version)
    | Deleted(name: string, now: nat)
    | Heard(record: Entry)
    | Finished(job: nat)

  function Local(p: Peer, s: LocalStep): Peer {
    match s
    case Added(name, v) => FileAdded(p, name, v)
    case Modified(name, v) => FileModified(p, name, v)
    case Deleted(name, now) => FileDeleted(p, name, now)
    case Heard(e) => CompareNode(p, e)
    case Finished(k) => if k < |p.jobs| then FinishJob(p, k) else p
  }

  function LocalRun(p: Peer, steps: seq<LocalStep>): Peer {
    if steps == [] then p else Local(LocalRun(p, steps[..|steps| - 1]), steps[|steps| - 1])
  }

  /** The table keeps its records in place, and what is reported is the whole of it. */
  ghost predicate KeepsOwn(p: Peer, q: Peer) {
    && Own(q.table, p.ip) && q.ip == p.ip && NamesPrefix(p.table, q.table)
    && (q.up == p.up || q.up == p.up + [q.table])
  }

  lemma EventKeepsOwn(p: Peer, name: string, v: Version)
    requires Own(p.table, p.ip)
    ensures KeepsOwn(p, FileAdded(p, name, v))
    ensures KeepsOwn(p, FileModified(p, name, v))
    ensures KeepsOwn(p, FileDeleted(p, name, v.timestamp))
  {
    var t, k := p.table, IndexOf(p.table, name);
    if k < |t| {
      OwnUpdate(t, p.ip, k, t[k].(ftype := FileCreate, version := v));
      OwnUpdate(t, p.ip, k, t[k].(ftype := FileModify));
      OwnUpdate(t, p.ip, k, t[k].(version := v, ftype := FileModify));
      OwnUpdate(t, p.ip, k, t[k].(version := t[k].version.(timestamp := v.timestamp), ftype := FileDelete));
    } else {
      OwnAppend(t, p.ip, Entry(name, v, FileCreate, IS_FILE, Only(p.ip)));
    }
  }

  lemma LocalKeepsOwn(p: Peer, s: LocalStep)
    requires Own(p.table, p.ip)
    ensures KeepsOwn(p, Local(p, s))
  {
    match s
    case Added(name, v) => EventKeepsOwn(p, name, v);
    case Modified(name, v) => EventKeepsOwn(p, name, v);
    case Deleted(name, now) => EventKeepsOwn(p, name, Version(now, 0));
    case Heard(e) => CompareKeepsOwn(p, e);
    case Finished(j) =>
      if j < |p.jobs| { SetNodeTypeKeepsOwn(p.table, p.ip, p.jobs[j].name, FileDownload, p.jobs[j].version.size); }
  }

  lemma CompareKeepsOwn(p: Peer, e: Entry)
    requires Own(p.table, p.ip)
    ensures Own(CompareNode(p, e).table, p.ip) && NamesPrefix(p.table, CompareNode(p, e).table)
  {
    var t, k := p.table, IndexOf(p.table, e.name);
    if k < |t| {
      OwnUpdate(t, p.ip, k, t[k].(version := e.version, ftype := FileDownloading));
      OwnUpdate(t, p.ip, k, t[k].(ftype := FileDelete));
    } else {
      OwnAppend(t, p.ip, Adopted(p.ip, e));
    }
  }

  lemma SetNodeTypeKeepsOwn(t: Table, ip: string, name: string, ftype: FileType, size: nat)
    requires Own(t, ip)
    ensures Own(SetNodeType(t, name, ftype, size), ip) && NamesPrefix(t, SetNodeType(t, name, ftype, size))
  {
  }

  /** Under every interleaving of events, names stay unique, no record is ever
      dropped or moved, and all of them, also as reported, name the peer itself
      as their first provider. */
  lemma {:induction false} TableStaysWellFormed(p: Peer, steps: seq<LocalStep>)
    requires Own(p.table, p.ip) && p.up == []
    ensures var q := LocalRun(p, steps);
      && Own(q.table, p.ip) && q.ip == p.ip && NamesPrefix(p.table, q.table)
      && forall i :: 0 <= i < |q.up| ==> Own(q.up[i], p.ip)
  {
    if steps != [] {
      TableStaysWellFormed(p, steps[..|steps| - 1]);
      LocalKeepsOwn(LocalRun(p, steps[..|steps| - 1]), steps[|steps| - 1]);
    }
  }
}
