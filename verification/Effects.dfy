/** What one compared record, one monitor event and one finished download do to
    a peer, seen from the outside: when something changes, what it becomes, and
    that nothing else does (peer/peer.c, peer/monitor.c). */
module Effects {
  import opened Tables
  import opened Providers
  import opened Merge
  import opened Peers

  /** The peers differ in the record of `name` at most, and in what `q` says of it. */
  ghost predicate OnlyRecord(p: Peer, q: Peer, name: string) {
    && NamesPrefix(p.table, q.table) && q.ip == p.ip && q.down == p.down
    && forall n :: n != name ==> Find(q.table, n) == Find(p.table, n)
  }

  // ----- comparing a record with a broadcast -----

  /** A record that the tracker has at a later timestamp, or at the same one with
      a greater size, that is not empty, not deleted, and not being fetched here. */
  predicate News(own: Entry, seek: Entry) {
    && seek.version.size > 0 && seek.ftype != FileDelete && own.ftype != FileDownloading
    && (seek.version.timestamp > own.version.timestamp
        || (seek.version.timestamp == own.version.timestamp && seek.version.size > own.version.size))
  }

  lemma CompareTouchesOne(p: Peer, seek: Entry)
    ensures OnlyRecord(p, CompareNode(p, seek), seek.name) && CompareNode(p, seek).up == p.up
  {
    CompareAt(p, seek, seek.name);
    forall n | n != seek.name ensures Find(CompareNode(p, seek).table, n) == Find(p.table, n) {
      CompareAt(p, seek, n);
    }
  }

  /** A tombstone marks a known record deleted exactly if the record's timestamp
      is not later than the tombstone's; its version, providers and status stay,
      and no download starts.  A record with a later timestamp keeps everything. */
  lemma TombstoneMarksIff(p: Peer, seek: Entry)
    requires Has(p.table, seek.name) && seek.ftype == FileDelete
    ensures var own, q := Get(p.table, seek.name), CompareNode(p, seek);
      && q.jobs == p.jobs
      && Has(q.table, seek.name) && Get(q.table, seek.name) == own.(ftype := Get(q.table, seek.name).ftype)
      && (own.ftype != FileDelete ==>
            (Get(q.table, seek.name).ftype == FileDelete <==> own.version.timestamp <= seek.version.timestamp))
      && (own.ftype == FileDelete || own.version.timestamp > seek.version.timestamp ==> q == p)
  {
    CompareAt(p, seek, seek.name);
  }

  /** A record that is no tombstone leaves everything as it is unless it is news;
      if it is, the known record takes its version, and no more, and the download
      is started. */
  lemma NewsIsFetched(p: Peer, seek: Entry)
    requires Has(p.table, seek.name) && seek.ftype != FileDelete
    ensures var own, q := Get(p.table, seek.name), CompareNode(p, seek);
      && (q != p <==> News(own, seek)) && (q.jobs != p.jobs <==> News(own, seek))
      && (News(own, seek) ==>
            && q.jobs == p.jobs + [Job(seek.name, seek.version, Listed(seek.slots))]
            && Find(q.table, seek.name) == Some(own.(version := seek.version, ftype := FileDownloading)))
  {
    CompareAt(p, seek, seek.name);
  }

  /** An unknown name is taken up exactly if the record is not empty, whatever its
      type: as a file of its version being fetched, with the own address. */
  lemma UnknownIsFetchedIff(p: Peer, seek: Entry)
    requires !Has(p.table, seek.name)
    ensures var q := CompareNode(p, seek);
      && (q != p <==> seek.version.size > 0) && (Has(q.table, seek.name) <==> seek.version.size > 0)
      && (seek.version.size > 0 ==>
            && q.jobs == p.jobs + [Job(seek.name, seek.version, Listed(seek.slots))]
            && q.table == p.table + [Entry(seek.name, seek.version, FileDownloading, 0, [p.ip, "", "", "", ""])])
  {
    CompareAt(p, seek, seek.name);
    assert Only(p.ip) == [p.ip, "", "", "", ""];
  }

  // ----- a whole pass -----

  /** Through a whole pass a record with a later timestamp than the broadcast's
      keeps everything, and so does one that the broadcast does not have. */
  lemma PassKeepsLater(p: Peer, t: Table, name: string)
    requires UniqueNames(t) && Has(p.table, name)
    requires Has(t, name) ==> Get(t, name).version.timestamp < Get(p.table, name).version.timestamp
    ensures Find(Pass(p, t).table, name) == Find(p.table, name)
  {
    PassAt(p, t, name);
  }

  /** A pass marks a known record deleted exactly if the broadcast has a tombstone
      of it that is not earlier. */
  lemma PassMarksIff(p: Peer, t: Table, name: string)
    requires UniqueNames(t) && Has(p.table, name) && Get(p.table, name).ftype != FileDelete
    ensures Has(Pass(p, t).table, name)
    ensures Get(Pass(p, t).table, name).ftype == FileDelete <==>
      && Has(t, name) && Get(t, name).ftype == FileDelete
      && Get(p.table, name).version.timestamp <= Get(t, name).version.timestamp
  {
    PassAt(p, t, name);
  }

  /** A pass gives a known record the broadcast's version, and marks it as being
      fetched, if the broadcast has news of it; otherwise its version stays, and
      so does its type but for a deletion.  Nothing else of it changes. */
  lemma PassRenewsIff(p: Peer, t: Table, name: string)
    requires UniqueNames(t) && Has(p.table, name)
    ensures Has(Pass(p, t).table, name)
    ensures var own, now := Get(p.table, name), Get(Pass(p, t).table, name);
      var news := Has(t, name) && News(own, Get(t, name));
      && now == own.(version := now.version, ftype := now.ftype)
      && (news ==> now.ftype == FileDownloading && now.version == Get(t, name).version)
      && (!news ==> now.version == own.version && (now.ftype == own.ftype || now.ftype == FileDelete))
  {
    PassAt(p, t, name);
  }

  /** A pass takes up an unknown name exactly if the broadcast has it, not empty. */
  lemma PassTakesUpIff(p: Peer, t: Table, name: string)
    requires UniqueNames(t) && !Has(p.table, name)
    ensures Find(Pass(p, t).table, name) ==
      if Has(t, name) && Get(t, name).version.size > 0 then
        Some(Entry(name, Get(t, name).version, FileDownloading, 0, [p.ip, "", "", "", ""]))
      else None
  {
    PassAt(p, t, name);
    assert Only(p.ip) == [p.ip, "", "", "", ""];
  }

  /** The records that are not empty. */
  function NonEmpty(t: Table): Table {
    if t == [] then []
    else NonEmpty(t[..|t| - 1]) + if t[|t| - 1].version.size > 0 then [t[|t| - 1]] else []
  }

  lemma HasIffNamed(t: Table, name: string)
    ensures Has(t, name) <==> name in Names(t)
  {
    if Has(t, name) { assert Names(t)[IndexOf(t, name)] == name; }
  }

  lemma CompareOrder(p: Peer, e: Entry)
    ensures Names(CompareNode(p, e).table) ==
      if e.version.size > 0 then WithNew(Names(p.table), [e.name]) else Names(p.table)
  {
    var q := CompareNode(p, e);
    HasIffNamed(p.table, e.name);
    if !Has(p.table, e.name) && e.version.size > 0 {
      assert Names(q.table) == Names(p.table) + [e.name];
    } else {
      assert Names(q.table) == Names(p.table);
    }
    assert [e.name][1..] == [];
  }

  /** Known records keep their order through a pass, and new ones follow in the
      order of the broadcast. */
  lemma {:induction false} PassOrder(p: Peer, t: Table)
    ensures Names(Pass(p, t).table) == WithNew(Names(p.table), Names(NonEmpty(t)))
  {
    if t == [] {
      assert Names(NonEmpty(t)) == [];
    } else {
      var c, e := t[..|t| - 1], t[|t| - 1];
      PassOrder(p, c);
      CompareOrder(Pass(p, c), e);
      if e.version.size > 0 {
        WithNewAppend(Names(p.table), Names(NonEmpty(c)), e.name);
        assert Names(NonEmpty(t)) == Names(NonEmpty(c)) + [e.name];
      } else {
        assert NonEmpty(t) == NonEmpty(c);
      }
    }
  }

  /** The downloads of a pass are started in the order of the broadcast. */
  lemma {:induction false} PassStartsInOrder(own: Table, t: Table)
    requires UniqueNames(t)
    ensures forall i, j :: 0 <= i < j < |Started(own, t)| ==>
      IndexOf(t, Started(own, t)[i].name) < IndexOf(t, Started(own, t)[j].name) < |t|
  {
    if t != [] {
      var c, e := t[..|t| - 1], t[|t| - 1];
      PassStartsInOrder(own, c);
      GetUnique(t, |t| - 1);
      forall i | 0 <= i < |Started(own, c)|
        ensures IndexOf(t, Started(own, c)[i].name) == IndexOf(c, Started(own, c)[i].name) < |c|
      {
        StartedIsHad(own, c, Started(own, c)[i]);
        IndexOfPrefix(c, t, Started(own, c)[i].name);
      }
      var was, now := Started(own, c), Started(own, t);
      forall i, j | 0 <= i < j < |now|
        ensures IndexOf(t, now[i].name) < IndexOf(t, now[j].name) < |t|
      {
        assert now[i] == was[i];
        if j < |was| {
          assert now[j] == was[j];
        } else {
          assert now[j] == JobFor(e);
        }
      }
    }
  }

  lemma StartedIsHad(own: Table, t: Table, j: Job)
    requires j in Started(own, t)
    ensures Has(t, j.name)
  {
    StartedExactly(own, t, j);
    var e :| e in t && Starts(Find(own, e.name), e) && j == JobFor(e);
    var k :| 0 <= k < |t| && t[k] == e;
    assert IndexOf(t, e.name) <= k;
  }

  // ----- monitor events -----

  /** What a report is: the whole table, once. */
  ghost predicate Reported(p: Peer, q: Peer) {
    q.up == p.up + [q.table]
  }

  /** A creation event is reported exactly for an unknown name and for a record
      that is deleted or was just downloaded; in all other cases, a file being
      fetched among them, nothing happens. */
  lemma CreationReportedIff(p: Peer, name: string, v: Version)
    ensures var q := FileAdded(p, name, v);
      && (Reported(p, q) <==> !Has(p.table, name) || Get(p.table, name).ftype in {FileDelete, FileDownload})
      && (!Reported(p, q) ==> q == p)
  {
    assert forall t: Table :: |p.up + [t]| == |p.up| + 1;
  }

  /** A modification event is reported exactly for a known record that is not
      being fetched; otherwise nothing happens. */
  lemma ModificationReportedIff(p: Peer, name: string, v: Version)
    ensures var q := FileModified(p, name, v);
      && (Reported(p, q) <==> Has(p.table, name) && Get(p.table, name).ftype != FileDownloading)
      && (!Reported(p, q) ==> q == p)
  {
    assert forall t: Table :: |p.up + [t]| == |p.up| + 1;
  }

  /** A deletion event is reported exactly for a known record. */
  lemma DeletionReportedIff(p: Peer, name: string, now: nat)
    ensures var q := FileDeleted(p, name, now);
      && (Reported(p, q) <==> Has(p.table, name))
      && (!Reported(p, q) ==> q == p)
  {
    assert forall t: Table :: |p.up + [t]| == |p.up| + 1;
  }

  lemma OneUpdated(p: Peer, q: Peer, k: nat, e: Entry)
    requires k < |p.table| && IndexOf(p.table, e.name) == k
    requires q.ip == p.ip && q.down == p.down && q.table == p.table[k := e]
    ensures OnlyRecord(p, q, e.name)
  {
    forall n | n != e.name ensures Find(q.table, n) == Find(p.table, n) {
      FindUpdate(p.table, k, e, n);
    }
  }

  lemma OneAppended(p: Peer, q: Peer, e: Entry)
    requires !Has(p.table, e.name) && q.ip == p.ip && q.down == p.down && q.table == p.table + [e]
    ensures OnlyRecord(p, q, e.name)
  {
    forall n | n != e.name ensures Find(q.table, n) == Find(p.table, n) {
      FindAppend(p.table, e, n);
    }
  }

  /** An event changes the record of its own file at most, and no download. */
  lemma EventTouchesOne(p: Peer, name: string, v: Version)
    ensures OnlyRecord(p, FileAdded(p, name, v), name) && FileAdded(p, name, v).jobs == p.jobs
    ensures OnlyRecord(p, FileModified(p, name, v), name) && FileModified(p, name, v).jobs == p.jobs
    ensures OnlyRecord(p, FileDeleted(p, name, v.timestamp), name) && FileDeleted(p, name, v.timestamp).jobs == p.jobs
  {
    var k := IndexOf(p.table, name);
    if k < |p.table| {
      OneUpdated(p, FileAdded(p, name, v), k, FileAdded(p, name, v).table[k]);
      OneUpdated(p, FileModified(p, name, v), k, FileModified(p, name, v).table[k]);
      OneUpdated(p, FileDeleted(p, name, v.timestamp), k, FileDeleted(p, name, v.timestamp).table[k]);
    } else {
      OneAppended(p, FileAdded(p, name, v), Entry(name, v, FileCreate, IS_FILE, Only(p.ip)));
    }
  }

  /** After a creation event that is reported: a new file with the own address
      alone; a deleted one anew at its present version; a downloaded one at the
      version it was fetched for, whatever the event says. */
  lemma CreatedRecordIs(p: Peer, name: string, v: Version)
    ensures var q := FileAdded(p, name, v);
      && (!Has(p.table, name) ==>
            q.table == p.table + [Entry(name, v, FileCreate, IS_FILE, [p.ip, "", "", "", ""])])
      && (Has(p.table, name) && Get(p.table, name).ftype == FileDelete ==>
            Find(q.table, name) == Some(Get(p.table, name).(version := v, ftype := FileCreate)))
      && (Has(p.table, name) && Get(p.table, name).ftype == FileDownload ==>
            Find(q.table, name) == Some(Get(p.table, name).(ftype := FileModify)))
  {
    var t, k := p.table, IndexOf(p.table, name);
    if k < |t| {
      FindUpdate(t, k, FileAdded(p, name, v).table[k], name);
    } else {
      assert Only(p.ip) == [p.ip, "", "", "", ""];
    }
  }

  /** After a modification event that is reported: a downloaded file at the version
      it was fetched for, any other at its present version. */
  lemma ModifiedRecordIs(p: Peer, name: string, v: Version)
    requires Has(p.table, name) && Get(p.table, name).ftype != FileDownloading
    ensures var own, q := Get(p.table, name), FileModified(p, name, v);
      Find(q.table, name) ==
        Some(own.(version := if own.ftype == FileDownload then own.version else v, ftype := FileModify))
  {
    var t, k := p.table, IndexOf(p.table, name);
    FindUpdate(t, k, FileModified(p, name, v).table[k], name);
  }

  /** A deletion gives the record the current time and keeps its size, its
      providers and its status. */
  lemma DeletedRecordIs(p: Peer, name: string, now: nat)
    requires Has(p.table, name)
    ensures var own, q := Get(p.table, name), FileDeleted(p, name, now);
      Find(q.table, name) == Some(own.(version := Version(now, own.version.size), ftype := FileDelete))
  {
    var t, k := p.table, IndexOf(p.table, name);
    FindUpdate(t, k, FileDeleted(p, name, now).table[k], name);
  }

  // ----- a finished download -----

  /** Whatever has become of the record meanwhile, a finished download gives it
      the type and the size it was started for, keeps its timestamp, touches no
      other record, and is reported by nobody; of the running downloads it goes
      alone. */
  lemma FinishedIs(p: Peer, k: nat)
    requires k < |p.jobs|
    ensures var j, q := p.jobs[k], FinishJob(p, k);
      && OnlyRecord(p, q, j.name) && q.up == p.up
      && (Has(q.table, j.name) <==> Has(p.table, j.name))
      && (Has(p.table, j.name) ==>
            var own := Get(p.table, j.name);
            Get(q.table, j.name) ==
              own.(version := Version(own.version.timestamp, j.version.size), ftype := FileDownload))
      && multiset(q.jobs) == multiset(p.jobs) - multiset{j}
  {
    var j := p.jobs[k];
    forall n ensures NamesPrefix(p.table, FinishJob(p, k).table) && (n != j.name ==>
      Find(FinishJob(p, k).table, n) == Find(p.table, n))
    {
      SetNodeTypeAt(p.table, j.name, FileDownload, j.version.size, n);
    }
    SetNodeTypeAt(p.table, j.name, FileDownload, j.version.size, j.name);
    assert p.jobs == p.jobs[..k] + [j] + p.jobs[k + 1..];
  }
}
