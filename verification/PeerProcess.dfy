/** The peer process: its file table and the functions that change it in place
    (peer/peer.c, peer/monitor.c). */
module PeerProcess {
  import opened Tables
  import opened Providers
  import opened FileTables
  import opened Peers

  class Process {
    const ip: string
    const fileTable: FileTable
    var jobs: seq<Job>
    var up: seq<Table>
    var down: seq<Table>

    ghost predicate Valid()
      reads this, fileTable, fileTable.Repr
    {
      fileTable.Valid() && this !in fileTable.Repr
    }

    ghost function State(): Peer
      reads this, fileTable
    {
      Peer(ip, fileTable.contents, jobs, up, down)
    }

    constructor (ip: string)
      ensures Valid() && fresh(fileTable.Repr) && State() == Peer(ip, [], [], [], [])
    {
      this.ip := ip;
      fileTable := new FileTable();
      jobs, up, down := [], [], [];
    }

    /** peer_sendpkt of the file table. */
    method SendReport()
      requires Valid()
      modifies this`up
      ensures Valid() && State() == Report(old(State()))
    {
      var files := fileTable.Copies();
      up := up + [files];
    }

    method SetNodeType(name: string, ftype: FileType, size: nat)
      requires Valid()
      modifies fileTable.Repr
      ensures Valid() && fileTable.Repr == old(fileTable.Repr)
      ensures State() == old(State()).(table := Peers.SetNodeType(old(fileTable.contents), name, ftype, size))
    {
      var t, found, j := fileTable.Search(name);
      if found {
        fileTable.Assign(t, j, Version(t.timestamp, size), ftype);
      }
    }

    // ----- broadcasts -----

    /** Put a record behind the last one, for a file about to be fetched. */
    method Add(last: Node?, job: Job)
      requires Valid() && last == if fileTable.contents == [] then null else fileTable.spine[|fileTable.spine| - 1]
      modifies fileTable, last
      ensures Valid() && fresh(fileTable.Repr - old(fileTable.Repr))
      ensures State() == old(State()).(table :=
        old(fileTable.contents) + [Entry(job.name, job.version, FileDownloading, 0, Only(ip))])
    {
      var node := fileTable.Append(last, Entry(job.name, job.version, FileDownloading, 0, Only(ip)));
    }

    /** Give a record the version about to be fetched. */
    method Modify(job: Job)
      requires Valid() && Has(fileTable.contents, job.name)
      modifies fileTable.Repr
      ensures Valid() && fileTable.Repr == old(fileTable.Repr)
      ensures State() == old(State()).(table :=
        var t := old(fileTable.contents); var k := IndexOf(t, job.name);
        t[k := t[k].(version := job.version, ftype := FileDownloading)])
    {
      var t, found, j := fileTable.Search(job.name);
      fileTable.Assign(t, j, job.version, FileDownloading);
    }

    /** The download of a record: its sources are the addresses up to the first unset slot. */
    method MakeJob(seek: Entry) returns (job: Job)
      ensures job == JobFor(seek)
    {
      var providers: seq<string> := [];
      while |providers| < MAX_PEER_NUM && seek.slots[|providers|] != ""
        invariant |providers| <= MAX_PEER_NUM
        invariant providers == seek.slots[..|providers|]
        invariant forall i :: 0 <= i < |providers| ==> seek.slots[i] != ""
        decreases MAX_PEER_NUM - |providers|
      {
        providers := providers + [seek.slots[|providers|]];
      }
      UsedIs(seek.slots, |providers|);
      job := Job(seek.name, seek.version, providers);
    }

    method CompareNode(seek: Entry)
      requires Valid()
      modifies this`jobs, fileTable.Repr
      ensures Valid() && fresh(fileTable.Repr - old(fileTable.Repr))
      ensures State() == Peers.CompareNode(old(State()), seek)
    {
      var current, found, j := fileTable.Search(seek.name);
      if found {
        CompareKnown(current, j, seek);
      } else if seek.version.size > 0 {
        var job := MakeJob(seek);
        Add(current, job);
        jobs := jobs + [job];
      }
    }

    method CompareKnown(current: Node, ghost j: nat, seek: Entry)
      requires Valid() && j == IndexOf(fileTable.contents, seek.name) < |fileTable.spine|
      requires current == fileTable.spine[j]
      modifies this`jobs, fileTable.Repr
      ensures Valid() && fileTable.Repr == old(fileTable.Repr)
      ensures State() == Peers.CompareNode(old(State()), seek)
    {
      if current.timestamp <= seek.version.timestamp {
        if seek.version.size > 0 && current.ftype != FileDownloading && seek.ftype != FileDelete
           && (current.timestamp < seek.version.timestamp
               || (current.timestamp == seek.version.timestamp && current.size < seek.version.size))
        {
          var job := MakeJob(seek);
          Modify(job);
          jobs := jobs + [job];
        } else if seek.ftype == FileDelete && current.ftype != FileDelete {
          fileTable.Assign(current, j, Version(current.timestamp, current.size), FileDelete);
        }
      }
    }

    /** Take the next broadcast off the connection and compare every record. */
    method ReceiveBroadcast()
      requires Valid() && down != []
      modifies this, fileTable.Repr
      ensures Valid() && fresh(fileTable.Repr - old(fileTable.Repr))
      ensures State() == Pass(old(State()).(down := old(down)[1..]), old(down)[0])
    {
      var t := down[0];
      down := down[1..];
      ghost var p := State();
      for i := 0 to |t|
        invariant Valid() && fresh(fileTable.Repr - old(fileTable.Repr))
        invariant State() == Pass(p, t[..i])
      {
        CompareNode(t[i]);
        assert t[..i + 1][..i] == t[..i];
      }
      assert t[..|t|] == t;
    }

    /** A download thread is done. */
    method FinishDownload(k: nat)
      requires Valid() && k < |jobs|
      modifies this`jobs, fileTable.Repr
      ensures Valid() && fileTable.Repr == old(fileTable.Repr)
      ensures State() == FinishJob(old(State()), k)
    {
      SetNodeType(jobs[k].name, FileDownload, jobs[k].version.size);
      jobs := jobs[..k] + jobs[k + 1..];
    }

    // ----- monitor events -----

    method FileAdded(name: string, v: Version)
      requires Valid()
      modifies this`up, fileTable.Repr
      ensures Valid() && fresh(fileTable.Repr - old(fileTable.Repr))
      ensures State() == Peers.FileAdded(old(State()), name, v)
    {
      var node, found, j := fileTable.Search(name);
      if found {
        KnownFileAdded(node, j, v);
      } else {
        var added := fileTable.Append(node, Entry(name, v, FileCreate, IS_FILE, Only(ip)));
        SendReport();
      }
    }

    method KnownFileAdded(node: Node, ghost j: nat, v: Version)
      requires Valid() && j == IndexOf(fileTable.contents, node.name) < |fileTable.spine| && node == fileTable.spine[j]
      modifies this`up, fileTable.Repr
      ensures Valid() && fileTable.Repr == old(fileTable.Repr)
      ensures State() == Peers.FileAdded(old(State()), node.name, v)
    {
      if node.ftype != FileDelete {
        if node.ftype == FileDownload {
          fileTable.Assign(node, j, Version(node.timestamp, node.size), FileModify);
          SendReport();
        }
      } else {
        fileTable.Assign(node, j, v, FileCreate);
        SendReport();
      }
    }

    method FileModified(name: string, v: Version) returns (known: bool)
      requires Valid()
      modifies this`up, fileTable.Repr
      ensures Valid() && fileTable.Repr == old(fileTable.Repr)
      ensures State() == Peers.FileModified(old(State()), name, v)
      ensures known <==> Has(old(fileTable.contents), name)
    {
      var node, found, j := fileTable.Search(name);
      known := found;
      if found && node.ftype == FileDownload {
        fileTable.Assign(node, j, Version(node.timestamp, node.size), FileModify);
        SendReport();
      } else if found && node.ftype != FileDownloading {
        fileTable.Assign(node, j, v, FileModify);
        SendReport();
      }
    }

    method FileDeleted(name: string, now: nat) returns (known: bool)
      requires Valid()
      modifies this`up, fileTable.Repr
      ensures Valid() && fileTable.Repr == old(fileTable.Repr)
      ensures State() == Peers.FileDeleted(old(State()), name, now)
      ensures known <==> Has(old(fileTable.contents), name)
    {
      var node, found, j := fileTable.Search(name);
      known := found;
      if found {
        fileTable.Assign(node, j, Version(now, node.size), FileDelete);
        SendReport();
      }
    }
  }
}
