/** Downloads as the protocol starts them, carried through to the last byte. */
module Service {
  import opened Tables
  import opened Peers
  import opened Jobs
  import opened Protocol
  import opened Invariant
  import opened Convergence
  import opened Sources
  import opened Packets
  import opened Download

  /** What each version of a file consists of. */
  type Contents = (string, Version) -> Bytes

  /** What is on the peers' disks, by peer and file name. */
  type Disks = map<(string, string), Bytes>

  function OnDisk(disks: Disks, ip: string, name: string): Option<Bytes> {
    if (ip, name) in disks then Some(disks[(ip, name)]) else None
  }

  /** The peer has the file at exactly this version, and is neither fetching it
      nor yet to notice that it has been fetched. */
  predicate Settled(s: System, ip: string, name: string, v: Version) {
    && ip in s.peers && Has(s.peers[ip].table, name)
    && Get(s.peers[ip].table, name).version == v && !Transient(Get(s.peers[ip].table, name).ftype)
  }

  /** Settled records are true of the disk.  Nothing is assumed of the others. */
  ghost predicate Truthful(s: System, content: Contents, disks: Disks) {
    forall ip, name, v :: Settled(s, ip, name, v) ==> OnDisk(disks, ip, name) == Some(content(name, v))
  }

  /** What the sources of a download have of its file. */
  function Serving(disks: Disks, j: Job): Copies {
    seq(|j.providers|, i requires 0 <= i < |j.providers| => OnDisk(disks, j.providers[i], j.name))
  }

  /** Source `i` serves its piece of the file: if it is settled, the piece must be
      clean and fit; if not, what it happens to deliver must be the piece. */
  ghost predicate Serves(s: System, disks: Disks, j: Job, src: Bytes, sp: Split, compress: Codec, i: nat)
    requires i < |j.providers|
  {
    if Settled(s, j.providers[i], j.name, j.version) then
      Clean(Slice(src, sp, i)) && FitDataField(Sent(Slice(src, sp, i), compress))
    else
      Delivered(Serving(disks, j), sp, compress, i) == Some(Slice(src, sp, i))
  }

  lemma ServesIff(s: System, content: Contents, disks: Disks, j: Job, sp: Split, compress: Codec, i: nat)
    requires Truthful(s, content, disks) && i < |j.providers|
    ensures var src := content(j.name, j.version);
      Serves(s, disks, j, src, sp, compress, i) <==>
        Delivered(Serving(disks, j), sp, compress, i) == Some(Slice(src, sp, i))
  {
    if Settled(s, j.providers[i], j.name, j.version) {
      HolderDeliversIff(Serving(disks, j), content(j.name, j.version), sp, compress, i);
    }
  }

  /** Every download that is running in a reachable state, begun with no temporary
      files, comes out as the file exactly if it has a source, there is a byte
      for every piece, and every source asked serves its piece. */
  lemma EveryDownloadIsFileIff(s: System, ip: string, k: nat, content: Contents, disks: Disks, compress: Codec)
    requires Reachable(s) && ip in s.peers && k < |s.peers[ip].jobs| && Truthful(s, content, disks)
    requires var j := s.peers[ip].jobs[k]; |content(j.name, j.version)| == j.version.size
    ensures var j := s.peers[ip].jobs[k];
      var n, src := |j.providers|, content(j.name, j.version);
      var sp := SplitFile(n, |src|);
      && sp.count <= n <= MAX_PEER_NUM
      && (Downloaded(Serving(disks, j), |src|, map[], compress) == Some(src) <==>
            && n > 0 && EnoughBytes(n, |src|)
            && forall i: nat :: i < sp.count ==> Serves(s, disks, j, src, sp, compress, i))
  {
    var j := s.peers[ip].jobs[k];
    var src := content(j.name, j.version);
    var sp := SplitFile(|j.providers|, |src|);
    DownloadsAreServable(s, ip);
    FreshDownloadIsFileIff(Serving(disks, j), src, compress);
    forall i: nat | i < sp.count
      ensures Serves(s, disks, j, src, sp, compress, i) <==>
        Delivered(Serving(disks, j), sp, compress, i) == Some(Slice(src, sp, i))
    {
      ServesIff(s, content, disks, j, sp, compress, i);
    }
  }

  /** While no peer has been removed there is a source, and each of them is
      another peer that is connected, and is settled at the version asked for,
      not settled, or has moved on to a later version. */
  lemma EverySourceIsConnected(s: System, ip: string, k: nat, a: string)
    requires Reachable(s) && !s.departures && ip in s.peers && k < |s.peers[ip].jobs|
    ensures s.peers[ip].jobs[k].providers != []
    ensures var j := s.peers[ip].jobs[k]; a in j.providers ==>
      && a != ip && a in s.peers && Has(s.peers[a].table, j.name)
      && (var e := Get(s.peers[a].table, j.name);
          Settled(s, a, j.name, j.version) || Transient(e.ftype) || Older(j.version, e.version))
  {
    var j := s.peers[ip].jobs[k];
    DownloadsAreServable(s, ip);
    SourcesKnowTheFile(s);
    assert PeerSourced(s, s.peers[ip]) && JobSourced(s, j);
    if a in j.providers {
      assert Sourced(s, a, j.name, j.version);
    }
  }

  /** Of any three peers, one may start a download that ends in a crash, because
      a source it names is itself still fetching the file: here `c` asks `a`,
      which created the file, and `b`, which has not got it yet. */
  lemma ReachableDownloadFails(a: string, b: string, c: string, f: string, v: Version,
                               content: Contents, compress: Codec)
    returns (s: System, disks: Disks)
    requires a != "" && b != "" && c != "" && a != b && b != c && a != c
    requires v.size >= 2 && |content(f, v)| == v.size
    ensures Reachable(s) && !s.departures && c in s.peers && s.peers[c].jobs == [Job(f, v, [a, b])]
    ensures Truthful(s, content, disks) && OnDisk(disks, a, f) == Some(content(f, v))
    ensures Downloaded(Serving(disks, s.peers[c].jobs[0]), v.size, map[], compress) == None
  {
    s := SourceMayBeFetching(a, b, c, f, v);
    disks := SettledDisks(s, content);
    SettledDisksAreTruthful(s, content);
    OneOfTwoServes(s, content, a, b, f, v);
    SecondCannotOpen(content(f, v), compress);
  }

  /** Disks that hold just the files of settled records. */
  function SettledDisks(s: System, content: Contents): Disks {
    var keys :=
      set ip, e | ip in s.peers && e in s.peers[ip].table && Settled(s, ip, e.name, e.version) :: (ip, e.name);
    map x | x in keys :: content(x.1, Get(s.peers[x.0].table, x.1).version)
  }

  lemma SettledDisksAreTruthful(s: System, content: Contents)
    ensures Truthful(s, content, SettledDisks(s, content))
  {
    forall ip, name, v | Settled(s, ip, name, v)
      ensures OnDisk(SettledDisks(s, content), ip, name) == Some(content(name, v))
    {
      assert Get(s.peers[ip].table, name) in s.peers[ip].table;
    }
  }

  lemma OneOfTwoServes(s: System, content: Contents, a: string, b: string, f: string, v: Version)
    requires Settled(s, a, f, v) && b in s.peers && Fetching(s.peers[b].table, f)
    ensures var disks := SettledDisks(s, content);
      && OnDisk(disks, a, f) == Some(content(f, v))
      && Serving(disks, Job(f, v, [a, b])) == [Some(content(f, v)), None]
  {
    SettledDisksAreTruthful(s, content);
  }

  lemma SecondCannotOpen(src: Bytes, compress: Codec)
    requires |src| >= 2
    ensures Downloaded([Some(src), None], |src|, map[], compress) == None
  {
    var sp := SplitFile(2, |src|);
    assert sp.count == 2 && PieceSize(sp, 1) > 0;
    UnopenedIsFatal([Some(src), None], |src|, map[], compress, 1);
  }
}
