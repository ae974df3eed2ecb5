/** The whole system: one tracker, any number of peers that come and go, and a
    FIFO channel each way per peer.  Every step below is atomic.  Deletion events
    are not among them. */
module Protocol {
  import opened Tables
  import opened Providers
  import opened Merge
  import opened Peers
  import opened Jobs

  /** `members` is the tracker's peer list, head first; `departures` tells
      whether delete_peer has ever run. */
  datatype System = System(table: Table, members: seq<string>, peers: map<string, Peer>, departures: bool)

  datatype Step =
    | Join(ip: string)                                   // accept, REGISTER and its answer
    | Leave(ip: string)                                  // delete_peer of a peer other than the list's head
    | Register(ip: string)                               // a further REGISTER packet
    | CreateEvent(ip: string, name: string, version: Version)
    | ModifyEvent(ip: string, name: string, version: Version)
    | MergeStep(ip: string)                              // the last packet of a batch: merge and broadcast
    | PassStep(ip: string)                               // a peer works through one broadcast
    | FinishStep(ip: string, job: nat)                   // a download is complete

  function Init(): System {
    System([], [], map[], false)
  }

  /** A modification event does not take the file below the version on record. */
  predicate Admissible(p: Peer, name: string, v: Version) {
    !Has(p.table, name) || Transient(Get(p.table, name).ftype) || AtMost(Get(p.table, name).version, v)
  }

  predicate Enabled(s: System, a: Step) {
    match a
    case Join(ip) => ip != "" && ip !in s.peers
    case Leave(ip) => ip in s.members && ip in s.peers && ip != s.members[0]
    case Register(ip) => ip in s.peers
    case CreateEvent(ip, name, v) => ip in s.peers
    case ModifyEvent(ip, name, v) => ip in s.peers && Admissible(s.peers[ip], name, v)
    case MergeStep(ip) => ip in s.peers && s.peers[ip].up != []
    case PassStep(ip) => ip in s.peers && s.peers[ip].down != []
    case FinishStep(ip, k) => ip in s.peers && k < |s.peers[ip].jobs|
  }

  function Send(p: Peer, t: Table): Peer {
    p.(down := p.down + [t])
  }

  /** Send the tracker's table to everyone on the peer list. */
  function Broadcast(s: System): System {
    s.(peers := map ip | ip in s.peers :: if ip in s.members then Send(s.peers[ip], s.table) else s.peers[ip])
  }

  /** A peer with its oldest broadcast taken off the channel and worked through. */
  function Looked(p: Peer): Peer
    requires p.down != []
  {
    Pass(p.(down := p.down[1..]), p.down[0])
  }

  function Apply(s: System, a: Step): System
    requires Enabled(s, a)
  {
    match a
    case Join(ip) => s.(members := s.members + [ip], peers := s.peers[ip := Peer(ip, [], [], [], [s.table])])
    case Leave(ip) =>
      System(RemovePeer(s.table, ip), Without(s.members, ip), s.peers - {ip}, true)
    case Register(ip) => s.(peers := s.peers[ip := Send(s.peers[ip], s.table)])
    case CreateEvent(ip, name, v) => s.(peers := s.peers[ip := FileAdded(s.peers[ip], name, v)])
    case ModifyEvent(ip, name, v) => s.(peers := s.peers[ip := FileModified(s.peers[ip], name, v)])
    case MergeStep(ip) =>
      var p := s.peers[ip];
      Broadcast(s.(table := MergeBatch(s.table, p.up[0]), peers := s.peers[ip := p.(up := p.up[1..])]))
    case PassStep(ip) => s.(peers := s.peers[ip := Looked(s.peers[ip])])
    case FinishStep(ip, k) => s.(peers := s.peers[ip := FinishJob(s.peers[ip], k)])
  }

  function Without(ips: seq<string>, ip: string): (r: seq<string>)
    requires ip in ips
  {
    if ips[0] == ip then ips[1..] else [ips[0]] + Without(ips[1..], ip)
  }

  // ----- the invariant, piece by piece -----

  /** `u` holds everything `t` holds, at the same version or a later one. */
  ghost predicate Grows(t: Table, u: Table) {
    forall n, v :: Covers(t, n, v) ==> Covers(u, n, v)
  }

  ghost predicate AllCovered(b: Table, t: Table) {
    forall k :: 0 <= k < |b| ==> Covers(t, b[k].name, b[k].version)
  }

  /** Deletion-free types on a peer. */
  predicate Live(t: FileType) {
    t == FileCreate || t == FileModify || Transient(t)
  }

  /** A peer's table or a report of it: live types, and transient records are
      never news to the tracker. */
  ghost predicate LiveTable(t: Table, b: Table) {
    forall k :: 0 <= k < |b| ==>
      Live(b[k].ftype) && (Transient(b[k].ftype) ==> Covers(t, b[k].name, b[k].version))
  }

  /** Wherever the table lists the peer, the peer holds at least that version. */
  ghost predicate Claims(t: Table, ip: string, own: Table) {
    forall k :: 0 <= k < |t| && ip in Listed(t[k].slots) ==> Covers(own, t[k].name, t[k].version)
  }

  /** A table the tracker holds or has sent. */
  ghost predicate Offer(t: Table, departures: bool) {
    && UniqueNames(t)
    && GoodSlots(t)
    && (forall k :: 0 <= k < |t| ==> t[k].ftype == FileCreate || t[k].ftype == FileModify)
    && (!departures ==> forall k :: 0 <= k < |t| ==> Listed(t[k].slots) != [])
  }

  ghost predicate Known(t: Table, own: Table, up: seq<Table>, k: nat)
    requires k < |own|
  {
    || Covers(t, own[k].name, own[k].version)
    || exists b :: 0 <= b < |up| && Covers(up[b], own[k].name, own[k].version)
  }

  ghost predicate LocalInv(t: Table, ip: string, own: Table, up: seq<Table>) {
    && Own(own, ip)
    && LiveTable(t, own)
    && (forall k :: 0 <= k < |own| ==> Known(t, own, up, k))
  }

  ghost predicate UpInv(t: Table, ip: string, own: Table, up: seq<Table>) {
    forall b :: 0 <= b < |up| ==> up[b] != [] && Own(up[b], ip) && LiveTable(t, up[b]) && AllCovered(up[b], own)
  }

  ghost predicate Offered(t: Table, ip: string, own: Table, d: Table, departures: bool) {
    Offer(d, departures) && AllCovered(d, t) && Claims(d, ip, own)
  }

  ghost predicate DownInv(t: Table, ip: string, own: Table, down: seq<Table>, departures: bool) {
    forall d :: 0 <= d < |down| ==> Offered(t, ip, own, down[d], departures)
  }

  /** What every download has: bytes to fetch, and distinct sources, the peer
      itself not among them. */
  ghost predicate GoodJob(ip: string, j: Job, departures: bool) {
    && j.version.size > 0
    && ip !in j.providers
    && |j.providers| <= MAX_PEER_NUM
    && (forall i, k :: 0 <= i < k < |j.providers| ==> j.providers[i] != j.providers[k])
    && (!departures ==> j.providers != [])
  }

  ghost predicate GoodJobs(ip: string, jobs: seq<Job>, departures: bool) {
    forall j :: 0 <= j < |jobs| ==> GoodJob(ip, jobs[j], departures)
  }

  /** The peer holds the tracker's version of the record, is about to report on
      it, or the record is empty and never fetched. */
  ghost predicate CaughtUp(own: Table, r: Entry) {
    || r.version.size == 0
    || Covers(own, r.name, r.version)
    || (Has(own, r.name) && Transient(Get(own, r.name).ftype))
  }

  ghost predicate LagInv(t: Table, p: Peer) {
    || p.down != []
    || p.up != []
    || forall k :: 0 <= k < |t| ==> CaughtUp(p.table, t[k])
  }

  /** Everything about one peer except where it stands with the newest broadcast. */
  ghost predicate CoreInv(t: Table, p: Peer, departures: bool) {
    && p.ip != ""
    && LocalInv(t, p.ip, p.table, p.up)
    && UpInv(t, p.ip, p.table, p.up)
    && DownInv(t, p.ip, p.table, p.down, departures)
    && Claims(t, p.ip, p.table)
    && Matched(p.table, p.jobs)
    && GoodJobs(p.ip, p.jobs, departures)
  }

  ghost predicate PeerInv(t: Table, p: Peer, departures: bool) {
    && CoreInv(t, p, departures)
    && (p.down != [] ==> SameVersions(p.down[|p.down| - 1], t))
    && LagInv(t, p)
  }

  ghost predicate TrackerInv(t: Table, ips: set<string>, departures: bool) {
    && Offer(t, departures)
    && forall k, a :: 0 <= k < |t| && a in Listed(t[k].slots) ==> a in ips
  }

  ghost predicate MembersInv(members: seq<string>, ips: set<string>) {
    && (forall i, j :: 0 <= i < j < |members| ==> members[i] != members[j])
    && (forall ip :: ip in members <==> ip in ips)
  }

  ghost predicate Inv(s: System) {
    && MembersInv(s.members, s.peers.Keys)
    && TrackerInv(s.table, s.peers.Keys, s.departures)
    && forall ip :: ip in s.peers ==> s.peers[ip].ip == ip && PeerInv(s.table, s.peers[ip], s.departures)
  }

  // ----- growth -----

  lemma LiveGrows(t: Table, u: Table, b: Table)
    requires LiveTable(t, b) && Grows(t, u)
    ensures LiveTable(u, b)
  {
  }

  lemma UpGrows(t: Table, u: Table, ip: string, own: Table, now: Table, up: seq<Table>)
    requires UpInv(t, ip, own, up) && Grows(t, u) && Grows(own, now)
    ensures UpInv(u, ip, now, up)
  {
  }

  lemma DownGrows(t: Table, u: Table, ip: string, own: Table, now: Table, down: seq<Table>, departures: bool)
    requires DownInv(t, ip, own, down, departures) && Grows(t, u) && Grows(own, now)
    ensures DownInv(u, ip, now, down, departures)
  {
  }

  lemma MergeGrows(t: Table, b: Table)
    ensures Grows(t, MergeBatch(t, b))
  {
    forall n, v | Covers(t, n, v) ensures Covers(MergeBatch(t, b), n, v) {
      MergeKeepsCover(t, b, n, v);
    }
  }

  /** Raising or keeping the version of one record makes the table grow. */
  lemma UpdateGrows(t: Table, k: nat, e: Entry)
    requires k < |t| && IndexOf(t, t[k].name) == k && e.name == t[k].name && AtMost(t[k].version, e.version)
    ensures Grows(t, t[k := e])
  {
    forall n, v | Covers(t, n, v) ensures Covers(t[k := e], n, v) {
      FindUpdate(t, k, e, n);
    }
  }

  lemma AppendGrows(t: Table, e: Entry)
    requires !Has(t, e.name)
    ensures Grows(t, t + [e])
  {
    forall n, v | Covers(t, n, v) ensures Covers(t + [e], n, v) {
      FindAppend(t, e, n);
    }
  }
}
