/** Versions, file types, table entries and lookups: the part of a file table
    that the tracker and the peers share (common/constant.h). */
module Tables {

  /** Slots of a record's provider array. */
  const MAX_PEER_NUM: nat := 5

  datatype Option<+T> = None | Some(value: T)

  /** Node types.  FileDownloading and FileDownload are transient: they mark a
      record whose file is being fetched, or was fetched and not yet noticed by
      the monitor. */
  datatype FileType =
    | FileNone      // a cleared node
    | FileCreate
    | FileModify
    | FileDelete
    | FileOpen
    | FileOpenModify
    | FileDownload
    | FileDownloading

  predicate Transient(t: FileType) {
    t == FileDownload || t == FileDownloading
  }

  /** What the system orders files by: the timestamp, then the size. */
  datatype Version = Version(timestamp: nat, size: nat)

  predicate Older(a: Version, b: Version) {
    a.timestamp < b.timestamp || (a.timestamp == b.timestamp && a.size < b.size)
  }

  predicate AtMost(a: Version, b: Version) {
    a == b || Older(a, b)
  }

  /** A provider array: a fixed number of address slots, the empty string being
      an unset slot. */
  type Slots = s: seq<string> | |s| == MAX_PEER_NUM witness ["", "", "", "", ""]

  datatype Entry = Entry(name: string, version: Version, ftype: FileType, status: int, slots: Slots)

  /** A file table: the values of a list of nodes, in list order. */
  type Table = seq<Entry>

  /** Position of the first entry with the given name, or the length if there is none. */
  function IndexOf(t: Table, name: string): (k: nat)
    ensures k <= |t|
    ensures k < |t| ==> t[k].name == name
    ensures forall j :: 0 <= j < k ==> t[j].name != name
  {
    if t == [] || t[0].name == name then 0 else 1 + IndexOf(t[1..], name)
  }

  predicate Has(t: Table, name: string) {
    IndexOf(t, name) < |t|
  }

  function Get(t: Table, name: string): (e: Entry)
    requires Has(t, name)
    ensures e in t && e.name == name
  {
    t[IndexOf(t, name)]
  }

  function Find(t: Table, name: string): Option<Entry> {
    if Has(t, name) then Some(Get(t, name)) else None
  }

  /** The table holds `name` at version `v` or a later one. */
  predicate Covers(t: Table, name: string, v: Version) {
    Has(t, name) && AtMost(v, Get(t, name).version)
  }

  ghost predicate UniqueNames(t: Table) {
    forall i, j :: 0 <= i < j < |t| ==> t[i].name != t[j].name
  }

  /** `u` holds the names of `t`, in the same order, as a prefix. */
  ghost predicate NamesPrefix(t: Table, u: Table) {
    |t| <= |u| && forall i :: 0 <= i < |t| ==> u[i].name == t[i].name
  }

  /** All versions a table holds for a name. */
  ghost function VersionsOf(t: Table, name: string): set<Version> {
    set i | 0 <= i < |t| && t[i].name == name :: t[i].version
  }

  /** Two tables give every name the same version. */
  ghost predicate SameVersions(t: Table, u: Table) {
    forall name ::
      && (Has(t, name) <==> Has(u, name))
      && (Has(t, name) ==> Get(t, name).version == Get(u, name).version)
  }

  lemma IndexOfPrefix(t: Table, u: Table, name: string)
    requires NamesPrefix(t, u)
    ensures Has(t, name) ==> IndexOf(u, name) == IndexOf(t, name)
    ensures !Has(t, name) ==> IndexOf(u, name) >= |t|
  {
  }

  /** Replacing an entry by one of the same name touches no other name. */
  lemma FindUpdate(t: Table, k: nat, e: Entry, name: string)
    requires k < |t| && IndexOf(t, t[k].name) == k && e.name == t[k].name
    ensures NamesPrefix(t, t[k := e])
    ensures IndexOf(t[k := e], name) == IndexOf(t, name)
    ensures Find(t[k := e], name) == if name == e.name then Some(e) else Find(t, name)
  {
  }

  lemma FindAppend(t: Table, e: Entry, name: string)
    requires !Has(t, e.name)
    ensures NamesPrefix(t, t + [e])
    ensures Find(t + [e], name) == if name == e.name then Some(e) else Find(t, name)
  {
    var u := t + [e];
    IndexOfPrefix(t, u, name);
    assert u[|t|] == e;
    if Has(u, name) && !Has(t, name) { assert IndexOf(u, name) == |t|; }
  }

  /** The first |c| entries decide about every name that is not the last one's. */
  lemma FindSnoc(c: Table, e: Entry, name: string)
    ensures Find(c + [e], name) == if Has(c, name) then Find(c, name) else if name == e.name then Some(e) else None
  {
    var u := c + [e];
    IndexOfPrefix(c, u, name);
    assert u[|c|] == e;
    if Has(u, name) && !Has(c, name) { assert IndexOf(u, name) == |c|; }
  }

  lemma LastIsNew(t: Table)
    requires UniqueNames(t) && t != []
    ensures UniqueNames(t[..|t| - 1]) && !Has(t[..|t| - 1], t[|t| - 1].name)
  {
  }

  lemma GetUnique(t: Table, k: nat)
    requires UniqueNames(t) && k < |t|
    ensures Has(t, t[k].name) && IndexOf(t, t[k].name) == k && Get(t, t[k].name) == t[k]
  {
  }
}
