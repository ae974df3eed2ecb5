/** File tables as the program holds them: linked lists of nodes, changed in
    place (common/constant.h). */
module FileTables {
  import opened Tables
  import opened Providers
  import opened Merge

  class Node {
    const name: string
    var status: int
    var size: nat
    var timestamp: nat
    var ftype: FileType
    var pNext: Node?
    const newpeerip: array<string>

    /** The node's fields, as one value. */
    ghost predicate Holds(e: Entry)
      reads this, newpeerip
    {
      newpeerip.Length == MAX_PEER_NUM && e == Entry(name, Version(timestamp, size), ftype, status, newpeerip[..])
    }

    constructor (e: Entry)
      ensures Holds(e) && pNext == null && fresh(newpeerip)
    {
      name, status, size, timestamp, ftype := e.name, e.status, e.version.size, e.version.timestamp, e.ftype;
      pNext := null;
      var slots := new string[MAX_PEER_NUM](i requires 0 <= i < MAX_PEER_NUM => e.slots[i]);
      newpeerip := slots;
      new;
      assert newpeerip[..] == e.slots;
    }

    /** The node as it goes into a packet. */
    method Copy(ghost e: Entry) returns (file: Entry)
      requires Holds(e)
      ensures file == e
    {
      file := Entry(name, Version(timestamp, size), ftype, status, newpeerip[..]);
    }

    /** Append an address to the provider array if it is new and there is room. */
    method AddProvider(ip: string, ghost e: Entry)
      requires Holds(e)
      modifies newpeerip
      ensures Holds(e.(slots := Add(e.slots, ip)))
    {
      var peerFound := false;
      var index := 0;
      while index < MAX_PEER_NUM && newpeerip[index] != ""
        invariant 0 <= index <= MAX_PEER_NUM
        invariant forall i :: 0 <= i < index ==> e.slots[i] != ""
        invariant peerFound <==> ip in e.slots[..index]
        invariant newpeerip[..] == e.slots
      {
        if newpeerip[index] == ip {
          peerFound := true;
        }
        index := index + 1;
      }
      UsedIs(e.slots, index);
      if !peerFound && index < MAX_PEER_NUM {
        newpeerip[index] := ip;
      }
      assert newpeerip[..] == Add(e.slots, ip);
    }

    /** Take over a newer version, and its reporter as the only provider. */
    method TakeVersion(from: Node, ghost e: Entry, ghost f: Entry)
      requires Holds(e) && from.Holds(f) && from != this && from.newpeerip != newpeerip
      modifies this`size, this`timestamp, this`ftype, this`status, newpeerip
      ensures Holds(Fresh(f).(name := e.name))
    {
      size := from.size;
      timestamp := from.timestamp;
      ftype := from.ftype;
      status := from.status;
      newpeerip[0] := from.newpeerip[0];
      assert newpeerip[0] == f.slots[0];
      for index := 1 to MAX_PEER_NUM
        modifies newpeerip
        invariant newpeerip[0] == f.slots[0]
        invariant forall i :: 1 <= i < index ==> newpeerip[i] == ""
      {
        newpeerip[index] := "";
      }
      assert newpeerip[..] == Only(f.slots[0]);
    }

    /** Give the node a version and a type. */
    method Set(v: Version, ftype: FileType, ghost e: Entry)
      requires Holds(e)
      modifies this`size, this`timestamp, this`ftype
      ensures Holds(e.(version := v, ftype := ftype))
    {
      size := v.size;
      timestamp := v.timestamp;
      this.ftype := ftype;
    }

    /** Refresh a record from a reported one. */
    method Update(from: Node, ghost e: Entry, ghost f: Entry)
      requires Holds(e) && from.Holds(f) && from != this && from.newpeerip != newpeerip && from.name == name
      modifies this`size, this`timestamp, this`ftype, this`status, newpeerip
      ensures Holds(Refresh(e, f))
    {
      if timestamp == from.timestamp && size == from.size {
        AddProvider(from.newpeerip[0], e);
      } else if (timestamp == from.timestamp && size < from.size) || timestamp < from.timestamp {
        TakeVersion(from, e, f);
      }
    }

    /** Take an address out of the provider array, as delete_peer does. */
    method RemoveProvider(ip: string, ghost e: Entry)
      requires Holds(e)
      modifies newpeerip
      ensures Holds(e.(slots := Remove(e.slots, ip)))
    {
      var index := 0;
      while index < MAX_PEER_NUM && newpeerip[index] != ""
        invariant 0 <= index <= MAX_PEER_NUM
        invariant RemoveFrom(newpeerip[..], ip, index) == Remove(e.slots, ip)
      {
        ghost var s: Slots := newpeerip[..];
        if newpeerip[index] == ip {
          var counter := index + 1;
          while counter < MAX_PEER_NUM && newpeerip[counter] != ""
            invariant index < counter <= MAX_PEER_NUM
            invariant newpeerip[..] == s
            invariant FirstEmpty(s, index + 1) == FirstEmpty(s, counter)
          {
            counter := counter + 1;
          }
          if counter - 1 > index {
            newpeerip[index] := newpeerip[counter - 1];
          }
          newpeerip[counter - 1] := "";
          assert newpeerip[..] == DropAt(s, index);
        }
        index := index + 1;
      }
    }
  }

  class FileTable {
    var head: Node?

    ghost var spine: seq<Node>      // the nodes, in list order
    ghost var contents: Table       // and what they hold
    ghost var Repr: set<object>

    ghost predicate Valid()
      reads this, Repr
      ensures Valid() ==> this in Repr
    {
      && this in Repr
      && |contents| == |spine|
      && (forall i :: 0 <= i < |spine| ==> spine[i] in Repr && spine[i].newpeerip in Repr)
      && (forall i :: 0 <= i < |spine| ==> spine[i].Holds(contents[i]))
      && (forall i, j :: 0 <= i < j < |spine| ==> spine[i] != spine[j] && spine[i].newpeerip != spine[j].newpeerip)
      && (forall i {:trigger spine[i].pNext} :: 0 <= i < |spine| - 1 ==> spine[i].pNext == spine[i + 1])
      && (if spine == [] then head == null else head == spine[0] && spine[|spine| - 1].pNext == null)
    }

    constructor ()
      ensures Valid() && fresh(Repr) && contents == []
    {
      head := null;
      spine, contents, Repr := [], [], {this};
    }

    /** The first node of that name, or else the last node, null if there is none. */
    method Search(name: string) returns (t: Node?, found: bool, ghost j: nat)
      requires Valid()
      ensures found <==> Has(contents, name)
      ensures found ==> j == IndexOf(contents, name) && t == spine[j]
      ensures !found && contents != [] ==> t == spine[|spine| - 1]
      ensures contents == [] ==> t == null
    {
      t, found, j := head, false, 0;
      while t != null
        invariant j <= |spine| && !found
        invariant t == if j < |spine| then spine[j] else null
        invariant contents != [] ==> j < |spine|
        invariant forall i :: 0 <= i < j ==> contents[i].name != name
        decreases |spine| - j
      {
        if t.name == name {
          found := true;
          assert IndexOf(contents, name) == j;
          return;
        }
        if t.pNext == null {
          return;
        }
        t := t.pNext;
        j := j + 1;
      }
    }

    /** The nodes in list order, as a sender goes through them. */
    method Copies() returns (files: Table)
      requires Valid()
      ensures files == contents
    {
      files := [];
      var t := head;
      while t != null
        invariant |files| <= |spine| && files == contents[..|files|]
        invariant t == if |files| < |spine| then spine[|files|] else null
        decreases |spine| - |files|
      {
        var file := t.Copy(contents[|files|]);
        files := files + [file];
        t := t.pNext;
      }
    }

    /** Link a new node behind the last one. */
    method Append(last: Node?, e: Entry) returns (node: Node)
      requires Valid() && last == if contents == [] then null else spine[|spine| - 1]
      modifies this, last
      ensures Valid() && fresh(Repr - old(Repr)) && old(Repr) <= Repr
      ensures contents == old(contents) + [e]
      ensures node == spine[|spine| - 1]
    {
      node := new Node(e);
      if last == null {
        head := node;
      } else {
        last.pNext := node;
      }
      spine, contents := spine + [node], contents + [e];
      Repr := Repr + {node, node.newpeerip};
    }

    /** Refresh a record of the list. */
    method RefreshAt(t: Node, ghost j: nat, p: Node, ghost e: Entry)
      requires Valid() && j < |spine| && t == spine[j] && t.name == p.name
      requires p.Holds(e) && p !in Repr && p.newpeerip !in Repr
      modifies this`contents, t`size, t`timestamp, t`ftype, t`status, t.newpeerip
      ensures Valid() && contents == old(contents)[j := Refresh(old(contents)[j], e)]
    {
      ghost var was, r := contents, contents[j];
      t.Update(p, r, e);
      assert forall i :: 0 <= i < |spine| && i != j ==> spine[i].Holds(was[i]);
      contents := was[j := Refresh(r, e)];
    }

    /** Change version and type of a record. */
    method Assign(t: Node, ghost j: nat, v: Version, ftype: FileType)
      requires Valid() && j < |spine| && t == spine[j]
      modifies this`contents, t`size, t`timestamp, t`ftype
      ensures Valid() && contents == old(contents)[j := old(contents)[j].(version := v, ftype := ftype)]
    {
      ghost var e := contents[j].(version := v, ftype := ftype);
      t.Set(v, ftype, contents[j]);
      contents := contents[j := e];
    }

    /** Take an address out of every record. */
    method RemoveFromAll(ip: string)
      requires Valid()
      modifies Repr
      ensures Valid() && Repr == old(Repr)
      ensures contents == RemovePeer(old(contents), ip)
      ensures spine == old(spine)
    {
      ghost var was := contents;
      var t := head;
      ghost var j := 0;
      while t != null
        invariant Valid() && Repr == old(Repr) && spine == old(spine)
        invariant j <= |spine|
        invariant t == if j < |spine| then spine[j] else null
        invariant |contents| == |was|
        invariant forall i :: 0 <= i < j ==> contents[i] == was[i].(slots := Remove(was[i].slots, ip))
        invariant forall i :: j <= i < |was| ==> contents[i] == was[i]
        decreases |spine| - j
      {
        RemoveAt(t, j, ip);
        t := t.pNext;
        j := j + 1;
      }
    }

    method RemoveAt(t: Node, ghost j: nat, ip: string)
      requires Valid() && j < |spine| && t == spine[j]
      modifies this`contents, t.newpeerip
      ensures Valid() && contents == old(contents)[j := old(contents)[j].(slots := Remove(old(contents)[j].slots, ip))]
    {
      ghost var was, e := contents, contents[j].(slots := Remove(contents[j].slots, ip));
      t.RemoveProvider(ip, was[j]);
      assert forall i :: 0 <= i < |spine| && i != j ==> spine[i].Holds(was[i]);
      contents := was[j := e];
    }
  }
}
