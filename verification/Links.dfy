/** Nodes on the wire.  A node is sent as it stands in the sender's memory, its
    link to the next node with it; the receiver links the copies anew, all but
    the last, which keeps the link it came with (common/pkt.c, tracker/tracker.c). */
module Links {
  import opened Tables
  import opened Providers

  const NO_FILE := Entry("", Version(0, 0), FileNone, 0, NO_SLOTS)

  /** A node as sent; `next` is its link, zero being NULL. */
  datatype WireNode = WireNode(file: Entry, next: nat)

  const NO_NODE := WireNode(NO_FILE, 0)

  /** The last node has no successor, so that whoever walks the list as received
      stops there. */
  predicate Ends(l: seq<WireNode>) {
    l == [] || l[|l| - 1].next == 0
  }

  function Files(l: seq<WireNode>): Table {
    seq(|l|, k requires 0 <= k < |l| => l[k].file)
  }

  /** The tables of several lists. */
  function AllFiles(ls: seq<seq<WireNode>>): seq<Table> {
    seq(|ls|, i requires 0 <= i < |ls| => Files(ls[i]))
  }

  /** A list as received: its records, and the link the last node is left with. */
  datatype Chain = Chain(files: Table, last: nat)

  const EMPTY := Chain([], 0)

  function Extend(c: Chain, n: WireNode): Chain {
    Chain(c.files + [n.file], n.next)
  }

  /** What becomes of a whole list.  It ends properly if it did at the sender. */
  function Linked(l: seq<WireNode>): (c: Chain)
    ensures c.last == 0 <==> Ends(l)
  {
    Chain(Files(l), if l == [] then 0 else l[|l| - 1].next)
  }

  lemma LinkedSnoc(l: seq<WireNode>, n: WireNode)
    ensures Linked(l + [n]) == Extend(Linked(l), n)
  {
    assert Files(l + [n]) == Files(l) + [n.file];
  }

  function AllLinked(ls: seq<seq<WireNode>>): seq<Chain> {
    seq(|ls|, i requires 0 <= i < |ls| => Linked(ls[i]))
  }
}
