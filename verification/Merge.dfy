/** The tracker's merge of a reported table into its own (update_filetable) and
    the removal of a peer from every record (delete_peer), on table values. */
module Merge {
  import opened Tables
  import opened Providers

  /** The record made for a name the tracker has not seen. */
  function Fresh(e: Entry): Entry {
    Entry(e.name, e.version, e.ftype, e.status, Only(e.slots[0]))
  }

  /** A known record after `e` was reported for its name. */
  function Refresh(rec: Entry, e: Entry): Entry {
    if rec.version == e.version then rec.(slots := Add(rec.slots, e.slots[0]))
    else if Older(rec.version, e.version) then Fresh(e).(name := rec.name)
    else rec
  }

  function MergeOne(t: Table, e: Entry): Table {
    var k := IndexOf(t, e.name);
    if k < |t| then t[k := Refresh(t[k], e)] else t + [Fresh(e)]
  }

  function MergeBatch(t: Table, b: Table): Table {
    if b == [] then t else MergeOne(MergeBatch(t, b[..|b| - 1]), b[|b| - 1])
  }

  /** The tables a merge passes through. */
  ghost predicate Passes(t: Table, b: Table, steps: seq<Table>) {
    && 0 < |steps| <= |b| + 1 && steps[0] == t
    && forall k :: 0 <= k < |steps| - 1 ==> steps[k + 1] == MergeOne(steps[k], b[k])
  }

  lemma PassesSnoc(t: Table, b: Table, steps: seq<Table>, next: Table)
    requires Passes(t, b, steps) && |steps| <= |b| && next == MergeOne(steps[|steps| - 1], b[|steps| - 1])
    ensures Passes(t, b, steps + [next])
  {
  }

  lemma {:induction false} PassesEnd(t: Table, b: Table, steps: seq<Table>)
    requires Passes(t, b, steps) && |steps| == |b| + 1
    ensures steps[|b|] == MergeBatch(t, b)
  {
    if b != [] {
      PassesEnd(t, b[..|b| - 1], steps[..|b|]);
    }
  }

  function MergeAll(t: Table, bs: seq<Table>): Table {
    if bs == [] then t else MergeBatch(MergeAll(t, bs[..|bs| - 1]), bs[|bs| - 1])
  }

  function RemovePeer(t: Table, ip: string): Table {
    seq(|t|, i requires 0 <= i < |t| => t[i].(slots := Remove(t[i].slots, ip)))
  }

  // ----- one entry -----

  lemma MergeOneAt(t: Table, e: Entry, name: string)
    ensures var m := MergeOne(t, e);
      && (Has(m, name) <==> Has(t, name) || name == e.name)
      && (name != e.name && Has(t, name) ==> Get(m, name) == Get(t, name))
      && (name == e.name ==> Get(m, name) == if Has(t, name) then Refresh(Get(t, name), e) else Fresh(e))
  {
    var m := MergeOne(t, e);
    IndexOfPrefix(t, m, name);
    if !Has(t, e.name) { assert m[|t|].name == e.name; }
    if Has(m, name) && !Has(t, name) { assert IndexOf(m, name) == |t|; }
  }

  lemma MergeOneKeepsNames(t: Table, e: Entry)
    requires UniqueNames(t)
    ensures UniqueNames(MergeOne(t, e)) && NamesPrefix(t, MergeOne(t, e))
  {
  }

  // ----- versions -----

  ghost predicate IsNewest(vs: set<Version>, v: Version) {
    v in vs && forall w :: w in vs ==> AtMost(w, v)
  }

  lemma NewestIsUnique(vs: set<Version>, v: Version, w: Version)
    requires IsNewest(vs, v) && IsNewest(vs, w)
    ensures v == w
  {
  }

  lemma VersionsOfAppend(t: Table, e: Entry, name: string)
    ensures VersionsOf(t + [e], name) == VersionsOf(t, name) + if e.name == name then {e.version} else {}
  {
    var u := t + [e];
    forall v | v in VersionsOf(u, name) + VersionsOf(t, name) + {e.version}
      ensures v in VersionsOf(u, name) <==> v in VersionsOf(t, name) || (e.name == name && v == e.version)
    {
      if v in VersionsOf(t, name) {
        var i :| 0 <= i < |t| && t[i].name == name && t[i].version == v;
        assert u[i] == t[i];
      }
      if e.name == name && v == e.version {
        assert u[|t|] == e;
      }
    }
  }

  lemma VersionsOfUnique(t: Table, name: string)
    requires UniqueNames(t)
    ensures VersionsOf(t, name) == if Has(t, name) then {Get(t, name).version} else {}
  {
  }

  lemma {:induction false} MergeKeepsNames(t: Table, b: Table)
    requires UniqueNames(t)
    ensures UniqueNames(MergeBatch(t, b)) && NamesPrefix(t, MergeBatch(t, b))
  {
    if b != [] {
      var c := b[..|b| - 1];
      MergeKeepsNames(t, c);
      MergeOneKeepsNames(MergeBatch(t, c), b[|b| - 1]);
    }
  }

  /** One more entry, and what it does to the newest version of a name. */
  lemma OneTakesNewest(m: Table, e: Entry, name: string, vs: set<Version>)
    requires Has(m, name) <==> vs != {}
    requires Has(m, name) ==> IsNewest(vs, Get(m, name).version)
    ensures var r := MergeOne(m, e); var ws := vs + if e.name == name then {e.version} else {};
      && (Has(r, name) <==> ws != {})
      && (Has(r, name) ==> IsNewest(ws, Get(r, name).version))
  {
    MergeOneAt(m, e, name);
  }

  /** Merging leaves every name with the newest version among the tracker's and
      all those reported. */
  lemma {:induction false} MergeTakesNewest(t: Table, b: Table, name: string)
    requires UniqueNames(t)
    ensures var m := MergeBatch(t, b); var vs := VersionsOf(t, name) + VersionsOf(b, name);
      && (Has(m, name) <==> vs != {})
      && (Has(m, name) ==> IsNewest(vs, Get(m, name).version))
  {
    if b == [] {
      VersionsOfUnique(t, name);
    } else {
      var c, e := b[..|b| - 1], b[|b| - 1];
      assert b == c + [e];
      MergeTakesNewest(t, c, name);
      VersionsOfAppend(c, e, name);
      var vs := VersionsOf(t, name) + VersionsOf(c, name);
      OneTakesNewest(MergeBatch(t, c), e, name, vs);
      assert VersionsOf(t, name) + VersionsOf(b, name) == vs + if e.name == name then {e.version} else {};
    }
  }

  /** So the resulting versions depend only on which versions were reported, not
      on their order or how often. */
  lemma MergeIgnoresOrder(t: Table, b: Table, c: Table)
    requires UniqueNames(t)
    requires forall name :: VersionsOf(b, name) == VersionsOf(c, name)
    ensures SameVersions(MergeBatch(t, b), MergeBatch(t, c))
  {
    var m, n := MergeBatch(t, b), MergeBatch(t, c);
    forall name
      ensures Has(m, name) <==> Has(n, name)
      ensures Has(m, name) ==> Get(m, name).version == Get(n, name).version
    {
      MergeTakesNewest(t, b, name);
      MergeTakesNewest(t, c, name);
      if Has(m, name) {
        NewestIsUnique(VersionsOf(t, name) + VersionsOf(b, name), Get(m, name).version, Get(n, name).version);
      }
    }
  }

  // ----- whole records -----

  /** A record after a batch that mentions its name at most once, as a report does. */
  lemma {:induction false} MergeAt(t: Table, b: Table, name: string)
    requires UniqueNames(b)
    ensures Find(MergeBatch(t, b), name) ==
      match Find(b, name)
      case None => Find(t, name)
      case Some(e) => Some(if Has(t, name) then Refresh(Get(t, name), e) else Fresh(e))
  {
    if b != [] {
      var c, e := b[..|b| - 1], b[|b| - 1];
      assert b == c + [e];
      MergeAt(t, c, name);
      MergeOneAt(MergeBatch(t, c), e, name);
      FindSnoc(c, e, name);
      LastIsNew(b);
    }
  }

  /** A report's record replaces one that is missing or older, with its reporter as
      the only provider; one of the same version gains the reporter as its last
      provider, if it is not listed and there is room, and nothing else; a newer
      one keeps everything.  Names that are not reported keep everything too. */
  lemma ReportedRecordIs(t: Table, b: Table, name: string)
    requires UniqueNames(b)
    ensures !Has(b, name) ==> Find(MergeBatch(t, b), name) == Find(t, name)
    ensures Has(b, name) ==> Has(MergeBatch(t, b), name)
    ensures Has(b, name) && (!Has(t, name) || Older(Get(t, name).version, Get(b, name).version)) ==>
      var e := Get(b, name);
      Get(MergeBatch(t, b), name) == Entry(name, e.version, e.ftype, e.status, [e.slots[0], "", "", "", ""])
    ensures Has(b, name) && Has(t, name) && Older(Get(b, name).version, Get(t, name).version) ==>
      Get(MergeBatch(t, b), name) == Get(t, name)
    ensures
      Has(b, name) && Has(t, name) && Get(b, name).version == Get(t, name).version && Packed(Get(t, name).slots) ==>
      var own, r, ip := Get(t, name), Get(MergeBatch(t, b), name), Get(b, name).slots[0];
      && r == own.(slots := r.slots)
      && Listed(r.slots) == Listed(own.slots) +
           if ip == "" || ip in Listed(own.slots) || Used(own.slots) == MAX_PEER_NUM then [] else [ip]
  {
    MergeAt(t, b, name);
    if Has(b, name) {
      var ip := Get(b, name).slots[0];
      assert Only(ip) == [ip, "", "", "", ""];
      if Has(t, name) && Packed(Get(t, name).slots) {
        AddAppends(Get(t, name).slots, ip);
        assert Listed(Get(t, name).slots) + [] == Listed(Get(t, name).slots);
      }
    }
  }

  /** Version, type and status of the two are the same. */
  predicate SameState(r: Entry, e: Entry) {
    r.name == e.name && r.version == e.version && r.ftype == e.ftype && r.status == e.status
  }

  /** Every record is, but for its providers, the old one or a reported one of its
      name, never a mixture. */
  lemma {:induction false} MergeNeverMixes(t: Table, b: Table, name: string)
    requires Has(MergeBatch(t, b), name)
    ensures var r := Get(MergeBatch(t, b), name);
      || (Has(t, name) && SameState(r, Get(t, name)))
      || exists e :: e in b && SameState(r, e)
  {
    if b != [] {
      var c, e := b[..|b| - 1], b[|b| - 1];
      assert b == c + [e];
      MergeOneAt(MergeBatch(t, c), e, name);
      if Has(MergeBatch(t, c), name) {
        MergeNeverMixes(t, c, name);
      }
      assert e in b;
    }
  }

  // ----- several batches -----

  function Flatten(bs: seq<Table>): Table {
    if bs == [] then [] else Flatten(bs[..|bs| - 1]) + bs[|bs| - 1]
  }

  lemma {:induction false} MergeConcat(t: Table, b: Table, c: Table)
    ensures MergeBatch(t, b + c) == MergeBatch(MergeBatch(t, b), c)
  {
    if c == [] {
      assert b + c == b;
    } else {
      var d := c[..|c| - 1];
      assert (b + c)[..|b + c| - 1] == b + d;
      MergeConcat(t, b, d);
    }
  }

  lemma {:induction false} MergeAllFlat(t: Table, bs: seq<Table>)
    ensures MergeAll(t, bs) == MergeBatch(t, Flatten(bs))
  {
    if bs != [] {
      var cs := bs[..|bs| - 1];
      MergeAllFlat(t, cs);
      MergeConcat(t, Flatten(cs), bs[|bs| - 1]);
    }
  }

  lemma VersionsOfConcat(b: Table, c: Table, name: string)
    ensures VersionsOf(b + c, name) == VersionsOf(b, name) + VersionsOf(c, name)
    decreases |c|
  {
    if c == [] {
      assert b + c == b;
    } else {
      var d, e := c[..|c| - 1], c[|c| - 1];
      assert c == d + [e];
      assert b + c == (b + d) + [e];
      VersionsOfConcat(b, d, name);
      VersionsOfAppend(b + d, e, name);
      VersionsOfAppend(d, e, name);
    }
  }

  lemma {:induction false} VersionsOfFlat(bs: seq<Table>, name: string, v: Version)
    ensures v in VersionsOf(Flatten(bs), name) <==> exists b :: b in bs && v in VersionsOf(b, name)
  {
    if bs != [] {
      var cs, b := bs[..|bs| - 1], bs[|bs| - 1];
      assert bs == cs + [b];
      VersionsOfConcat(Flatten(cs), b, name);
      VersionsOfFlat(cs, name, v);
      assert b in bs;
    }
  }

  /** Any order and any repetition of the same batches gives the same version map. */
  lemma BatchOrderIsIrrelevant(t: Table, bs: seq<Table>, cs: seq<Table>)
    requires UniqueNames(t)
    requires forall b :: b in bs <==> b in cs
    ensures SameVersions(MergeAll(t, bs), MergeAll(t, cs))
  {
    forall name ensures VersionsOf(Flatten(bs), name) == VersionsOf(Flatten(cs), name) {
      forall v ensures v in VersionsOf(Flatten(bs), name) <==> v in VersionsOf(Flatten(cs), name) {
        VersionsOfFlat(bs, name, v);
        VersionsOfFlat(cs, name, v);
      }
    }
    MergeAllFlat(t, bs);
    MergeAllFlat(t, cs);
    MergeIgnoresOrder(t, Flatten(bs), Flatten(cs));
  }

  // ----- order of the records -----

  function Names(t: Table): seq<string> {
    seq(|t|, i requires 0 <= i < |t| => t[i].name)
  }

  /** `old` followed by the first occurrences of the other names in `more`. */
  function WithNew(known: seq<string>, more: seq<string>): seq<string>
    decreases |more|
  {
    if more == [] then known
    else if more[0] in known then WithNew(known, more[1..])
    else WithNew(known + [more[0]], more[1..])
  }

  lemma {:induction false} WithNewAppend(known: seq<string>, more: seq<string>, x: string)
    ensures WithNew(known, more + [x]) == WithNew(WithNew(known, more), [x])
    decreases |more|
  {
    if more == [] {
      assert more + [x] == [x];
    } else {
      assert (more + [x])[1..] == more[1..] + [x];
      WithNewAppend(if more[0] in known then known else known + [more[0]], more[1..], x);
    }
  }

  /** Existing records keep their places; new names follow in the order in which
      they were first reported. */
  lemma {:induction false} MergeOrder(t: Table, b: Table)
    ensures Names(MergeBatch(t, b)) == WithNew(Names(t), Names(b))
  {
    if b == [] {
    } else {
      var c, e := b[..|b| - 1], b[|b| - 1];
      var m := MergeBatch(t, c);
      MergeOrder(t, c);
      assert Names(b) == Names(c) + [e.name];
      WithNewAppend(Names(t), Names(c), e.name);
      var k := IndexOf(m, e.name);
      if k < |m| {
        assert Names(m)[k] == e.name;
        assert Names(MergeOne(m, e)) == Names(m);
        assert WithNew(Names(m), [e.name]) == Names(m);
      } else {
        assert e.name !in Names(m);
        assert Names(MergeOne(m, e)) == Names(m) + [e.name];
        assert WithNew(Names(m), [e.name]) == Names(m) + [e.name];
      }
    }
  }

  // ----- what a covered version becomes -----

  lemma {:induction false} MergeKeepsCover(t: Table, b: Table, name: string, v: Version)
    requires Covers(t, name, v)
    ensures Covers(MergeBatch(t, b), name, v)
  {
    if b != [] {
      var c, e := b[..|b| - 1], b[|b| - 1];
      MergeKeepsCover(t, c, name, v);
      MergeOneAt(MergeBatch(t, c), e, name);
    }
  }

  lemma {:induction false} MergeCoversBatch(t: Table, b: Table, k: nat)
    requires k < |b|
    ensures Covers(MergeBatch(t, b), b[k].name, b[k].version)
  {
    var c, e := b[..|b| - 1], b[|b| - 1];
    if k < |c| {
      MergeCoversBatch(t, c, k);
    }
    MergeOneAt(MergeBatch(t, c), e, b[k].name);
  }

  // ----- removal -----

  ghost predicate GoodSlots(t: Table) {
    forall k :: 0 <= k < |t| ==> Packed(t[k].slots) && Distinct(t[k].slots)
  }

  lemma {:induction false} MergeKeepsGoodSlots(t: Table, b: Table)
    requires GoodSlots(t)
    ensures GoodSlots(MergeBatch(t, b))
  {
    if b != [] {
      var c, e := b[..|b| - 1], b[|b| - 1];
      var m := MergeBatch(t, c);
      MergeKeepsGoodSlots(t, c);
      OnlyIsGood(e.slots[0]);
      forall k | 0 <= k < |m| ensures Packed(Add(m[k].slots, e.slots[0])) && Distinct(Add(m[k].slots, e.slots[0])) {
        AddIsGood(m[k].slots, e.slots[0]);
      }
    }
  }

  /** delete_peer takes the address out of every record, adds none, loses no
      other, and changes nothing but the slots. */
  lemma RemovePeerIsExact(t: Table, ip: string)
    requires GoodSlots(t)
    ensures var r := RemovePeer(t, ip);
      && GoodSlots(r) && |r| == |t|
      && (forall k :: 0 <= k < |t| ==> r[k] == t[k].(slots := r[k].slots))
      && (forall k, a :: 0 <= k < |t| ==> (a in Listed(r[k].slots) <==> a in Listed(t[k].slots) && a != ip))
  {
    forall k | 0 <= k < |t|
      ensures var r := RemovePeer(t, ip)[k].slots; Packed(r) && Distinct(r)
      ensures forall a :: a in Listed(RemovePeer(t, ip)[k].slots) <==> a in Listed(t[k].slots) && a != ip
    {
      RemoveIsExact(t[k].slots, ip);
    }
  }
}
