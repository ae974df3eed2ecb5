/** Runs of the tracker's table under reports and departures, and what a
    record's provider list then says about who holds the file. */
module History {
  import opened Tables
  import opened Providers
  import opened Merge

  datatype Event = Report(entry: Entry) | Depart(ip: string)

  /** One reporter's claim to hold a version of a file. */
  datatype Claim = Claim(ip: string, name: string, version: Version)

  function TableAfter(events: seq<Event>): Table {
    if events == [] then []
    else
      var t := TableAfter(events[..|events| - 1]);
      match events[|events| - 1]
      case Report(e) => MergeOne(t, e)
      case Depart(ip) => RemovePeer(t, ip)
  }

  /** The claims made and not withdrawn by a later departure of their reporter. */
  ghost function ClaimsAfter(events: seq<Event>): set<Claim> {
    if events == [] then {}
    else
      var cs := ClaimsAfter(events[..|events| - 1]);
      match events[|events| - 1]
      case Report(e) => if e.slots[0] == "" then cs else cs + {Claim(e.slots[0], e.name, e.version)}
      case Depart(ip) => set c | c in cs && c.ip != ip
  }

  /** The addresses that claim exactly this version of a file. */
  ghost function Holders(cs: set<Claim>, name: string, v: Version): set<string> {
    set c | c in cs && c.name == name && c.version == v :: c.ip
  }

  /** Every record lists packed, distinct addresses that claim its very
      version, and no claim is newer than its record. */
  ghost predicate Sound(t: Table, cs: set<Claim>) {
    && UniqueNames(t)
    && GoodSlots(t)
    && (forall k, a :: 0 <= k < |t| && a in Listed(t[k].slots) ==> Claim(a, t[k].name, t[k].version) in cs)
    && (forall c :: c in cs ==> c.ip != "" && Covers(t, c.name, c.version))
  }

  lemma ReportIsSound(t: Table, cs: set<Claim>, e: Entry, ds: set<Claim>)
    requires Sound(t, cs)
    requires ds == if e.slots[0] == "" then cs else cs + {Claim(e.slots[0], e.name, e.version)}
    ensures Sound(MergeOne(t, e), ds)
  {
    var m, ip := MergeOne(t, e), e.slots[0];
    MergeOneKeepsNames(t, e);
    assert MergeBatch(t, []) == t;
    assert MergeBatch(t, [e]) == m by { assert [e][..0] == []; }
    MergeKeepsGoodSlots(t, [e]);
    OnlyIsGood(ip);
    forall k, a | 0 <= k < |m| && a in Listed(m[k].slots) ensures Claim(a, m[k].name, m[k].version) in ds {
      if k < |t| && m[k] != t[k] && m[k].version == t[k].version {
        AddIsGood(t[k].slots, ip);
      }
    }
    forall c | c in ds ensures c.ip != "" && Covers(m, c.name, c.version) {
      if c in cs {
        MergeKeepsCover(t, [e], c.name, c.version);
      } else {
        MergeCoversBatch(t, [e], 0);
      }
    }
  }

  lemma DepartIsSound(t: Table, cs: set<Claim>, ip: string)
    requires Sound(t, cs)
    ensures Sound(RemovePeer(t, ip), set c | c in cs && c.ip != ip)
  {
    RemovePeerIsExact(t, ip);
    forall c | c in cs ensures Covers(RemovePeer(t, ip), c.name, c.version) {
      IndexOfPrefix(t, RemovePeer(t, ip), c.name);
    }
  }

  /** Provider soundness over all runs. */
  lemma {:induction false} ProvidersAreSound(events: seq<Event>)
    ensures Sound(TableAfter(events), ClaimsAfter(events))
  {
    if events != [] {
      var es := events[..|events| - 1];
      ProvidersAreSound(es);
      match events[|events| - 1]
      case Report(e) => ReportIsSound(TableAfter(es), ClaimsAfter(es), e, ClaimsAfter(events));
      case Depart(ip) => DepartIsSound(TableAfter(es), ClaimsAfter(es), ip);
    }
  }

  // ----- completeness -----

  /** At no point of the run do more than MAX_PEER_NUM addresses claim the
      version its record holds. */
  ghost predicate NeverCrowded(events: seq<Event>) {
    forall n, k :: 0 <= n <= |events| && 0 <= k < |TableAfter(events[..n])| ==>
      var r := TableAfter(events[..n])[k];
      |Holders(ClaimsAfter(events[..n]), r.name, r.version)| <= MAX_PEER_NUM
  }

  /** Every record lists all who claim its version. */
  ghost predicate Complete(t: Table, cs: set<Claim>) {
    forall k, a :: 0 <= k < |t| && a in Holders(cs, t[k].name, t[k].version) ==> a in Listed(t[k].slots)
  }

  /** A duplicate-free list that fills all slots has that many members. */
  lemma FullListCount(s: Slots)
    requires Distinct(s) && Used(s) == MAX_PEER_NUM
    ensures |set a | a in Listed(s)| == MAX_PEER_NUM
  {
    assert (set a | a in Listed(s)) == {s[0], s[1], s[2], s[3], s[4]};
  }

  lemma SubsetCount<T>(a: set<T>, b: set<T>)
    requires a <= b
    ensures |a| <= |b|
  {
    if a != {} {
      var x :| x in a;
      SubsetCount(a - {x}, b - {x});
    }
  }

  /** A record that already lists everyone has room for one more claimant, if
      with it there are not too many. */
  lemma RoomForOne(s: Slots, ip: string, holders: set<string>)
    requires Packed(s) && Distinct(s) && ip in holders && ip !in Listed(s)
    requires |holders| <= MAX_PEER_NUM
    requires forall a :: a in Listed(s) ==> a in holders
    ensures Used(s) < MAX_PEER_NUM
  {
    if Used(s) == MAX_PEER_NUM {
      FullListCount(s);
      SubsetCount((set a | a in Listed(s)), holders - {ip});
      assert false;
    }
  }

  lemma ReportIsComplete(t: Table, cs: set<Claim>, e: Entry, ds: set<Claim>)
    requires Sound(t, cs) && Complete(t, cs)
    requires ds == if e.slots[0] == "" then cs else cs + {Claim(e.slots[0], e.name, e.version)}
    requires forall k :: 0 <= k < |MergeOne(t, e)| ==>
      |Holders(ds, MergeOne(t, e)[k].name, MergeOne(t, e)[k].version)| <= MAX_PEER_NUM
    ensures Complete(MergeOne(t, e), ds)
  {
    var m, ip := MergeOne(t, e), e.slots[0];
    OnlyIsGood(ip);
    forall k, a | 0 <= k < |m| && a in Holders(ds, m[k].name, m[k].version) ensures a in Listed(m[k].slots) {
      assert Claim(a, m[k].name, m[k].version) in ds;
      if k < |t| && m[k].version == t[k].version {
        if m[k].name == e.name && m[k].version == e.version {
          AddIsGood(t[k].slots, ip);
          if a == ip && ip !in Listed(t[k].slots) {
            var hs := Holders(ds, m[k].name, m[k].version);
            forall b | b in Listed(t[k].slots) ensures b in hs {
              assert Claim(b, m[k].name, m[k].version) in ds;
            }
            RoomForOne(t[k].slots, ip, hs);
          }
        }
        if a !in Listed(t[k].slots) {
          assert Claim(a, m[k].name, m[k].version) !in cs;
        }
      } else {
        MergeOneAt(t, e, e.name);
        assert Claim(a, m[k].name, m[k].version) !in cs;
      }
    }
  }

  /** In runs that are never crowded, a record lists exactly the addresses that
      reported its version and have not departed since. */
  lemma {:induction false} ProvidersAreComplete(events: seq<Event>)
    requires NeverCrowded(events)
    ensures var t, cs := TableAfter(events), ClaimsAfter(events);
      forall k, a :: 0 <= k < |t| ==> (a in Listed(t[k].slots) <==> a in Holders(cs, t[k].name, t[k].version))
  {
    AllListed(events);
    ProvidersAreSound(events);
  }

  lemma {:induction false} AllListed(events: seq<Event>)
    requires NeverCrowded(events)
    ensures Complete(TableAfter(events), ClaimsAfter(events))
  {
    if events != [] {
      var es := events[..|events| - 1];
      assert forall n :: 0 <= n <= |es| ==> es[..n] == events[..n];
      AllListed(es);
      ProvidersAreSound(es);
      match events[|events| - 1]
      case Report(e) =>
        var m := MergeOne(TableAfter(es), e);
        assert events[..|events|] == events && TableAfter(events) == m;
        forall k | 0 <= k < |m|
          ensures |Holders(ClaimsAfter(events), m[k].name, m[k].version)| <= MAX_PEER_NUM
        {
          assert m[k] == TableAfter(events[..|events|])[k];
        }
        ReportIsComplete(TableAfter(es), ClaimsAfter(es), e, ClaimsAfter(events));
      case Depart(ip) =>
        DepartIsComplete(TableAfter(es), ClaimsAfter(es), ip);
    }
  }

  lemma DepartIsComplete(t: Table, cs: set<Claim>, ip: string)
    requires Sound(t, cs) && Complete(t, cs)
    ensures Complete(RemovePeer(t, ip), set c | c in cs && c.ip != ip)
  {
    var r, ds := RemovePeer(t, ip), set c | c in cs && c.ip != ip;
    RemovePeerIsExact(t, ip);
    forall k, a | 0 <= k < |r| && a in Holders(ds, r[k].name, r[k].version) ensures a in Listed(r[k].slots) {
      assert Claim(a, t[k].name, t[k].version) in cs;
      assert a in Holders(cs, t[k].name, t[k].version);
    }
  }

  function Reports(b: Table): seq<Event> {
    seq(|b|, i requires 0 <= i < |b| => Report(b[i]))
  }

  lemma ReportsSnoc(c: Table, e: Entry)
    ensures Reports(c + [e]) == Reports(c) + [Report(e)]
  {
  }

  lemma TableAfterSnoc(events: seq<Event>, e: Entry)
    ensures TableAfter(events + [Report(e)]) == MergeOne(TableAfter(events), e)
  {
    assert (events + [Report(e)])[..|events|] == events;
  }

  /** A whole batch is the run that reports its entries one by one. */
  lemma {:induction false} BatchIsReports(events: seq<Event>, b: Table)
    ensures TableAfter(events + Reports(b)) == MergeBatch(TableAfter(events), b)
  {
    if b == [] {
      assert events + Reports(b) == events;
    } else {
      var c, e := b[..|b| - 1], b[|b| - 1];
      assert b == c + [e];
      BatchIsReports(events, c);
      ReportsSnoc(c, e);
      TableAfterSnoc(events + Reports(c), e);
      assert events + Reports(b) == (events + Reports(c)) + [Report(e)];
    }
  }
}
