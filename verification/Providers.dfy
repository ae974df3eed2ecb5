/** The provider slots of one record: how update_filetable adds an address and
    how delete_peer takes one out (tracker/tracker.c). */
module Providers {
  import opened Tables

  const NO_SLOTS: Slots := ["", "", "", "", ""]

  /** First unset slot at or after `from`, or the number of slots. */
  function FirstEmpty(s: Slots, from: nat): (n: nat)
    requires from <= MAX_PEER_NUM
    ensures from <= n <= MAX_PEER_NUM
    ensures forall i :: from <= i < n ==> s[i] != ""
    ensures n < MAX_PEER_NUM ==> s[n] == ""
    decreases MAX_PEER_NUM - from
  {
    if from == MAX_PEER_NUM || s[from] == "" then from else FirstEmpty(s, from + 1)
  }

  /** Length of the prefix of slots that every scan in the program looks at. */
  function Used(s: Slots): (n: nat)
    ensures n <= MAX_PEER_NUM
    ensures forall i :: 0 <= i < n ==> s[i] != ""
    ensures n < MAX_PEER_NUM ==> s[n] == ""
  {
    FirstEmpty(s, 0)
  }

  /** The addresses a scan finds. */
  function Listed(s: Slots): seq<string> {
    s[..Used(s)]
  }

  /** No address hides behind an unset slot. */
  ghost predicate Packed(s: Slots) {
    forall i :: Used(s) <= i < MAX_PEER_NUM ==> s[i] == ""
  }

  ghost predicate Distinct(s: Slots) {
    forall i, j :: 0 <= i < j < Used(s) ==> s[i] != s[j]
  }

  /** An array whose first slot alone is filled in. */
  function Only(ip: string): Slots {
    NO_SLOTS[0 := ip]
  }

  /** Append an address unless it is listed already or no slot is left. */
  function Add(s: Slots, ip: string): Slots {
    if ip in Listed(s) || Used(s) == MAX_PEER_NUM then s else s[Used(s) := ip]
  }

  /** Overwrite slot `index` by the last address after it and clear that one. */
  function DropAt(s: Slots, index: nat): Slots
    requires index < MAX_PEER_NUM
  {
    var last := FirstEmpty(s, index + 1) - 1;
    s[index := s[last]][last := ""]
  }

  /** The scan of delete_peer from slot `index` on.  The address moved into a
      slot is not looked at again. */
  function RemoveFrom(s: Slots, ip: string, index: nat): Slots
    requires index <= MAX_PEER_NUM
    decreases MAX_PEER_NUM - index
  {
    if index == MAX_PEER_NUM || s[index] == "" then s
    else RemoveFrom(if s[index] == ip then DropAt(s, index) else s, ip, index + 1)
  }

  function Remove(s: Slots, ip: string): Slots {
    RemoveFrom(s, ip, 0)
  }

  lemma OnlyIsGood(ip: string)
    ensures Packed(Only(ip)) && Distinct(Only(ip))
    ensures Listed(Only(ip)) == if ip == "" then [] else [ip]
  {
  }

  /** The slot count of a packed array is where the addresses stop. */
  lemma UsedIs(s: Slots, n: nat)
    requires n <= MAX_PEER_NUM
    requires forall i :: 0 <= i < n ==> s[i] != ""
    requires n < MAX_PEER_NUM ==> s[n] == ""
    ensures Used(s) == n
  {
  }

  /** Adding keeps the array packed and duplicate-free, and adds just the given
      address, if there is one and there is room for it. */
  lemma AddIsGood(s: Slots, ip: string)
    requires Packed(s) && Distinct(s)
    ensures Packed(Add(s, ip)) && Distinct(Add(s, ip))
    ensures forall a :: a in Listed(Add(s, ip)) <==>
      a in Listed(s) || (a == ip != "" && Used(s) < MAX_PEER_NUM)
  {
  }

  /** The new address becomes the last one, and the others keep their places; an
      address that is listed, and any address for a full array, changes nothing. */
  lemma AddAppends(s: Slots, ip: string)
    requires Packed(s)
    ensures Add(s, ip) == s <==> ip == "" || ip in Listed(s) || Used(s) == MAX_PEER_NUM
    ensures Add(s, ip) != s ==> Listed(Add(s, ip)) == Listed(s) + [ip] && Packed(Add(s, ip))
  {
    if ip != "" && ip !in Listed(s) && Used(s) < MAX_PEER_NUM {
      var n, r := Used(s), Add(s, ip);
      assert r[n] == ip && forall i :: 0 <= i < MAX_PEER_NUM && i != n ==> r[i] == s[i];
      UsedIs(r, n + 1);
    }
  }

  lemma {:induction false} RemoveAbsent(s: Slots, ip: string, index: nat)
    requires index <= MAX_PEER_NUM
    requires ip == "" || forall i :: index <= i < MAX_PEER_NUM ==> s[i] != ip
    ensures RemoveFrom(s, ip, index) == s
    decreases MAX_PEER_NUM - index
  {
    if index < MAX_PEER_NUM && s[index] != "" {
      RemoveAbsent(s, ip, index + 1);
    }
  }

  /** Dropping slot `k` of a packed array fills it with the last address. */
  lemma DropAtShape(s: Slots, k: nat)
    requires Packed(s) && Distinct(s) && k < Used(s)
    ensures var n := Used(s); var r := DropAt(s, k);
      && r == s[k := s[n - 1]][n - 1 := ""]
      && Used(r) == n - 1 && Packed(r) && Distinct(r)
  {
    DropShape(s, k);
  }

  lemma DropAtMembers(s: Slots, k: nat, a: string)
    requires Packed(s) && Distinct(s) && k < Used(s)
    ensures a in Listed(DropAt(s, k)) <==> a in Listed(s) && a != s[k]
  {
    DropAtShape(s, k);
    var n, r := Used(s), DropAt(s, k);
    if a in Listed(r) {
      var i :| 0 <= i < n - 1 && r[i] == a;
      assert s[if i == k then n - 1 else i] == a;
    }
    if a in Listed(s) && a != s[k] {
      var i :| 0 <= i < n && s[i] == a;
      assert r[if i == n - 1 then k else i] == a;
    }
  }

  lemma {:induction false} RemoveFromIsGood(s: Slots, ip: string, index: nat)
    requires Packed(s) && Distinct(s) && index <= MAX_PEER_NUM
    requires forall i :: 0 <= i < index ==> s[i] != ip
    ensures var r := RemoveFrom(s, ip, index);
      && Packed(r) && Distinct(r)
      && (forall a :: a in Listed(r) <==> a in Listed(s) && a != ip)
    decreases MAX_PEER_NUM - index
  {
    if index == MAX_PEER_NUM || s[index] == "" {
      assert Used(s) <= index;
    } else if s[index] == ip {
      var r := DropAt(s, index);
      DropAtShape(s, index);
      forall a ensures a in Listed(r) <==> a in Listed(s) && a != ip {
        DropAtMembers(s, index, a);
      }
      assert forall i :: index < i < MAX_PEER_NUM ==> r[i] != ip;
      RemoveAbsent(r, ip, index + 1);
    } else {
      RemoveFromIsGood(s, ip, index + 1);
    }
  }

  /** Removal is exact on packed, duplicate-free arrays, although the address
      that is swapped in is never examined. */
  lemma RemoveIsExact(s: Slots, ip: string)
    requires Packed(s) && Distinct(s)
    ensures Packed(Remove(s, ip)) && Distinct(Remove(s, ip))
    ensures forall a :: a in Listed(Remove(s, ip)) <==> a in Listed(s) && a != ip
  {
    RemoveFromIsGood(s, ip, 0);
  }

  /** Only the last address moves, into the place of the one that goes. */
  lemma RemoveMovesLast(s: Slots, k: nat)
    requires Packed(s) && Distinct(s) && k < Used(s)
    ensures var n := Used(s); Remove(s, s[k]) == s[k := s[n - 1]][n - 1 := ""]
    ensures forall ip :: ip !in Listed(s) ==> Remove(s, ip) == s
  {
    var n := Used(s);
    RemoveReaches(s, k, 0);
    DropAtShape(s, k);
    assert forall i :: k < i < MAX_PEER_NUM ==> DropAt(s, k)[i] != s[k];
    RemoveAbsent(DropAt(s, k), s[k], k + 1);
    forall ip | ip !in Listed(s) ensures Remove(s, ip) == s {
      if ip != "" {
        assert forall i :: 0 <= i < MAX_PEER_NUM ==> s[i] != ip;
      }
      RemoveAbsent(s, ip, 0);
    }
  }

  lemma {:induction false} RemoveReaches(s: Slots, k: nat, index: nat)
    requires Packed(s) && Distinct(s) && index <= k < Used(s)
    ensures RemoveFrom(s, s[k], index) == RemoveFrom(DropAt(s, k), s[k], k + 1)
    decreases k - index
  {
    if index < k {
      RemoveReaches(s, k, index + 1);
    }
  }

  // ----- what removal does without that invariant -----

  /** How often an address is listed from slot `index` on. */
  function Count(s: Slots, ip: string, index: nat): nat
    requires index <= MAX_PEER_NUM
    decreases MAX_PEER_NUM - index
  {
    if index == MAX_PEER_NUM || s[index] == "" then 0
    else (if s[index] == ip then 1 else 0) + Count(s, ip, index + 1)
  }

  /** There is room for that many among the slots from `index` on, one less if
      the last one is taken by another address. */
  lemma CountFits(s: Slots, ip: string, index: nat)
    requires Packed(s) && index <= Used(s)
    ensures Count(s, ip, index) <= Used(s) - index
    ensures index < Used(s) && s[Used(s) - 1] != ip ==> Count(s, ip, index) < Used(s) - index
  {
  }

  lemma {:induction false} CountSame(s: Slots, r: Slots, ip: string, index: nat)
    requires Packed(s) && Packed(r) && index <= Used(r) && Used(r) + 1 == Used(s) && s[Used(r)] != ip
    requires forall i :: index <= i < Used(r) ==> r[i] == s[i]
    ensures Count(r, ip, index) == Count(s, ip, index)
    decreases MAX_PEER_NUM - index
  {
    if index < Used(r) {
      CountSame(s, r, ip, index + 1);
    } else {
      assert Count(s, ip, index + 1) == 0;
    }
  }

  lemma DropShape(s: Slots, k: nat)
    requires Packed(s) && k < Used(s)
    ensures var n := Used(s); var r := DropAt(s, k);
      r == s[k := s[n - 1]][n - 1 := ""] && Used(r) == n - 1 && Packed(r)
  {
  }

  /** The scan leaves the slots it has passed alone. */
  lemma {:induction false} PassedStay(s: Slots, ip: string, index: nat)
    requires Packed(s) && index <= Used(s)
    ensures var r := RemoveFrom(s, ip, index); index <= Used(r) && forall i :: 0 <= i < index ==> r[i] == s[i]
    decreases MAX_PEER_NUM - index
  {
    if index < Used(s) {
      if s[index] == ip {
        DropShape(s, index);
        if index + 1 <= Used(DropAt(s, index)) {
          PassedStay(DropAt(s, index), ip, index + 1);
        }
      } else {
        PassedStay(s, ip, index + 1);
      }
    }
  }

  /** None of the last Count - 1 addresses is the one to be removed. */
  ghost predicate TailClear(s: Slots, ip: string, index: nat)
    requires index <= MAX_PEER_NUM
  {
    forall i :: 0 <= i < Used(s) && Used(s) - Count(s, ip, index) < i ==> s[i] != ip
  }

  lemma CountLast(s: Slots, ip: string, index: nat)
    requires Packed(s) && index < Used(s) && s[Used(s) - 1] == ip
    ensures Count(s, ip, index) >= 1
  {
  }

  /** The address is moved to the slot just passed, and stays. */
  lemma MovedStays(s: Slots, ip: string, k: nat)
    requires Packed(s) && ip != "" && k < Used(s) - 1 && s[k] == ip && s[Used(s) - 1] == ip
    ensures ip in Listed(RemoveFrom(s, ip, k)) && !TailClear(s, ip, k)
  {
    DropShape(s, k);
    PassedStay(DropAt(s, k), ip, k + 1);
    assert RemoveFrom(s, ip, k)[k] == ip;
    CountLast(s, ip, k + 1);
  }

  /** Another address is moved there, and the question is that of the slots after it. */
  lemma TailClearNext(s: Slots, ip: string, k: nat)
    requires Packed(s) && ip != "" && k < Used(s) - 1 && s[k] == ip && s[Used(s) - 1] != ip
    requires forall i :: 0 <= i < k ==> s[i] != ip
    ensures TailClear(DropAt(s, k), ip, k + 1) <==> TailClear(s, ip, k)
  {
    var r, n := DropAt(s, k), Used(s);
    DropShape(s, k);
    CountSame(s, r, ip, k + 1);
    CountFits(s, ip, k);
    assert Count(s, ip, k) == Count(r, ip, k + 1) + 1;
    forall i | k < i < n - 1 ensures r[i] == s[i] {
    }
  }

  lemma {:induction false} RemoveFromCompleteIff(s: Slots, ip: string, k: nat)
    requires Packed(s) && k <= Used(s) && ip != ""
    requires forall i :: 0 <= i < k ==> s[i] != ip
    ensures ip !in Listed(RemoveFrom(s, ip, k)) <==> TailClear(s, ip, k)
    decreases MAX_PEER_NUM - k
  {
    var n := Used(s);
    if k == n {
      assert Count(s, ip, k) == 0;
    } else if s[k] != ip {
      RemoveFromCompleteIff(s, ip, k + 1);
    } else if k == n - 1 {
      DropShape(s, k);
      assert Count(s, ip, k + 1) == 0;
    } else if s[n - 1] == ip {
      MovedStays(s, ip, k);
    } else {
      DropShape(s, k);
      TailClearNext(s, ip, k);
      RemoveFromCompleteIff(DropAt(s, k), ip, k + 1);
    }
  }

  /** In a packed array that may list an address several times, say m times, the
      scan takes all of them out exactly if none of the last m - 1 slots in use
      holds it: otherwise one is moved to a slot that is not looked at again. */
  lemma RemoveIsCompleteIff(s: Slots, ip: string)
    requires Packed(s) && ip != ""
    ensures ip !in Listed(Remove(s, ip)) <==> TailClear(s, ip, 0)
  {
    RemoveFromCompleteIff(s, ip, 0);
  }

  /** The smallest case in which it does not. */
  lemma DuplicateSurvives(ip: string)
    requires ip != ""
    ensures var s: Slots := [ip, ip, "", "", ""]; Packed(s) && Listed(Remove(s, ip)) == [ip]
  {
  }
}
