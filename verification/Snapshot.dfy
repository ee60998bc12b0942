/**
 Changes to the snapshot of valid credentials, each named by its fingerprint: what an
 issuance and a revocation leave, entry by entry and place by place.
 */
module Snapshot {
  import opened ByteStrings

  /** Some requests do not decode; others decode and are refused for what they ask. */
  datatype Request = Undecodable | Improper | Issue(entry: Bytes) | Revoke(entry: Bytes)

  datatype Edit = Changed(list: seq<Bytes>) | Rejected | Clash

  /** `retain`: everything but `entry`. */
  function Without(list: seq<Bytes>, entry: Bytes): (r: seq<Bytes>)
    ensures forall e :: e in r <==> e in list && e != entry
  {
    if list == [] then [] else (if list[0] == entry then [] else [list[0]]) + Without(list[1..], entry)
  }

  function Edited(list: seq<Bytes>, request: Request): Edit {
    match request
    case Issue(entry) => if entry in list then Clash else Changed(list + [entry])
    case Revoke(entry) => if entry in list then Changed(Without(list, entry)) else Rejected
    case _ => Rejected
  }

  // ---------------------------------------------------------- what a change leaves

  /** `kept` names, in order, the places of `list` that do not hold `entry`; `rest` is what stands there. */
  ghost predicate Retains(list: seq<Bytes>, entry: Bytes, rest: seq<Bytes>, kept: seq<nat>) {
    && |rest| == |kept|
    && (forall j, k | 0 <= j < k < |kept| :: kept[j] < kept[k])
    && (forall i: nat :: i in kept <==> i < |list| && list[i] != entry)
    && (forall k | 0 <= k < |kept| :: kept[k] < |list| && rest[k] == list[kept[k]])
  }

  /** `after` is the snapshot that a request leaves of the snapshot `before`. */
  ghost predicate Applies(request: Request, before: seq<Bytes>, after: seq<Bytes>) {
    match request
    case Issue(entry) => entry !in before && after == before + [entry]
    case Revoke(entry) => entry in before && exists kept :: Retains(before, entry, after, kept)
    case _ => false
  }

  lemma {:induction false} WithoutLast(list: seq<Bytes>, last: Bytes, entry: Bytes)
    ensures Without(list + [last], entry) == Without(list, entry) + if last == entry then [] else [last]
  {
    if list == [] {
      assert [last][1..] == [];
    } else {
      assert (list + [last])[1..] == list[1..] + [last];
      WithoutLast(list[1..], last, entry);
    }
  }

  lemma RetainsMore(head: seq<Bytes>, last: Bytes, entry: Bytes, rest: seq<Bytes>, kept: seq<nat>)
    requires Retains(head, entry, rest, kept)
    ensures last == entry ==> Retains(head + [last], entry, rest, kept)
    ensures last != entry ==> Retains(head + [last], entry, rest + [last], kept + [|head|])
  {
    assert forall k | 0 <= k < |kept| :: kept[k] in kept;
    var list, more := head + [last], kept + [|head|];
    forall i: nat
      ensures i in more <==> i in kept || i == |head|
    {
      assert more[|kept|] == |head|;
    }
  }

  lemma {:induction false} WithoutCounts(list: seq<Bytes>, entry: Bytes)
    ensures multiset(Without(list, entry)) == multiset(list)[entry := 0]
  {
    if list != [] {
      WithoutCounts(list[1..], entry);
      assert list == [list[0]] + list[1..];
    }
  }

  /** Removing an entry keeps the order of the others. */
  lemma {:induction false} WithoutRetains(list: seq<Bytes>, entry: Bytes) returns (kept: seq<nat>)
    ensures Retains(list, entry, Without(list, entry), kept)
    decreases |list|
  {
    hide Retains, Without;
    kept := NoneRetained(entry);
    if list != [] {
      var n := |list| - 1;
      var head, last := list[..n], list[n];
      assert list == head + [last];
      WithoutLast(head, last, entry);
      kept := WithoutRetains(head, entry);
      RetainsMore(head, last, entry, Without(head, entry), kept);
      assert Without(head, entry) + [] == Without(head, entry);
      if last != entry {
        kept := kept + [n];
      }
    }
  }

  lemma WithoutNone(entry: Bytes)
    ensures Without([], entry) == []
  {
  }

  lemma NoneRetained(entry: Bytes) returns (kept: seq<nat>)
    ensures kept == [] && Retains([], entry, Without([], entry), kept)
  {
    kept := [];
  }

  /** Nothing else is retained in this sense. */
  lemma {:induction false} RetainsOnce(list: seq<Bytes>, entry: Bytes, rest: seq<Bytes>, kept: seq<nat>)
    requires Retains(list, entry, rest, kept)
    ensures rest == Without(list, entry)
    decreases |list|
  {
    hide Without, Retains;
    if list == [] {
      NothingRetained(entry, rest, kept);
      WithoutNone(entry);
    } else {
      var n := |list| - 1;
      var head, last := list[..n], list[n];
      assert list == head + [last];
      WithoutLast(head, last, entry);
      RetainsLess(head, last, entry, rest, kept);
      if last == entry {
        RetainsOnce(head, entry, rest, kept);
        assert Without(head, entry) + [] == Without(head, entry);
      } else {
        var m := |kept| - 1;
        RetainsOnce(head, entry, rest[..m], kept[..m]);
      }
    }
  }

  lemma NothingRetained(entry: Bytes, rest: seq<Bytes>, kept: seq<nat>)
    requires Retains([], entry, rest, kept)
    ensures rest == []
  {
    if kept != [] {
      FirstIsIn(kept);
      assert false;
    }
  }

  lemma FirstIsIn(kept: seq<nat>)
    requires kept != []
    ensures kept[0] in kept
  {
  }

  lemma RetainsLess(head: seq<Bytes>, last: Bytes, entry: Bytes, rest: seq<Bytes>, kept: seq<nat>)
    requires Retains(head + [last], entry, rest, kept)
    ensures last == entry ==> Retains(head, entry, rest, kept)
    ensures last != entry ==>
      var m := |kept| - 1;
      0 <= m < |rest| && rest == rest[..m] + [last] && Retains(head, entry, rest[..m], kept[..m])
  {
    var list, n := head + [last], |head|;
    assert forall i: nat | i < n :: list[i] == head[i];
    assert forall k | 0 <= k < |kept| :: kept[k] in kept;
    assert list[n] == last && (n in kept <==> last != entry);
    if last != entry {
      LargestIsLast(kept, n);
      RetainsFewer(list, entry, rest, kept, n);
    }
  }

  lemma RetainsFewer(list: seq<Bytes>, entry: Bytes, rest: seq<Bytes>, kept: seq<nat>, n: nat)
    requires Retains(list, entry, rest, kept) && |list| == n + 1
    requires kept != [] && kept[|kept| - 1] == n && kept == kept[..|kept| - 1] + [n]
    ensures var m := |kept| - 1;
      rest == rest[..m] + [list[n]] && Retains(list[..n], entry, rest[..m], kept[..m])
  {
    var m := |kept| - 1;
    forall i: nat
      ensures i in kept[..m] <==> i < n && list[i] != entry
    {
      assert i in kept <==> i in kept[..m] || i == n;
      if i in kept[..m] {
        var k :| 0 <= k < m && kept[..m][k] == i;
        assert kept[k] < kept[m];
      }
    }
    assert forall k | 0 <= k < m :: kept[..m][k] == kept[k] && kept[..m][k] in kept[..m];
  }

  lemma LargestIsLast(kept: seq<nat>, n: nat)
    requires n in kept && forall i <- kept :: i <= n
    requires forall j, k | 0 <= j < k < |kept| :: kept[j] < kept[k]
    ensures kept[|kept| - 1] == n && kept == kept[..|kept| - 1] + [n]
  {
    assert kept[|kept| - 1] in kept;
  }

  /** Each outcome of a request, in terms of the snapshot it meets. */
  lemma EditedExactly(list: seq<Bytes>, request: Request, after: seq<Bytes>)
    ensures Edited(list, request) == Changed(after) <==> Applies(request, list, after)
    ensures Edited(list, request) == Clash <==> request.Issue? && request.entry in list
    ensures Edited(list, request) == Rejected <==>
      request.Undecodable? || request.Improper? || (request.Revoke? && request.entry !in list)
  {
    if request.Revoke? {
      var kept := WithoutRetains(list, request.entry);
      forall places | Retains(list, request.entry, after, places)
        ensures after == Without(list, request.entry)
      {
        RetainsOnce(list, request.entry, after, places);
      }
    }
  }

  /** A revoked credential is gone, and every other one counts as often as before. */
  lemma RevokedIsAbsent(list: seq<Bytes>, entry: Bytes, after: seq<Bytes>)
    requires Applies(Revoke(entry), list, after)
    ensures forall e :: e in after <==> e in list && e != entry
    ensures multiset(after) == multiset(list)[entry := 0]
  {
    var kept :| Retains(list, entry, after, kept);
    RetainsOnce(list, entry, after, kept);
    WithoutCounts(list, entry);
  }
}
