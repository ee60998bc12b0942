/**
 (member index, signature) pairs, and the form a record gives them: a bitmap of
 the indices, and the signatures in ascending index order.
 */
module Signers {
  import opened Prelude

  datatype Pair<S> = Pair(index: nat, signature: S)

  function Indices<S>(pairs: seq<Pair<S>>): (r: seq<nat>)
    ensures |r| == |pairs|
  {
    seq(|pairs|, i requires 0 <= i < |pairs| => pairs[i].index)
  }

  function Signatures<S>(pairs: seq<Pair<S>>): (r: seq<S>)
    ensures |r| == |pairs|
  {
    seq(|pairs|, i requires 0 <= i < |pairs| => pairs[i].signature)
  }

  predicate Sorted<S>(pairs: seq<Pair<S>>) {
    forall i, j | 0 <= i < j < |pairs| :: pairs[i].index <= pairs[j].index
  }

  predicate Ascending(indices: seq<nat>) {
    forall i, j | 0 <= i < j < |indices| :: indices[i] < indices[j]
  }

  /** Inserts before the first pair with a larger or equal index. */
  function Insert<S>(pair: Pair<S>, pairs: seq<Pair<S>>): seq<Pair<S>> {
    if pairs == [] || pair.index <= pairs[0].index then [pair] + pairs
    else [pairs[0]] + Insert(pair, pairs[1..])
  }

  /** The stable sort by index. */
  function SortByIndex<S>(pairs: seq<Pair<S>>): seq<Pair<S>> {
    if pairs == [] then [] else Insert(pairs[0], SortByIndex(pairs[1..]))
  }

  lemma {:induction false} InsertPermutes<S>(pair: Pair<S>, pairs: seq<Pair<S>>)
    ensures multiset(Insert(pair, pairs)) == multiset(pairs) + multiset{pair}
  {
    if pairs != [] && pair.index > pairs[0].index {
      InsertPermutes(pair, pairs[1..]);
      assert pairs == [pairs[0]] + pairs[1..];
    }
  }

  lemma {:induction false} InsertSorted<S>(pair: Pair<S>, pairs: seq<Pair<S>>)
    requires Sorted(pairs)
    ensures Sorted(Insert(pair, pairs))
  {
    if pairs != [] && pair.index > pairs[0].index {
      InsertSorted(pair, pairs[1..]);
      InsertLeast(pair, pairs[1..], pairs[0].index);
    }
  }

  lemma {:induction false} InsertLeast<S>(pair: Pair<S>, pairs: seq<Pair<S>>, least: nat)
    requires pair.index >= least && forall i | 0 <= i < |pairs| :: pairs[i].index >= least
    ensures forall i | 0 <= i < |Insert(pair, pairs)| :: Insert(pair, pairs)[i].index >= least
  {
    if pairs != [] && pair.index > pairs[0].index {
      InsertLeast(pair, pairs[1..], least);
    }
  }

  lemma {:induction false} SortedPermutation<S>(pairs: seq<Pair<S>>)
    ensures Sorted(SortByIndex(pairs)) && multiset(SortByIndex(pairs)) == multiset(pairs)
    ensures |SortByIndex(pairs)| == |pairs|
  {
    if pairs != [] {
      SortedPermutation(pairs[1..]);
      InsertSorted(pairs[0], SortByIndex(pairs[1..]));
      InsertPermutes(pairs[0], SortByIndex(pairs[1..]));
      Tail(pairs);
    }
    SameSize(SortByIndex(pairs), pairs);
  }

  // -------------------------------------------------------------------- the bitmap

  /** The set bits' positions, ascending, counted from `base`. */
  function SetBits(bits: seq<bool>, base: nat): seq<nat> {
    if bits == [] then [] else (if bits[0] then [base] else []) + SetBits(bits[1..], base + 1)
  }

  function SignerIndices(bits: seq<bool>): seq<nat> {
    SetBits(bits, 0)
  }

  function Population(bits: seq<bool>): nat {
    |SignerIndices(bits)|
  }

  lemma {:induction false} SetBitsMember(bits: seq<bool>, base: nat, x: nat)
    ensures x in SetBits(bits, base) <==> base <= x < base + |bits| && bits[x - base]
  {
    if bits != [] {
      var rest := SetBits(bits[1..], base + 1);
      SetBitsMember(bits[1..], base + 1, x);
      assert x in SetBits(bits, base) <==> (bits[0] && x == base) || x in rest;
    }
  }

  lemma {:induction false} SetBitsAscending(bits: seq<bool>, base: nat)
    ensures Ascending(SetBits(bits, base))
  {
    if bits != [] {
      var rest := SetBits(bits[1..], base + 1);
      SetBitsAscending(bits[1..], base + 1);
      forall i | 0 <= i < |rest|
        ensures base < rest[i]
      {
        assert rest[i] in rest;
        SetBitsMember(bits[1..], base + 1, rest[i]);
      }
    }
  }

  lemma SetBitsExactly(bits: seq<bool>)
    ensures Ascending(SignerIndices(bits))
    ensures forall x :: x in SignerIndices(bits) <==> 0 <= x < |bits| && bits[x]
  {
    SetBitsAscending(bits, 0);
    forall x | x >= 0
      ensures x in SignerIndices(bits) <==> x < |bits| && bits[x]
    {
      SetBitsMember(bits, 0, x);
    }
  }

  /** Every index a bitmap names is one of its own positions. */
  lemma IndicesInRange(bits: seq<bool>)
    ensures Ascending(SignerIndices(bits)) && Population(bits) <= |bits|
    ensures forall i | 0 <= i < Population(bits) :: SignerIndices(bits)[i] < |bits|
  {
    SetBitsExactly(bits);
    assert forall i | 0 <= i < Population(bits) :: SignerIndices(bits)[i] in SignerIndices(bits);
    AscendingFits(SignerIndices(bits), |bits|);
  }

  lemma {:induction false} AscendingFits(indices: seq<nat>, n: nat)
    requires Ascending(indices) && forall x <- indices :: x < n
    ensures |indices| <= n
    decreases |indices|
  {
    if indices != [] {
      var k := |indices| - 1;
      assert indices[k] in indices;
      forall x | x in indices[..k]
        ensures x < indices[k]
      {
      }
      AscendingFits(indices[..k], indices[k]);
    }
  }

  lemma SameEmptiness(a: seq<nat>, b: seq<nat>)
    requires forall x :: x in a <==> x in b
    ensures a == [] <==> b == []
  {
    if a != [] {
      assert a[0] in b;
    }
    if b != [] {
      assert b[0] in a;
    }
  }

  /** Two ascending sequences of the same numbers are the same. */
  lemma {:induction false} AscendingUnique(a: seq<nat>, b: seq<nat>)
    requires Ascending(a) && Ascending(b) && forall x :: x in a <==> x in b
    ensures a == b
    decreases |a|
  {
    SameEmptiness(a, b);
    if a != [] {
      assert a[0] in b && b[0] in a;
      var i :| 0 <= i < |b| && b[i] == a[0];
      var j :| 0 <= j < |a| && a[j] == b[0];
      assert a[0] == b[0];
      forall x
        ensures x in a[1..] <==> x in b[1..]
      {
        assert a == [a[0]] + a[1..] && b == [b[0]] + b[1..];
        assert a[0] !in a[1..] && b[0] !in b[1..];
        assert x in a <==> x in b;
      }
      AscendingUnique(a[1..], b[1..]);
      assert a == [a[0]] + a[1..] && b == [b[0]] + b[1..];
    }
  }

  /** A bitmap of `n` bits with the given positions set. */
  function Marked(n: nat, indices: seq<nat>): (bits: seq<bool>)
    ensures |bits| == n
  {
    seq(n, i => i in indices)
  }

  lemma IndicesOfMarked(n: nat, indices: seq<nat>)
    requires Ascending(indices) && forall x <- indices :: x < n
    ensures SignerIndices(Marked(n, indices)) == indices
  {
    SetBitsExactly(Marked(n, indices));
    AscendingUnique(SignerIndices(Marked(n, indices)), indices);
  }

  lemma MarkedOfIndices(bits: seq<bool>)
    ensures Marked(|bits|, SignerIndices(bits)) == bits
  {
    SetBitsExactly(bits);
  }

  /** The loop that sets one bit per pair. */
  method SetSigners<S>(n: nat, pairs: seq<Pair<S>>) returns (bits: seq<bool>)
    requires forall p <- pairs :: p.index < n
    ensures bits == Marked(n, Indices(pairs))
  {
    var bitmap := new bool[n](_ => false);
    for k := 0 to |pairs|
      invariant forall i | 0 <= i < n :: bitmap[i] <==> i in Indices(pairs[..k])
    {
      assert pairs[k] in pairs;
      bitmap[pairs[k].index] := true;
      assert Indices(pairs[..k + 1]) == Indices(pairs[..k]) + [pairs[k].index];
    }
    assert pairs[..|pairs|] == pairs;
    return bitmap[..];
  }

  // --------------------------------------------------- pairs to bitmap and back

  /** `indices.zip(signatures)` */
  function Zip<S>(indices: seq<nat>, signatures: seq<S>): (pairs: seq<Pair<S>>) {
    var n := if |indices| <= |signatures| then |indices| else |signatures|;
    seq(n, i requires 0 <= i < n => Pair(indices[i], signatures[i]))
  }

  datatype PairsError = DuplicateSigner | SignerOutOfRange

  /** What the constructors refuse. */
  function PairsFault<S>(n: nat, pairs: seq<Pair<S>>): Option<PairsError> {
    var sorted := SortByIndex(pairs);
    if exists i | 0 <= i < |sorted| - 1 :: sorted[i].index == sorted[i + 1].index then Some(DuplicateSigner)
    else if sorted != [] && sorted[|sorted| - 1].index >= n then Some(SignerOutOfRange)
    else None
  }

  lemma {:induction false} NoEqualNeighbours<S>(pairs: seq<Pair<S>>)
    requires Sorted(pairs) && forall i | 0 <= i < |pairs| - 1 :: pairs[i].index != pairs[i + 1].index
    ensures Ascending(Indices(pairs))
  {
    forall i, j | 0 <= i < j < |pairs|
      ensures pairs[i].index < pairs[j].index
    {
      assert pairs[i].index != pairs[i + 1].index;
      assert pairs[i].index <= pairs[i + 1].index <= pairs[j].index;
    }
  }

  /** Pairs that pass come back from the bitmap exactly, in ascending order. */
  lemma PairsRoundTrip<S>(n: nat, pairs: seq<Pair<S>>)
    requires PairsFault(n, pairs).None?
    ensures var sorted := SortByIndex(pairs);
      && Ascending(Indices(sorted)) && (forall x <- Indices(sorted) :: x < n)
      && SignerIndices(Marked(n, Indices(sorted))) == Indices(sorted)
      && Zip(Indices(sorted), Signatures(sorted)) == sorted
  {
    var sorted := SortByIndex(pairs);
    SortedPermutation(pairs);
    assert forall i | 0 <= i < |sorted| - 1 :: sorted[i].index != sorted[i + 1].index;
    NoEqualNeighbours(sorted);
    forall x | x in Indices(sorted)
      ensures x < n
    {
      var i :| 0 <= i < |sorted| && sorted[i].index == x;
      assert sorted[i].index <= sorted[|sorted| - 1].index;
    }
    IndicesOfMarked(n, Indices(sorted));
  }

  /** Pairs are refused exactly when a member is named twice, or is no member. */
  lemma PairsFaultExactly<S>(n: nat, pairs: seq<Pair<S>>)
    ensures PairsFault(n, pairs).None? <==>
      Distinct(Indices(pairs)) && forall x <- Indices(pairs) :: x < n
    ensures PairsFault(n, pairs) == Some(DuplicateSigner) <==> !Distinct(Indices(pairs))
  {
    hide SortByIndex, Sorted, PairsFault;
    DuplicatesFound(n, pairs);
    var sorted := SortByIndex(pairs);
    SortedPermutation(pairs);
    IndicesPermute(pairs, sorted);
    if PairsFault(n, pairs).None? {
      PairsRoundTrip(n, pairs);
      DistinctPermute(Indices(sorted), Indices(pairs));
      AllBelowPermute(Indices(sorted), Indices(pairs), n);
    }
    if Distinct(Indices(pairs)) && forall x <- Indices(pairs) :: x < n {
      DistinctPermute(Indices(pairs), Indices(sorted));
      AllBelowPermute(Indices(pairs), Indices(sorted), n);
      DistinctIsFaultless(n, pairs);
    }
  }

  /** In sorted order a repeat is a pair of equal neighbours. */
  lemma DuplicatesFound<S>(n: nat, pairs: seq<Pair<S>>)
    ensures PairsFault(n, pairs) == Some(DuplicateSigner) <==> !Distinct(Indices(pairs))
  {
    hide SortByIndex;
    var sorted := SortByIndex(pairs);
    SortedPermutation(pairs);
    IndicesPermute(pairs, sorted);
    if PairsFault(n, pairs) == Some(DuplicateSigner) {
      var i :| 0 <= i < |sorted| - 1 && sorted[i].index == sorted[i + 1].index;
      assert Indices(sorted)[i] == Indices(sorted)[i + 1];
      if Distinct(Indices(pairs)) {
        DistinctPermute(Indices(pairs), Indices(sorted));
        assert false;
      }
    } else {
      assert forall i | 0 <= i < |sorted| - 1 :: sorted[i].index != sorted[i + 1].index;
      NoEqualNeighbours(sorted);
      DistinctPermute(Indices(sorted), Indices(pairs));
    }
  }

  lemma DistinctIsFaultless<S>(n: nat, pairs: seq<Pair<S>>)
    requires var s := Indices(SortByIndex(pairs)); Distinct(s) && forall x <- s :: x < n
    ensures PairsFault(n, pairs).None?
  {
    hide SortByIndex, PairsFault;
    FaultByIndices(n, pairs);
    var s := Indices(SortByIndex(pairs));
    if s != [] {
      assert s[|s| - 1] in s;
    }
  }

  lemma AllBelowPermute(a: seq<nat>, b: seq<nat>, n: nat)
    requires multiset(a) == multiset(b) && forall x <- a :: x < n
    ensures forall x <- b :: x < n
  {
    forall x | x in b
      ensures x < n
    {
      assert x in multiset(b) && x in multiset(a);
      assert x in a;
    }
  }

  lemma Without<T>(s: seq<T>, j: nat)
    requires j < |s|
    ensures multiset(s[..j] + s[j + 1..]) == multiset(s) - multiset{s[j]}
  {
    assert s == s[..j] + [s[j]] + s[j + 1..];
  }

  lemma IndicesWithout<S>(pairs: seq<Pair<S>>, j: nat)
    requires j < |pairs|
    ensures pairs[j].index in multiset(Indices(pairs))
    ensures multiset(Indices(pairs[..j] + pairs[j + 1..])) == multiset(Indices(pairs)) - multiset{pairs[j].index}
  {
    var all := Indices(pairs);
    assert all[j] == pairs[j].index;
    assert Indices(pairs[..j] + pairs[j + 1..]) == all[..j] + all[j + 1..];
    Without(all, j);
  }

  lemma SameSize<T>(a: seq<T>, b: seq<T>)
    requires multiset(a) == multiset(b)
    ensures |a| == |b|
  {
    assert |multiset(a)| == |a| && |multiset(b)| == |b|;
  }

  /** Taking one pair out of both sides leaves permutations of each other. */
  lemma TakeOut<S>(p: seq<Pair<S>>, q: seq<Pair<S>>) returns (p': seq<Pair<S>>, q': seq<Pair<S>>)
    requires multiset(p) == multiset(q) && p != []
    ensures |p'| < |p| && multiset(p') == multiset(q')
    ensures var x := p[0].index;
      && x in multiset(Indices(p)) && x in multiset(Indices(q))
      && multiset(Indices(p')) == multiset(Indices(p)) - multiset{x}
      && multiset(Indices(q')) == multiset(Indices(q)) - multiset{x}
  {
    hide Indices;
    assert p[0] in multiset(q);
    var j :| 0 <= j < |q| && q[j] == p[0];
    p', q' := p[..0] + p[1..], q[..j] + q[j + 1..];
    Without(p, 0);
    Without(q, j);
    IndicesWithout(p, 0);
    IndicesWithout(q, j);
  }

  lemma {:induction false} IndicesPermute<S>(p: seq<Pair<S>>, q: seq<Pair<S>>)
    requires multiset(p) == multiset(q)
    ensures multiset(Indices(p)) == multiset(Indices(q))
    decreases |p|
  {
    hide Indices;
    SameSize(p, q);
    if p == [] {
      assert Indices(p) == Indices(q) == [];
    } else {
      var p', q' := TakeOut(p, q);
      IndicesPermute(p', q');
      Restore(multiset(Indices(p)), multiset(Indices(q)), p[0].index);
    }
  }

  lemma Restore<T>(a: multiset<T>, b: multiset<T>, x: T)
    requires x in a && x in b && a - multiset{x} == b - multiset{x}
    ensures a == b
  {
    forall y
      ensures a[y] == b[y]
    {
      assert (a - multiset{x})[y] == (b - multiset{x})[y];
    }
  }

  lemma DistinctPermute(a: seq<nat>, b: seq<nat>)
    requires multiset(a) == multiset(b)
    requires Distinct(a)
    ensures Distinct(b)
  {
    forall i, j | 0 <= i < j < |b|
      ensures b[i] != b[j]
    {
      if b[i] == b[j] {
        Twice(b, i, j);
        Once(a, b[i]);
        assert false;
      }
    }
  }

  lemma Twice(s: seq<nat>, i: nat, j: nat)
    requires i < j < |s| && s[i] == s[j]
    ensures multiset(s)[s[i]] >= 2
  {
    assert s == s[..i] + [s[i]] + s[i + 1..j] + [s[j]] + s[j + 1..];
  }

  lemma {:induction false} Once(s: seq<nat>, x: nat)
    requires Distinct(s)
    ensures multiset(s)[x] <= 1
    decreases |s|
  {
    if s != [] {
      var k := |s| - 1;
      assert s == s[..k] + [s[k]];
      Once(s[..k], x);
      if s[k] == x {
        assert x !in s[..k];
      }
    }
  }

  predicate NonDescending(s: seq<nat>) {
    forall i, j | 0 <= i < j < |s| :: s[i] <= s[j]
  }

  /** Sorting has one result. */
  lemma {:induction false} SortedUnique(a: seq<nat>, b: seq<nat>)
    requires NonDescending(a) && NonDescending(b) && multiset(a) == multiset(b)
    ensures a == b
    decreases |a|
  {
    SameSize(a, b);
    if a == [] {
      assert b == [];
    } else {
      SameLeast(a, b);
      Tail(a);
      Tail(b);
      SortedUnique(a[1..], b[1..]);
      assert a == [a[0]] + a[1..] && b == [b[0]] + b[1..];
    }
  }

  lemma SameLeast(a: seq<nat>, b: seq<nat>)
    requires NonDescending(a) && NonDescending(b) && multiset(a) == multiset(b) && a != [] && b != []
    ensures a[0] == b[0]
  {
    assert a[0] in multiset(b) && b[0] in multiset(a);
  }

  lemma Tail<T>(s: seq<T>)
    requires s != []
    ensures multiset(s[1..]) == multiset(s) - multiset{s[0]}
  {
    Without(s, 0);
    assert s[..0] + s[1..] == s[1..];
  }

  /** The order the pairs arrive in changes nothing. */
  lemma OrderIrrelevant<S>(n: nat, p: seq<Pair<S>>, q: seq<Pair<S>>)
    requires multiset(p) == multiset(q)
    ensures PairsFault(n, p) == PairsFault(n, q)
    ensures PairsFault(n, p).None? ==> SortByIndex(p) == SortByIndex(q)
  {
    hide SortByIndex, Sorted, Indices;
    var a, b := SortByIndex(p), SortByIndex(q);
    SortedPermutation(p);
    SortedPermutation(q);
    SortedIndices(a);
    SortedIndices(b);
    IndicesPermute(a, b);
    SortedUnique(Indices(a), Indices(b));
    FaultByIndices(n, p);
    FaultByIndices(n, q);
    if PairsFault(n, p).None? {
      PairsRoundTrip(n, p);
      SameOrder(a, b);
    }
  }

  lemma SortedIndices<S>(pairs: seq<Pair<S>>)
    requires Sorted(pairs)
    ensures NonDescending(Indices(pairs))
  {
  }

  /** The verdict depends on the sorted indices alone. */
  lemma FaultByIndices<S>(n: nat, pairs: seq<Pair<S>>)
    ensures var s := Indices(SortByIndex(pairs));
      PairsFault(n, pairs) ==
        if exists i | 0 <= i < |s| - 1 :: s[i] == s[i + 1] then Some(DuplicateSigner)
        else if s != [] && s[|s| - 1] >= n then Some(SignerOutOfRange)
        else None
  {
    hide SortByIndex;
    var sorted := SortByIndex(pairs);
    assert forall i | 0 <= i < |sorted| :: Indices(sorted)[i] == sorted[i].index;
  }

  /** Equal contents, equal distinct indices: equal sequences. */
  lemma SameOrder<S>(a: seq<Pair<S>>, b: seq<Pair<S>>)
    requires multiset(a) == multiset(b) && Indices(a) == Indices(b) && Ascending(Indices(a))
    ensures a == b
  {
    SameSize(a, b);
    forall i | 0 <= i < |a|
      ensures a[i] == b[i]
    {
      assert a[i] in multiset(b);
      var j :| 0 <= j < |b| && b[j] == a[i];
      assert Indices(a)[i] == Indices(a)[j];
    }
  }

  lemma PairsInRange<S>(n: nat, pairs: seq<Pair<S>>)
    requires forall x <- Indices(pairs) :: x < n
    ensures forall p <- pairs :: p.index < n
  {
    forall p | p in pairs
      ensures p.index < n
    {
      var i :| 0 <= i < |pairs| && pairs[i] == p;
      assert Indices(pairs)[i] in Indices(pairs);
    }
  }

  lemma {:induction false} AscendingSorted<S>(pairs: seq<Pair<S>>)
    requires Ascending(Indices(pairs))
    ensures SortByIndex(pairs) == pairs
  {
    if pairs != [] {
      assert forall i | 0 <= i < |pairs| :: Indices(pairs)[i] == pairs[i].index;
      assert Indices(pairs[1..]) == Indices(pairs)[1..];
      AscendingSorted(pairs[1..]);
      assert pairs == [pairs[0]] + pairs[1..];
    }
  }

  /** What a bitmap and its signatures zip to is accepted, and gives them back. */
  lemma EvidenceSorted<S>(bits: seq<bool>, signatures: seq<S>)
    requires Population(bits) == |signatures|
    ensures var pairs := Zip(SignerIndices(bits), signatures);
      && PairsFault(|bits|, pairs).None? && SortByIndex(pairs) == pairs
      && Marked(|bits|, Indices(pairs)) == bits && Signatures(pairs) == signatures
  {
    hide SignerIndices, SortByIndex;
    var pairs := Zip(SignerIndices(bits), signatures);
    IndicesInRange(bits);
    assert Indices(pairs) == SignerIndices(bits) && Signatures(pairs) == signatures;
    AscendingSorted(pairs);
    assert forall i | 0 <= i < |pairs| :: Indices(pairs)[i] == pairs[i].index;
    MarkedOfIndices(bits);
  }

  lemma SameElements<T>(a: seq<T>, b: seq<T>)
    requires multiset(a) == multiset(b)
    ensures (forall i | 0 <= i < |a| :: a[i] in b) && (forall i | 0 <= i < |b| :: b[i] in a)
  {
    forall x
      ensures x in a <==> x in b
    {
      assert x in multiset(a) <==> x in multiset(b);
    }
    assert forall i | 0 <= i < |a| :: a[i] in a;
    assert forall i | 0 <= i < |b| :: b[i] in b;
  }

  /** Every pair is good, whatever that means for its kind of signature. */
  predicate AllGood<S>(good: Pair<S> -> bool, pairs: seq<Pair<S>>) {
    forall i | 0 <= i < |pairs| :: good(pairs[i])
  }

  lemma AllGoodPermute<S>(good: Pair<S> -> bool, a: seq<Pair<S>>, b: seq<Pair<S>>)
    requires multiset(a) == multiset(b)
    ensures AllGood(good, a) <==> AllGood(good, b)
  {
    SameElements(a, b);
  }
}
