/** Byte strings, machine integers and their little-endian form. */
module ByteStrings {

  const U32_MAX: nat := 0xFFFF_FFFF
  const U64_MAX: nat := 0xFFFF_FFFF_FFFF_FFFF

  type byte = x: int | 0 <= x < 256
  type u32 = x: int | 0 <= x <= 0xFFFF_FFFF
  type u64 = x: int | 0 <= x <= 0xFFFF_FFFF_FFFF_FFFF
  type Bytes = seq<byte>

  function Zeros(n: nat): (b: Bytes)
    ensures |b| == n
    ensures forall i :: 0 <= i < n ==> b[i] == 0
  {
    seq(n, _ => 0)
  }

  /** Hashes of 32 and 48 bytes. Nothing but the length is assumed of them. */
  type Hash32 = h: Bytes -> Bytes | HasDigests(h, 32) witness b => Zeros(32)
  type Hash48 = h: Bytes -> Bytes | HasDigests(h, 48) witness b => Zeros(48)

  ghost predicate HasDigests(h: Bytes -> Bytes, n: nat) {
    forall b {:trigger Digest(h, b)} :: |Digest(h, b)| == n
  }

  function Digest(h: Bytes -> Bytes, b: Bytes): Bytes {
    h(b)
  }

  /** Two inputs with one digest: the evidence a binding theorem hands back. */
  ghost predicate Collision(h: Bytes -> Bytes, x: Bytes, y: Bytes) {
    x != y && Digest(h, x) == Digest(h, y)
  }

  function Pow256(n: nat): (p: nat)
    ensures p >= 1
  {
    if n == 0 then 1 else 256 * Pow256(n - 1)
  }

  /** The low `n` bytes of `x`, least significant first. */
  function Le(x: nat, n: nat): (b: Bytes)
    ensures |b| == n
    decreases n, x
  {
    if n == 0 then [] else [x % 256] + Le(x / 256, n - 1)
  }

  function FromLe(b: Bytes): (x: nat)
    ensures x < Pow256(|b|)
  {
    if |b| == 0 then 0 else b[0] + 256 * FromLe(b[1..])
  }

  lemma {:induction false} FromLeOfLe(x: nat, n: nat)
    requires x < Pow256(n)
    ensures FromLe(Le(x, n)) == x
    decreases n, x
  {
    if n > 0 {
      FromLeOfLe(x / 256, n - 1);
      assert Le(x, n)[1..] == Le(x / 256, n - 1);
    }
  }

  lemma {:induction false} LeOfFromLe(b: Bytes)
    ensures Le(FromLe(b), |b|) == b
  {
    hide Pow256;
    if |b| > 0 {
      LeOfFromLe(b[1..]);
      LowByte(b[0], FromLe(b[1..]));
      assert b == [b[0]] + b[1..];
    }
  }

  lemma LowByte(low: byte, high: nat)
    ensures (low + 256 * high) % 256 == low && (low + 256 * high) / 256 == high
  {
  }

  lemma Pow256Values()
    ensures Pow256(4) == U32_MAX + 1
    ensures Pow256(8) == U64_MAX + 1
  {
    assert Pow256(4) == 256 * (256 * (256 * (256 * Pow256(0))));
    assert Pow256(8) == 256 * (256 * (256 * (256 * Pow256(4))));
  }

  /** Byte `i` is the one of weight 256^i. */
  lemma {:induction false} LeAt(x: nat, n: nat, i: nat)
    requires i < n
    ensures Le(x, n)[i] == x / Pow256(i) % 256
    decreases i
  {
    if i > 0 {
      LeAt(x / 256, n - 1, i - 1);
      DivideTwice(x, 256, Pow256(i - 1));
    }
  }

  lemma DivideTwice(x: nat, base: nat, d: nat)
    requires (base == 2 || base == 256) && d > 0
    ensures base * d > 0 && x / base / d == x / (base * d)
  {
    var q: nat, s: nat := x / base, x / base / d;
    var r := q % d;
    Remainder(q, d, s, r);
    if base == 2 {
      Nested(x, 2, q, x % 2, d, s, r);
    } else {
      Nested(x, 256, q, x % 256, d, s, r);
    }
  }

  lemma Remainder(q: nat, d: nat, s: nat, r: nat)
    requires d > 0 && s == q / d && r == q % d
    ensures q == d * s + r && r < d
  {
  }

  lemma Nested(x: nat, base: nat, q: nat, low: nat, d: nat, s: nat, r: nat)
    requires (base == 2 || base == 256) && low < base && d > 0 && r < d
    requires x == base * q + low && q == d * s + r
    ensures base * d > 0 && x / (base * d) == s
  {
    if base == 2 {
      QuotientIs(x, 2 * d, s, 2 * r + low);
    } else {
      QuotientIs(x, 256 * d, s, 256 * r + low);
    }
  }

  lemma QuotientIs(x: nat, d: nat, q: nat, r: int)
    requires d > 0 && 0 <= r < d && x == d * q + r
    ensures x / d == q
  {
    assert x == d * (x / d) + x % d;
    Multiple(d, x / d - q);
  }

  lemma Multiple(d: int, k: int)
    ensures -d < d * k < d ==> k == 0
  {
  }

  /** `part` stands in `whole` from byte `at` on. */
  predicate StandsAt(whole: Bytes, at: nat, part: Bytes) {
    at + |part| <= |whole| && whole[at..at + |part|] == part
  }

  /** And so does the number `x`, in `n` bytes, the least significant first. */
  predicate NumberAt(whole: Bytes, at: nat, n: nat, x: nat) {
    at + n <= |whole| && forall i | 0 <= i < n :: whole[at..][i] == x / Pow256(i) % 256
  }

  lemma Placed(before: Bytes, part: Bytes, after: Bytes)
    ensures StandsAt(before + part + after, |before|, part)
  {
  }

  lemma PlacedLater(head: Bytes, rest: Bytes, at: nat, part: Bytes)
    requires StandsAt(rest, at, part)
    ensures StandsAt(head + rest, |head| + at, part)
  {
    assert (head + rest)[|head| + at..|head| + at + |part|] == rest[at..at + |part|];
  }

  lemma PlacedNumber(before: Bytes, x: nat, n: nat, after: Bytes)
    ensures NumberAt(before + Le(x, n) + after, |before|, n, x)
  {
    hide Le, Pow256;
    var whole := before + Le(x, n) + after;
    forall i | 0 <= i < n
      ensures whole[|before|..][i] == x / Pow256(i) % 256
    {
      LeAt(x, n, i);
    }
  }

  /** `data` with `rec` written over it at offset `at`. */
  function Splice(data: Bytes, at: nat, rec: Bytes): (r: Bytes)
    requires at + |rec| <= |data|
    ensures |r| == |data|
    ensures r[at..at + |rec|] == rec
    ensures forall i :: 0 <= i < |data| && !(at <= i < at + |rec|) ==> r[i] == data[i]
  {
    data[..at] + rec + data[at + |rec|..]
  }

  /** Writes `src` into `a` at offset `at`, as `copy_from_slice` does. */
  method CopyInto(a: array<byte>, at: nat, src: Bytes)
    requires at + |src| <= a.Length
    modifies a
    ensures a[..] == Splice(old(a[..]), at, src)
  {
    forall i | 0 <= i < |src| {
      a[at + i] := src[i];
    }
  }
}
