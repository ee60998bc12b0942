/**
 What a member signs: the BLAKE2s digest of a framed statement, prefixed by the
 digest of the anchor's trust domain; and the slot it signs at.
 */
module Statement {
  import opened Prelude
  import opened ByteStrings
  import opened Text
  import opened Ssz
  import opened Anchor

  datatype Algorithm = WotsXmss

  const MESSAGE_FORMAT: u32 := 2
  const DOMAIN_CONTEXT: string := "decentralized-root-of-trust/status-list-domain"
  const MESSAGE_CONTEXT: string := "decentralized-root-of-trust/status-list-message"
  const ENTRY_BYTES: nat := 32

  function AlgorithmTag(alg: Algorithm): byte {
    match alg case WotsXmss => 1
  }

  datatype TagError = Retired | Unknown(tag: byte)

  function AlgorithmFromTag(tag: byte): Result<Algorithm, TagError> {
    if tag == 1 then Ok(WotsXmss) else if tag == 0 then Err(Retired) else Err(Unknown(tag))
  }

  function Context(s: string): Bytes {
    if IsAscii(s) then AsciiBytes(s) else []
  }

  function DomainPreimage(fingerprint: Bytes, alg: Algorithm): Bytes {
    Context(DOMAIN_CONTEXT) + Le(MESSAGE_FORMAT, 4) + [AlgorithmTag(alg)] + fingerprint
  }

  function MessagePreimage(domain: Bytes, list: seq<Bytes>, version: u32): Bytes {
    Context(MESSAGE_CONTEXT) + domain + Le(version, 4) + Le(|list|, 8) + Flatten(list)
  }

  function Domain(blake2s: Hash32, fingerprint: Bytes, alg: Algorithm): Bytes {
    Digest(blake2s, DomainPreimage(fingerprint, alg))
  }

  /** `message_for` */
  function Message(blake2s: Hash32, c: Committee, alg: Algorithm, list: seq<Bytes>, version: u32): Bytes {
    Digest(blake2s, MessagePreimage(Domain(blake2s, c.fingerprint, alg), list, version))
  }

  /** The slot of a version: none past the last 32-bit slot. */
  function SlotFor(genesis: u32, version: u32): Option<u32> {
    if genesis + version <= U32_MAX then Some(genesis + version) else None
  }

  /** The slot numbered genesis + version, if that is a 32-bit number; so no two versions share one. */
  lemma SlotExactly(genesis: u32, version: u32, slot: u32, other: u32)
    ensures SlotFor(genesis, version) == Some(slot) <==> slot == genesis + version
    ensures SlotFor(genesis, version) == Some(slot) == SlotFor(genesis, other) ==> version == other
  {
  }

  /** A streaming hash: what it was fed is all that matters. */
  class Hasher {
    const hash: Bytes -> Bytes
    var absorbed: Bytes

    constructor (hash: Bytes -> Bytes)
      ensures this.hash == hash && absorbed == []
    {
      this.hash, absorbed := hash, [];
    }

    method Update(data: Bytes)
      modifies this
      ensures absorbed == old(absorbed) + data
    {
      absorbed := absorbed + data;
    }

    function Finalize(): Bytes
      reads this
    {
      Digest(hash, absorbed)
    }
  }

  lemma NothingBefore(data: Bytes)
    ensures [] + data == data
  {
  }

  method NewDomain(blake2s: Hash32, fingerprint: Bytes, alg: Algorithm) returns (domain: Bytes)
    ensures domain == Domain(blake2s, fingerprint, alg)
  {
    hide Context, Le;
    var hasher := new Hasher(blake2s);
    hasher.Update(Context(DOMAIN_CONTEXT));
    NothingBefore(Context(DOMAIN_CONTEXT));
    hasher.Update(Le(MESSAGE_FORMAT, 4));
    hasher.Update([AlgorithmTag(alg)]);
    hasher.Update(fingerprint);
    return hasher.Finalize();
  }

  lemma {:induction false} FlattenAppend(items: seq<Bytes>, item: Bytes)
    ensures Flatten(items + [item]) == Flatten(items) + item
  {
    if items == [] {
      assert Flatten([item]) == item + Flatten([]);
    } else {
      FlattenAppend(items[1..], item);
      assert (items + [item])[1..] == items[1..] + [item];
    }
  }

  lemma FlattenNone(items: seq<Bytes>)
    ensures Flatten(items[..0]) == []
  {
  }

  lemma FlattenNext(items: seq<Bytes>, i: nat)
    requires i < |items|
    ensures Flatten(items[..i + 1]) == Flatten(items[..i]) + items[i]
  {
    assert items[..i + 1] == items[..i] + [items[i]];
    FlattenAppend(items[..i], items[i]);
  }

  lemma Assoc(a: Bytes, b: Bytes, c: Bytes)
    ensures a + b + c == a + (b + c)
  {
  }

  method UpdateAll(hasher: Hasher, items: seq<Bytes>)
    modifies hasher
    ensures hasher.absorbed == old(hasher.absorbed) + Flatten(items)
  {
    hide Flatten;
    ghost var before := hasher.absorbed;
    FlattenNone(items);
    for i := 0 to |items|
      invariant hasher.absorbed == before + Flatten(items[..i])
    {
      hasher.Update(items[i]);
      FlattenNext(items, i);
      Assoc(before, Flatten(items[..i]), items[i]);
    }
    assert items[..|items|] == items;
  }

  method StatusListMessage(blake2s: Hash32, domain: Bytes, list: seq<Bytes>, version: u32) returns (message: Bytes)
    ensures message == Digest(blake2s, MessagePreimage(domain, list, version))
  {
    hide Context, Le, Flatten;
    var hasher := new Hasher(blake2s);
    hasher.Update(Context(MESSAGE_CONTEXT));
    NothingBefore(Context(MESSAGE_CONTEXT));
    hasher.Update(domain);
    hasher.Update(Le(version, 4));
    hasher.Update(Le(|list|, 8));
    UpdateAll(hasher, list);
    return hasher.Finalize();
  }

  // ----------------------------------------------------------------- what is bound

  lemma SameFront(a: Bytes, b: Bytes, c: Bytes, d: Bytes)
    requires a + b == c + d && |a| == |c|
    ensures a == c && b == d
  {
    Unappend(a, b);
    Unappend(c, d);
  }

  lemma LeInjective(x: nat, y: nat, n: nat)
    requires x < Pow256(n) && y < Pow256(n) && Le(x, n) == Le(y, n)
    ensures x == y
  {
    FromLeOfLe(x, n);
    FromLeOfLe(y, n);
  }

  lemma FlattenInjective(a: seq<Bytes>, b: seq<Bytes>, size: nat)
    requires size > 0 && AllOfSize(a, size) && AllOfSize(b, size) && Flatten(a) == Flatten(b)
    ensures a == b
  {
    ChunksOfFlatten(a, size);
    ChunksOfFlatten(b, size);
  }

  /** The framing is unambiguous: it can be read back. */
  lemma MessagePreimageInjective(d: Bytes, e: Bytes, list: seq<Bytes>, list': seq<Bytes>, version: u32, version': u32)
    requires |d| == |e| && AllOfSize(list, ENTRY_BYTES) && AllOfSize(list', ENTRY_BYTES)
    requires MessagePreimage(d, list, version) == MessagePreimage(e, list', version')
    ensures d == e && list == list' && version == version'
  {
    hide Context, Le, Flatten;
    var m := Context(MESSAGE_CONTEXT);
    SameFront(m + d + Le(version, 4) + Le(|list|, 8), Flatten(list),
              m + e + Le(version', 4) + Le(|list'|, 8), Flatten(list'));
    SameFront(m + d + Le(version, 4), Le(|list|, 8), m + e + Le(version', 4), Le(|list'|, 8));
    SameFront(m + d, Le(version, 4), m + e, Le(version', 4));
    SameFront(m, d, m, e);
    Pow256Values();
    LeInjective(version, version', 4);
    FlattenInjective(list, list', ENTRY_BYTES);
  }

  /** A context string stands for its characters, one byte each. */
  lemma ContextIs(s: string)
    requires IsAscii(s)
    ensures |Context(s)| == |s| && forall i | 0 <= i < |s| :: Context(s)[i] == s[i] as int
  {
  }

  lemma DomainContextIsAscii()
    ensures IsAscii(DOMAIN_CONTEXT) && |DOMAIN_CONTEXT| == 46
  {
    hide IsAscii;
    ScopeIsAscii();
    AsciiAppend("decentralized-root-of-trust/", "status-list-domain");
    assert DOMAIN_CONTEXT == "decentralized-root-of-trust/" + "status-list-domain";
  }

  lemma MessageContextIsAscii()
    ensures IsAscii(MESSAGE_CONTEXT) && |MESSAGE_CONTEXT| == 47
  {
    hide IsAscii;
    ScopeIsAscii();
    AsciiAppend("decentralized-root-of-trust/", "status-list-message");
    assert MESSAGE_CONTEXT == "decentralized-root-of-trust/" + "status-list-message";
  }

  lemma ScopeIsAscii()
    ensures IsAscii("decentralized-root-of-trust/")
    ensures IsAscii("status-list-domain") && IsAscii("status-list-message")
  {
  }

  /** These characters stand from byte `at` on, one byte each. */
  predicate TextAt(whole: Bytes, at: nat, text: string) {
    at + |text| <= |whole| && forall i | 0 <= i < |text| :: whole[at..][i] == text[i] as int
  }

  lemma PlacedText(text: string, after: Bytes)
    requires IsAscii(text)
    ensures TextAt(Context(text) + after, 0, text)
  {
    ContextIs(text);
  }

  /**
   The domain's preimage, place by place: 46 characters, the format's number, the
   algorithm's tag, the anchor's fingerprint.
   */
  lemma DomainLayout(fingerprint: Bytes, alg: Algorithm)
    ensures var d := DomainPreimage(fingerprint, alg);
      && |d| == 51 + |fingerprint| && TextAt(d, 0, "decentralized-root-of-trust/status-list-domain")
      && NumberAt(d, 46, 4, 2) && d[50] == 1 && StandsAt(d, 51, fingerprint)
  {
    DomainContextIsAscii();
    ContextIs(DOMAIN_CONTEXT);
    hide Context, Le, IsAscii, NumberAt, TextAt, StandsAt;
    var d, c, n, tag := DomainPreimage(fingerprint, alg), Context(DOMAIN_CONTEXT), Le(MESSAGE_FORMAT, 4), [1];
    assert d == c + (n + (tag + fingerprint)) == c + n + (tag + fingerprint);
    PlacedText(DOMAIN_CONTEXT, n + (tag + fingerprint));
    PlacedNumber(c, MESSAGE_FORMAT, 4, tag + fingerprint);
    Placed(c + n + tag, fingerprint, []);
    assert c + n + tag + fingerprint + [] == d;
  }

  /**
   The message's preimage, place by place: 47 characters, the domain, the version and the
   number of entries in little-endian bytes, and each entry at its own 32 bytes.
   */
  lemma MessageLayout(domain: Bytes, list: seq<Bytes>, version: u32)
    requires |domain| == 32 && AllOfSize(list, ENTRY_BYTES)
    ensures var m := MessagePreimage(domain, list, version);
      && |m| == 91 + ENTRY_BYTES * |list| && TextAt(m, 0, "decentralized-root-of-trust/status-list-message")
      && StandsAt(m, 47, domain) && NumberAt(m, 79, 4, version) && NumberAt(m, 83, 8, |list|)
      && forall i | 0 <= i < |list| :: StandsAt(m, 91 + i * ENTRY_BYTES, list[i])
  {
    MessageContextIsAscii();
    ContextIs(MESSAGE_CONTEXT);
    hide Context, Le, IsAscii, Flatten, NumberAt, TextAt, StandsAt;
    var c, v, n, entries := Context(MESSAGE_CONTEXT), Le(version, 4), Le(|list|, 8), Flatten(list);
    var m, head := MessagePreimage(domain, list, version), c + domain + v + n;
    FlattenLength(list, ENTRY_BYTES);
    Regroup(c, domain, v, n, entries);
    PlacedText(MESSAGE_CONTEXT, domain + (v + (n + entries)));
    Placed(c, domain, v + (n + entries));
    PlacedNumber(c + domain, version, 4, n + entries);
    PlacedNumber(c + domain + v, |list|, 8, entries);
    forall i | 0 <= i < |list|
      ensures StandsAt(m, 91 + i * ENTRY_BYTES, list[i])
    {
      EntryPlaced(head, list, i);
    }
  }

  lemma Regroup(a: Bytes, b: Bytes, c: Bytes, d: Bytes, e: Bytes)
    ensures a + b + c + d + e == a + (b + (c + (d + e)))
    ensures a + b + c + d + e == a + b + (c + (d + e))
    ensures a + b + c + d + e == a + b + c + (d + e)
  {
  }

  lemma EntryPlaced(head: Bytes, list: seq<Bytes>, i: nat)
    requires AllOfSize(list, ENTRY_BYTES) && i < |list|
    ensures StandsAt(head + Flatten(list), |head| + i * ENTRY_BYTES, list[i])
  {
    hide Flatten;
    FlattenAt(list, ENTRY_BYTES, i);
    PlacedLater(head, Flatten(list), i * ENTRY_BYTES, list[i]);
  }

  lemma DomainPreimageInjective(f: Bytes, g: Bytes, alg: Algorithm, alg': Algorithm)
    requires DomainPreimage(f, alg) == DomainPreimage(g, alg')
    ensures f == g && alg == alg'
  {
    hide Context, Le;
    var p := Context(DOMAIN_CONTEXT) + Le(MESSAGE_FORMAT, 4);
    SameFront(p + [AlgorithmTag(alg)], f, p + [AlgorithmTag(alg')], g);
  }

  /**
   One signed message is about one committee, list and version; otherwise it hands
   back two inputs that one of the two hash functions maps to one value.
   */
  lemma MessageBinds(h: Hashes, c: Committee, c': Committee, alg: Algorithm, alg': Algorithm,
                     list: seq<Bytes>, list': seq<Bytes>, version: u32, version': u32)
    requires Coherent(h.sha3, c) && Coherent(h.sha3, c')
    requires AllOfSize(list, ENTRY_BYTES) && AllOfSize(list', ENTRY_BYTES)
    requires Message(h.blake2s, c, alg, list, version) == Message(h.blake2s, c', alg', list', version')
    ensures
      || (c == c' && list == list' && version == version')
      || Collision(h.sha3, ToBytes(c), ToBytes(c'))
      || Collision(h.blake2s, DomainPreimage(c.fingerprint, alg), DomainPreimage(c'.fingerprint, alg'))
      || Collision(h.blake2s,
           MessagePreimage(Domain(h.blake2s, c.fingerprint, alg), list, version),
           MessagePreimage(Domain(h.blake2s, c'.fingerprint, alg'), list', version'))
  {
    hide MessagePreimage, DomainPreimage, Coherent, ToBytes;
    var d, d' := Domain(h.blake2s, c.fingerprint, alg), Domain(h.blake2s, c'.fingerprint, alg');
    if MessagePreimage(d, list, version) == MessagePreimage(d', list', version') {
      MessagePreimageInjective(d, d', list, list', version, version');
      if DomainPreimage(c.fingerprint, alg) == DomainPreimage(c'.fingerprint, alg') {
        DomainPreimageInjective(c.fingerprint, c'.fingerprint, alg, alg');
        FingerprintBinds(h.sha3, c, c');
      }
    }
  }
}
