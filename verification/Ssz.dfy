/**
 SimpleSerialize, as far as the published objects use it: containers, lists of
 fixed-size items and bitlists (Ethereum consensus-specs, SimpleSerialize,
 "Serialization" and "Deserialization"). Each codec is proved a bijection.
 */
module Ssz {
  import opened Prelude
  import opened ByteStrings

  // ---------------------------------------------------------------- containers

  /** One field of a container: fixed-size bytes in place, or an offset to bytes. */
  datatype Field = Fixed(size: nat) | Variable {
    function HeadSize(): nat { if Fixed? then size else 4 }
  }

  predicate Fits(schema: seq<Field>, values: seq<Bytes>) {
    |schema| == |values| && forall i | 0 <= i < |schema| && schema[i].Fixed? :: |values[i]| == schema[i].size
  }

  function HeadSize(schema: seq<Field>): nat {
    if schema == [] then 0 else schema[0].HeadSize() + HeadSize(schema[1..])
  }

  /** What the first field puts in place, and what it puts aside. */
  function InPlace(field: Field, value: Bytes, at: nat): (b: Bytes)
    requires field.Fixed? ==> |value| == field.size
    ensures |b| == field.HeadSize()
  {
    if field.Fixed? then value else Le(at, 4)
  }

  function Aside(field: Field, value: Bytes): Bytes {
    if field.Fixed? then [] else value
  }

  /** The in-place part; `at` is where the next variable field's bytes begin. */
  function Heads(schema: seq<Field>, values: seq<Bytes>, at: nat): (b: Bytes)
    requires Fits(schema, values)
    ensures |b| == HeadSize(schema)
  {
    if schema == [] then []
    else
      InPlace(schema[0], values[0], at)
      + Heads(schema[1..], values[1..], at + |Aside(schema[0], values[0])|)
  }

  function Tails(schema: seq<Field>, values: seq<Bytes>): Bytes
    requires Fits(schema, values)
  {
    if schema == [] then [] else Aside(schema[0], values[0]) + Tails(schema[1..], values[1..])
  }

  /** One step of the two sizes. */
  lemma SizeStep(schema: seq<Field>, values: seq<Bytes>)
    requires schema != [] && Fits(schema, values)
    ensures HeadSize(schema) == schema[0].HeadSize() + HeadSize(schema[1..])
    ensures |Tails(schema, values)| == |Aside(schema[0], values[0])| + |Tails(schema[1..], values[1..])|
  {
  }

  lemma PartsStep(schema: seq<Field>, values: seq<Bytes>, at: nat)
    requires schema != [] && Fits(schema, values)
    ensures Heads(schema, values, at)
         == InPlace(schema[0], values[0], at) + Heads(schema[1..], values[1..], at + |Aside(schema[0], values[0])|)
    ensures Tails(schema, values) == Aside(schema[0], values[0]) + Tails(schema[1..], values[1..])
  {
  }

  function Encode(schema: seq<Field>, values: seq<Bytes>): (b: Bytes)
    requires Fits(schema, values)
    ensures |b| == HeadSize(schema) + |Tails(schema, values)|
  {
    Heads(schema, values, HeadSize(schema)) + Tails(schema, values)
  }

  /** The standard's assertion: every length is below 2^32. */
  function Serialize(schema: seq<Field>, values: seq<Bytes>): Option<Bytes>
    requires Fits(schema, values)
  {
    var b := Encode(schema, values);
    if |b| <= U32_MAX then Some(b) else None
  }

  /** The first offset among the remaining heads, or the end of the input. */
  function NextOffset(schema: seq<Field>, head: Bytes, end: nat): nat
    requires |head| == HeadSize(schema)
  {
    if schema == [] then end
    else if schema[0].Variable? then FromLe(head[..4])
    else NextOffset(schema[1..], head[schema[0].size..], end)
  }

  /** The first field, and how many of the bytes put aside are its own; these begin at `at`. */
  function Cut(schema: seq<Field>, head: Bytes, aside: Bytes, at: nat): (r: Option<(Bytes, nat)>)
    requires schema != [] && |head| == HeadSize(schema)
    ensures r.Some? ==>
      r.value.1 <= |aside| && (schema[0].Fixed? ==> |r.value.0| == schema[0].size)
  {
    if schema[0].Fixed? then Some((head[..schema[0].size], 0))
    else
      var next := NextOffset(schema[1..], head[4..], at + |aside|);
      if FromLe(head[..4]) != at || next < at || next > at + |aside| then None
      else Some((aside[..next - at], next - at))
  }

  function Split(schema: seq<Field>, head: Bytes, aside: Bytes, at: nat): (r: Option<seq<Bytes>>)
    requires |head| == HeadSize(schema)
    ensures r.Some? ==> Fits(schema, r.value)
  {
    if schema == [] then (if aside == [] then Some([]) else None)
    else
      var first := Cut(schema, head, aside, at);
      if first.None? then None else
      var (value, used) := first.value;
      var rest := Split(schema[1..], head[schema[0].HeadSize()..], aside[used..], at + used);
      if rest.None? then None else Some([value] + rest.value)
  }

  function Deserialize(schema: seq<Field>, b: Bytes): (r: Option<seq<Bytes>>)
    ensures r.Some? ==> Fits(schema, r.value)
  {
    var n := HeadSize(schema);
    if |b| < n then None else Split(schema, b[..n], b[n..], n)
  }

  lemma Unappend(a: Bytes, b: Bytes)
    ensures (a + b)[..|a|] == a && (a + b)[|a|..] == b
  {
  }

  lemma Rejoin(b: Bytes, n: nat)
    requires n <= |b|
    ensures b == b[..n] + b[n..]
  {
  }

  lemma Uncons<T>(x: T, rest: seq<T>)
    ensures ([x] + rest)[0] == x && ([x] + rest)[1..] == rest
  {
  }

  lemma Recons<T>(s: seq<T>)
    requires s != []
    ensures s == [s[0]] + s[1..]
  {
  }

  /** Every offset the heads hold fits its four bytes. Only what precedes a field counts. */
  predicate OffsetsFit(schema: seq<Field>, values: seq<Bytes>, at: nat)
    requires Fits(schema, values)
  {
    schema == [] || (
      && (schema[0].Variable? ==> at <= U32_MAX)
      && OffsetsFit(schema[1..], values[1..], at + |Aside(schema[0], values[0])|))
  }

  lemma OffsetStep(schema: seq<Field>, values: seq<Bytes>, at: nat)
    requires schema != [] && Fits(schema, values)
    ensures OffsetsFit(schema, values, at) <==>
      && (schema[0].Variable? ==> at <= U32_MAX)
      && OffsetsFit(schema[1..], values[1..], at + |Aside(schema[0], values[0])|)
  {
  }

  lemma {:induction false} SmallOffsetsFit(schema: seq<Field>, values: seq<Bytes>, at: nat)
    requires Fits(schema, values) && at + |Tails(schema, values)| <= U32_MAX
    ensures OffsetsFit(schema, values, at)
  {
    hide Aside;
    if schema != [] {
      SmallOffsetsFit(schema[1..], values[1..], at + |Aside(schema[0], values[0])|);
    }
  }

  lemma {:induction false} NextOffsetOfHeads(schema: seq<Field>, values: seq<Bytes>, at: nat)
    requires Fits(schema, values) && OffsetsFit(schema, values, at)
    ensures NextOffset(schema, Heads(schema, values, at), at + |Tails(schema, values)|) == at
  {
    if schema != [] {
      hide Le, FromLe;
      var first := InPlace(schema[0], values[0], at);
      var used := |Aside(schema[0], values[0])|;
      Unappend(first, Heads(schema[1..], values[1..], at + used));
      if schema[0].Variable? {
        Pow256Values();
        FromLeOfLe(at, 4);
      } else {
        NextOffsetOfHeads(schema[1..], values[1..], at);
      }
    }
  }

  lemma CutOfParts(schema: seq<Field>, values: seq<Bytes>, at: nat)
    requires schema != [] && Fits(schema, values) && OffsetsFit(schema, values, at)
    ensures Cut(schema, Heads(schema, values, at), Tails(schema, values), at)
         == Some((values[0], |Aside(schema[0], values[0])|))
  {
    hide Le, FromLe, OffsetsFit, Tails, Heads, NextOffset;
    OffsetStep(schema, values, at);
    PartsStep(schema, values, at);
    var first, own := InPlace(schema[0], values[0], at), Aside(schema[0], values[0]);
    Unappend(first, Heads(schema[1..], values[1..], at + |own|));
    Unappend(own, Tails(schema[1..], values[1..]));
    NextOffsetOfHeads(schema[1..], values[1..], at + |own|);
    if schema[0].Variable? {
      Pow256Values();
      FromLeOfLe(at, 4);
    }
  }

  /** One step of `Split` over parts that are already known. */
  lemma SplitStep(schema: seq<Field>, first: Bytes, head: Bytes, own: Bytes, aside: Bytes, at: nat,
                  value: Bytes, rest: seq<Bytes>)
    requires schema != [] && |first| == schema[0].HeadSize() && |head| == HeadSize(schema[1..])
    requires Cut(schema, first + head, own + aside, at) == Some((value, |own|))
    requires Split(schema[1..], head, aside, at + |own|) == Some(rest)
    ensures Split(schema, first + head, own + aside, at) == Some([value] + rest)
  {
    hide Cut;
    Unappend(first, head);
    Unappend(own, aside);
  }

  lemma SplitNothing(at: nat)
    ensures Split([], [], [], at) == Some([])
  {
  }

  lemma {:induction false} SplitOfParts(schema: seq<Field>, values: seq<Bytes>, at: nat)
    requires Fits(schema, values) && OffsetsFit(schema, values, at)
    ensures Split(schema, Heads(schema, values, at), Tails(schema, values), at) == Some(values)
  {
    hide Cut, Split, InPlace, Aside;
    if schema == [] {
      SplitNothing(at);
    } else {
      var first, own := InPlace(schema[0], values[0], at), Aside(schema[0], values[0]);
      var head, aside := Heads(schema[1..], values[1..], at + |own|), Tails(schema[1..], values[1..]);
      CutOfParts(schema, values, at);
      SplitOfParts(schema[1..], values[1..], at + |own|);
      SplitStep(schema, first, head, own, aside, at, values[0], values[1..]);
      Recons(values);
    }
  }

  lemma PartsOfCut(schema: seq<Field>, head: Bytes, aside: Bytes, at: nat)
    requires schema != [] && |head| == HeadSize(schema) && Cut(schema, head, aside, at).Some?
    ensures var (value, used) := Cut(schema, head, aside, at).value;
      head[..schema[0].HeadSize()] == InPlace(schema[0], value, at) && aside[..used] == Aside(schema[0], value)
  {
    if schema[0].Variable? {
      LeOfFromLe(head[..4]);
    }
  }

  lemma {:induction false} PartsOfSplit(schema: seq<Field>, head: Bytes, aside: Bytes, at: nat)
    requires |head| == HeadSize(schema) && Split(schema, head, aside, at).Some?
    ensures var values := Split(schema, head, aside, at).value;
      head == Heads(schema, values, at) && aside == Tails(schema, values)
  {
    hide Cut, InPlace, Aside, Fits;
    if schema != [] {
      var n, values := schema[0].HeadSize(), Split(schema, head, aside, at).value;
      var (value, used) := Cut(schema, head, aside, at).value;
      PartsOfCut(schema, head, aside, at);
      PartsOfSplit(schema[1..], head[n..], aside[used..], at + used);
      Uncons(value, Split(schema[1..], head[n..], aside[used..], at + used).value);
      Rejoin(head, n);
      Rejoin(aside, used);
    }
  }

  /** What decodes had offsets that fit: a truncated one never equals where its field begins. */
  lemma {:induction false} SplitOffsetsFit(schema: seq<Field>, head: Bytes, aside: Bytes, at: nat)
    requires |head| == HeadSize(schema) && Split(schema, head, aside, at).Some?
    ensures OffsetsFit(schema, Split(schema, head, aside, at).value, at)
  {
    hide Aside, InPlace, Fits;
    if schema != [] {
      var n := schema[0].HeadSize();
      var (value, used) := Cut(schema, head, aside, at).value;
      CutOffsetFits(schema, head, aside, at);
      hide Cut;
      PartsOfCut(schema, head, aside, at);
      SplitOffsetsFit(schema[1..], head[n..], aside[used..], at + used);
      Uncons(value, Split(schema[1..], head[n..], aside[used..], at + used).value);
    }
  }

  lemma CutOffsetFits(schema: seq<Field>, head: Bytes, aside: Bytes, at: nat)
    requires schema != [] && |head| == HeadSize(schema) && Cut(schema, head, aside, at).Some?
    ensures schema[0].Variable? ==> at <= U32_MAX
  {
    Pow256Values();
  }

  /** Decoding inverts encoding exactly when every offset fits its four bytes. */
  lemma DecodesExactly(schema: seq<Field>, values: seq<Bytes>)
    requires Fits(schema, values)
    ensures Deserialize(schema, Encode(schema, values)) == Some(values)
       <==> OffsetsFit(schema, values, HeadSize(schema))
  {
    hide OffsetsFit;
    var n := HeadSize(schema);
    Unappend(Heads(schema, values, n), Tails(schema, values));
    if OffsetsFit(schema, values, n) {
      SplitOfParts(schema, values, n);
    }
    if Deserialize(schema, Encode(schema, values)).Some? {
      SplitOffsetsFit(schema, Heads(schema, values, n), Tails(schema, values), n);
    }
  }

  /** In particular for every container that has an encoding by the standard. */
  lemma DeserializeOfSerialize(schema: seq<Field>, values: seq<Bytes>)
    requires Fits(schema, values) && |Encode(schema, values)| <= U32_MAX
    ensures Deserialize(schema, Encode(schema, values)) == Some(values)
  {
    SmallOffsetsFit(schema, values, HeadSize(schema));
    DecodesExactly(schema, values);
  }

  /** No second spelling: whatever decodes is the encoding of what it decodes to. */
  lemma EncodeOfDeserialize(schema: seq<Field>, b: Bytes)
    requires Deserialize(schema, b).Some?
    ensures Encode(schema, Deserialize(schema, b).value) == b
  {
    var n := HeadSize(schema);
    PartsOfSplit(schema, b[..n], b[n..], n);
    assert b == b[..n] + b[n..];
  }

  // ------------------------------------------------------- the shapes of the records

  /** The sizes and the offsets of a record with a tag, a list, a number, and two more lists. */
  lemma RecordShape(tag: Bytes, list: Bytes, number: Bytes, first: Bytes, second: Bytes)
    requires |tag| == 1 && |number| == 4
    ensures var schema := [Fixed(1), Variable, Fixed(4), Variable, Variable];
      var values := [tag, list, number, first, second];
      && Fits(schema, values) && HeadSize(schema) == 17
      && |Encode(schema, values)| == 17 + |list| + |first| + |second|
      && (OffsetsFit(schema, values, 17) <==> 17 + |list| + |first| <= U32_MAX)
  {
    var schema, values := [Fixed(1), Variable, Fixed(4), Variable, Variable], [tag, list, number, first, second];
    assert schema[1..] == [Variable, Fixed(4), Variable, Variable] && values[1..] == [list, number, first, second];
    SizeStep(schema, values);
    OffsetStep(schema, values, 17);
    TailShape(list, number, first, second, 17);
  }

  lemma TailShape(list: Bytes, number: Bytes, first: Bytes, second: Bytes, at: nat)
    requires |number| == 4
    ensures var schema, values := [Variable, Fixed(4), Variable, Variable], [list, number, first, second];
      && HeadSize(schema) == 16 && |Tails(schema, values)| == |list| + |first| + |second|
      && (OffsetsFit(schema, values, at) <==> at + |list| + |first| <= U32_MAX)
  {
    var schema, values := [Variable, Fixed(4), Variable, Variable], [list, number, first, second];
    assert schema[1..] == [Fixed(4), Variable, Variable] && values[1..] == [number, first, second];
    SizeStep(schema, values);
    OffsetStep(schema, values, at);
    var next := at + |list|;
    assert [Fixed(4), Variable, Variable][1..] == [Variable, Variable];
    assert [number, first, second][1..] == [first, second];
    SizeStep([Fixed(4), Variable, Variable], [number, first, second]);
    OffsetStep([Fixed(4), Variable, Variable], [number, first, second], next);
    assert [Variable, Variable][1..] == [Variable] && [first, second][1..] == [second];
    SizeStep([Variable, Variable], [first, second]);
    OffsetStep([Variable, Variable], [first, second], next);
    LastShape(second, next + |first|);
  }

  lemma LastShape(last: Bytes, at: nat)
    ensures HeadSize([Variable]) == 4 && |Tails([Variable], [last])| == |last|
    ensures OffsetsFit([Variable], [last], at) <==> at <= U32_MAX
  {
    SizeStep([Variable], [last]);
    OffsetStep([Variable], [last], at);
  }

  /** The same for a record with a tag, a list, a number and one more list. */
  lemma ShortRecordShape(tag: Bytes, list: Bytes, number: Bytes, last: Bytes)
    requires |tag| == 1 && |number| == 4
    ensures var schema, values := [Fixed(1), Variable, Fixed(4), Variable], [tag, list, number, last];
      && Fits(schema, values) && HeadSize(schema) == 13
      && |Encode(schema, values)| == 13 + |list| + |last|
      && (OffsetsFit(schema, values, 13) <==> 13 + |list| <= U32_MAX)
  {
    var schema, values := [Fixed(1), Variable, Fixed(4), Variable], [tag, list, number, last];
    assert schema[1..] == [Variable, Fixed(4), Variable] && values[1..] == [list, number, last];
    SizeStep(schema, values);
    OffsetStep(schema, values, 13);
    assert [Variable, Fixed(4), Variable][1..] == [Fixed(4), Variable] && [list, number, last][1..] == [number, last];
    SizeStep([Variable, Fixed(4), Variable], [list, number, last]);
    OffsetStep([Variable, Fixed(4), Variable], [list, number, last], 13);
    assert [Fixed(4), Variable][1..] == [Variable] && [number, last][1..] == [last];
    SizeStep([Fixed(4), Variable], [number, last]);
    OffsetStep([Fixed(4), Variable], [number, last], 13 + |list|);
    LastShape(last, 13 + |list|);
  }

  /**
   The bytes of such a record: the tag, three offsets counted from the first byte with the
   number among them, then the three lists one after another.
   */
  lemma RecordWireForm(tag: Bytes, list: Bytes, number: Bytes, first: Bytes, second: Bytes)
    requires |tag| == 1 && |number| == 4
    ensures var schema := [Fixed(1), Variable, Fixed(4), Variable, Variable];
      var values := [tag, list, number, first, second];
      Fits(schema, values) && Encode(schema, values)
        == tag + (Le(17, 4) + (number + (Le(17 + |list|, 4) + Le(17 + |list| + |first|, 4))))
           + (list + (first + second))
  {
    hide Le, HeadSize, OffsetsFit, Heads, Tails;
    RecordShape(tag, list, number, first, second);
    RecordParts(tag, list, number, first, second, 17);
  }

  lemma RecordParts(tag: Bytes, list: Bytes, number: Bytes, first: Bytes, second: Bytes, at: nat)
    requires |tag| == 1 && |number| == 4
    ensures var schema := [Fixed(1), Variable, Fixed(4), Variable, Variable];
      var values := [tag, list, number, first, second];
      && Fits(schema, values)
      && Heads(schema, values, at)
           == tag + (Le(at, 4) + (number + (Le(at + |list|, 4) + Le(at + |list| + |first|, 4))))
      && Tails(schema, values) == list + (first + second)
  {
    hide Le, Heads, Tails;
    var schema, values := [Fixed(1), Variable, Fixed(4), Variable, Variable], [tag, list, number, first, second];
    assert schema[1..] == [Variable, Fixed(4), Variable, Variable] && values[1..] == [list, number, first, second];
    FixedStep(schema, values, at);
    ListNumberAndTwo(list, number, first, second, at);
  }

  lemma ListNumberAndTwo(list: Bytes, number: Bytes, first: Bytes, second: Bytes, at: nat)
    requires |number| == 4
    ensures var schema, values := [Variable, Fixed(4), Variable, Variable], [list, number, first, second];
      && Heads(schema, values, at)
           == Le(at, 4) + (number + (Le(at + |list|, 4) + Le(at + |list| + |first|, 4)))
      && Tails(schema, values) == list + (first + second)
  {
    hide Le, Heads, Tails;
    var schema, values := [Variable, Fixed(4), Variable, Variable], [list, number, first, second];
    assert schema[1..] == [Fixed(4), Variable, Variable] && values[1..] == [number, first, second];
    VariableStep(schema, values, at);
    NumberAndTwo(number, first, second, at + |list|);
  }

  lemma FixedStep(schema: seq<Field>, values: seq<Bytes>, at: nat)
    requires schema != [] && Fits(schema, values) && schema[0].Fixed?
    ensures Heads(schema, values, at) == values[0] + Heads(schema[1..], values[1..], at)
    ensures Tails(schema, values) == Tails(schema[1..], values[1..])
  {
  }

  lemma VariableStep(schema: seq<Field>, values: seq<Bytes>, at: nat)
    requires schema != [] && Fits(schema, values) && schema[0].Variable?
    ensures Heads(schema, values, at) == Le(at, 4) + Heads(schema[1..], values[1..], at + |values[0]|)
    ensures Tails(schema, values) == values[0] + Tails(schema[1..], values[1..])
  {
  }

  lemma LastParts(last: Bytes, at: nat)
    ensures Heads([Variable], [last], at) == Le(at, 4) && Tails([Variable], [last]) == last
  {
    hide Le;
    VariableStep([Variable], [last], at);
    assert Le(at, 4) + [] == Le(at, 4) && last + [] == last;
  }

  lemma NumberAndOne(number: Bytes, last: Bytes, at: nat)
    requires |number| == 4
    ensures Heads([Fixed(4), Variable], [number, last], at) == number + Le(at, 4)
    ensures Tails([Fixed(4), Variable], [number, last]) == last
  {
    hide Le, Heads, Tails;
    assert [Fixed(4), Variable][1..] == [Variable] && [number, last][1..] == [last];
    FixedStep([Fixed(4), Variable], [number, last], at);
    LastParts(last, at);
  }

  lemma TwoLists(first: Bytes, second: Bytes, at: nat)
    ensures Heads([Variable, Variable], [first, second], at) == Le(at, 4) + Le(at + |first|, 4)
    ensures Tails([Variable, Variable], [first, second]) == first + second
  {
    hide Le, Heads, Tails;
    assert [Variable, Variable][1..] == [Variable] && [first, second][1..] == [second];
    VariableStep([Variable, Variable], [first, second], at);
    LastParts(second, at + |first|);
  }

  lemma NumberAndTwo(number: Bytes, first: Bytes, second: Bytes, at: nat)
    requires |number| == 4
    ensures var schema, values := [Fixed(4), Variable, Variable], [number, first, second];
      && Heads(schema, values, at) == number + (Le(at, 4) + Le(at + |first|, 4))
      && Tails(schema, values) == first + second
  {
    hide Le, Heads, Tails;
    var schema, values := [Fixed(4), Variable, Variable], [number, first, second];
    assert schema[1..] == [Variable, Variable] && values[1..] == [first, second];
    FixedStep(schema, values, at);
    TwoLists(first, second, at);
  }

  lemma ListNumberAndOne(list: Bytes, number: Bytes, last: Bytes, at: nat)
    requires |number| == 4
    ensures var schema, values := [Variable, Fixed(4), Variable], [list, number, last];
      && Heads(schema, values, at) == Le(at, 4) + (number + Le(at + |list|, 4))
      && Tails(schema, values) == list + last
  {
    hide Le, Heads, Tails;
    var schema, values := [Variable, Fixed(4), Variable], [list, number, last];
    assert schema[1..] == [Fixed(4), Variable] && values[1..] == [number, last];
    VariableStep(schema, values, at);
    NumberAndOne(number, last, at + |list|);
  }

  lemma ShortRecordParts(tag: Bytes, list: Bytes, number: Bytes, last: Bytes, at: nat)
    requires |tag| == 1 && |number| == 4
    ensures var schema, values := [Fixed(1), Variable, Fixed(4), Variable], [tag, list, number, last];
      && Fits(schema, values)
      && Heads(schema, values, at) == tag + (Le(at, 4) + (number + Le(at + |list|, 4)))
      && Tails(schema, values) == list + last
  {
    hide Le, Heads, Tails;
    var schema, values := [Fixed(1), Variable, Fixed(4), Variable], [tag, list, number, last];
    assert schema[1..] == [Variable, Fixed(4), Variable] && values[1..] == [list, number, last];
    FixedStep(schema, values, at);
    ListNumberAndOne(list, number, last, at);
  }

  /** The same for the shorter record. */
  lemma ShortRecordWireForm(tag: Bytes, list: Bytes, number: Bytes, last: Bytes)
    requires |tag| == 1 && |number| == 4
    ensures var schema, values := [Fixed(1), Variable, Fixed(4), Variable], [tag, list, number, last];
      Fits(schema, values) && Encode(schema, values)
        == tag + (Le(13, 4) + (number + Le(13 + |list|, 4))) + (list + last)
  {
    hide Le, HeadSize, OffsetsFit, Heads, Tails;
    ShortRecordShape(tag, list, number, last);
    ShortRecordParts(tag, list, number, last, 13);
  }

  // -------------------------------------------------------- lists of fixed items

  function Flatten(items: seq<Bytes>): Bytes {
    if items == [] then [] else items[0] + Flatten(items[1..])
  }

  predicate AllOfSize(items: seq<Bytes>, size: nat) {
    forall i | 0 <= i < |items| :: |items[i]| == size
  }

  function Chunks(b: Bytes, size: nat): (r: Option<seq<Bytes>>)
    requires size > 0
    ensures r.Some? ==> AllOfSize(r.value, size)
  {
    if b == [] then Some([])
    else if |b| < size then None
    else
      var rest := Chunks(b[size..], size);
      if rest.None? then None else Some([b[..size]] + rest.value)
  }

  lemma {:induction false} FlattenLength(items: seq<Bytes>, size: nat)
    requires AllOfSize(items, size)
    ensures |Flatten(items)| == |items| * size
  {
    if items != [] {
      FlattenLength(items[1..], size);
    }
  }

  /** Item `i` stands at byte `i * size`. */
  lemma {:induction false} FlattenAt(items: seq<Bytes>, size: nat, i: nat)
    requires AllOfSize(items, size) && i < |items|
    ensures i * size <= i * size + size <= |Flatten(items)|
    ensures Flatten(items)[i * size..i * size + size] == items[i]
    decreases i
  {
    var flat, rest := Flatten(items), Flatten(items[1..]);
    assert flat == items[0] + rest;
    if i > 0 {
      FlattenAt(items[1..], size, i - 1);
      assert (i - 1) * size + size == i * size;
      assert flat[i * size..i * size + size] == rest[(i - 1) * size..(i - 1) * size + size];
    }
  }

  lemma {:induction false} ChunksOfFlatten(items: seq<Bytes>, size: nat)
    requires size > 0 && AllOfSize(items, size)
    ensures Chunks(Flatten(items), size) == Some(items)
  {
    if items != [] {
      ChunksOfFlatten(items[1..], size);
      assert Flatten(items)[..size] == items[0] && Flatten(items)[size..] == Flatten(items[1..]);
      assert items == [items[0]] + items[1..];
    }
  }

  lemma {:induction false} FlattenOfChunks(b: Bytes, size: nat)
    requires size > 0 && Chunks(b, size).Some?
    ensures Flatten(Chunks(b, size).value) == b
  {
    if b != [] {
      FlattenOfChunks(b[size..], size);
      var items := Chunks(b, size).value;
      assert items[1..] == Chunks(b[size..], size).value;
      assert b == b[..size] + b[size..];
    }
  }

  // ------------------------------------------------------------------- bitlists

  function Pow2(n: nat): (p: nat)
    ensures p > 0
  {
    if n == 0 then 1 else 2 * Pow2(n - 1)
  }

  function BitsValue(bits: seq<bool>): (x: nat)
    ensures x < Pow2(|bits|)
  {
    if bits == [] then 0 else (if bits[0] then 1 else 0) + 2 * BitsValue(bits[1..])
  }

  function ByteOf(bits: seq<bool>): byte
    requires |bits| <= 8
  {
    assert Pow2(|bits|) <= 256 by { Pow2Grows(|bits|, 8); assert Pow2(8) == 256; }
    BitsValue(bits)
  }

  lemma {:induction false} Pow2Grows(a: nat, b: nat)
    requires a <= b
    ensures Pow2(a) <= Pow2(b)
    decreases b
  {
    if a < b {
      Pow2Grows(a, b - 1);
    }
  }

  /** The low `n` bits of `x`. */
  function LowBits(x: nat, n: nat): (bits: seq<bool>)
    ensures |bits| == n
    decreases n, x
  {
    if n == 0 then [] else [x % 2 == 1] + LowBits(x / 2, n - 1)
  }

  /** The bits below the highest set one. */
  function BelowTop(x: nat): seq<bool>
    requires x > 0
  {
    if x == 1 then [] else [x % 2 == 1] + BelowTop(x / 2)
  }

  lemma {:induction false} LowBitsOfValue(bits: seq<bool>)
    ensures LowBits(BitsValue(bits), |bits|) == bits
  {
    if bits != [] {
      LowBitsOfValue(bits[1..]);
      assert bits == [bits[0]] + bits[1..];
    }
  }

  lemma {:induction false} ValueOfLowBits(x: nat, n: nat)
    requires x < Pow2(n)
    ensures BitsValue(LowBits(x, n)) == x
    decreases n, x
  {
    if n > 0 {
      ValueOfLowBits(x / 2, n - 1);
      assert LowBits(x, n)[1..] == LowBits(x / 2, n - 1);
    }
  }

  lemma {:induction false} BelowTopOfValue(bits: seq<bool>)
    ensures BitsValue(bits + [true]) > 0 && BelowTop(BitsValue(bits + [true])) == bits
  {
    var all := bits + [true];
    if bits == [] {
      assert all[1..] == [];
    } else {
      BelowTopOfValue(bits[1..]);
      assert all[1..] == bits[1..] + [true];
      assert bits == [bits[0]] + bits[1..];
    }
  }

  lemma {:induction false} ValueOfBelowTop(x: nat, n: nat)
    requires 0 < x < Pow2(n)
    ensures BitsValue(BelowTop(x) + [true]) == x && |BelowTop(x)| < n
    decreases n, x
  {
    var all := BelowTop(x) + [true];
    if x == 1 {
      assert all[1..] == [];
    } else {
      ValueOfBelowTop(x / 2, n - 1);
      assert all[1..] == BelowTop(x / 2) + [true];
    }
  }

  /** The bits, then a set bit that marks their end. */
  function EncodeBits(bits: seq<bool>): (b: Bytes)
    ensures |b| == |bits| / 8 + 1
  {
    if |bits| < 8 then [ByteOf(bits + [true])]
    else [ByteOf(bits[..8])] + EncodeBits(bits[8..])
  }

  lemma {:induction false} BitsValueAt(bits: seq<bool>, k: nat)
    requires k < |bits|
    ensures BitsValue(bits) / Pow2(k) % 2 == if bits[k] then 1 else 0
    decreases k
  {
    if k > 0 {
      BitsValueAt(bits[1..], k - 1);
      DivideTwice(BitsValue(bits), 2, Pow2(k - 1));
    }
  }

  lemma FirstByteAt(bits: seq<bool>, k: nat)
    requires k <= |bits| && k < 8
    ensures EncodeBits(bits)[0] / Pow2(k) % 2 == if k == |bits| || bits[k] then 1 else 0
  {
    hide BitsValue, Pow2;
    BitsValueAt(if |bits| < 8 then bits + [true] else bits[..8], k);
  }

  /** Bit `k` is bit `k % 8` of byte `k / 8`, and the bit after the last one is set. */
  lemma {:induction false} EncodedBitAt(bits: seq<bool>, k: nat)
    requires k <= |bits|
    ensures EncodeBits(bits)[k / 8] / Pow2(k % 8) % 2 == if k == |bits| || bits[k] then 1 else 0
    decreases |bits|
  {
    hide BitsValue, Pow2;
    if k < 8 {
      FirstByteAt(bits, k);
    } else {
      EncodedBitAt(bits[8..], k - 8);
      LaterByte(bits, k);
    }
  }

  lemma LaterByte(bits: seq<bool>, k: nat)
    requires 8 <= k <= |bits|
    ensures k / 8 == (k - 8) / 8 + 1 && k % 8 == (k - 8) % 8
    ensures EncodeBits(bits)[k / 8] == EncodeBits(bits[8..])[(k - 8) / 8]
  {
    EncodeStep(bits);
    hide EncodeBits, ByteOf;
    var j := (k - 8) / 8;
    assert k / 8 == j + 1;
    assert EncodeBits(bits)[j + 1] == EncodeBits(bits)[1..][j];
  }

  lemma EncodeStep(bits: seq<bool>)
    requires |bits| >= 8
    ensures EncodeBits(bits)[1..] == EncodeBits(bits[8..])
  {
    hide ByteOf;
  }

  function DecodeBits(b: Bytes): Option<seq<bool>> {
    if b == [] then None
    else if |b| == 1 then (if b[0] == 0 then None else Some(BelowTop(b[0])))
    else
      var rest := DecodeBits(b[1..]);
      if rest.None? then None else Some(LowBits(b[0], 8) + rest.value)
  }

  lemma {:induction false} DecodeOfEncodeBits(bits: seq<bool>)
    ensures DecodeBits(EncodeBits(bits)) == Some(bits)
  {
    if |bits| < 8 {
      BelowTopOfValue(bits);
    } else {
      DecodeOfEncodeBits(bits[8..]);
      LowBitsOfValue(bits[..8]);
      assert EncodeBits(bits)[1..] == EncodeBits(bits[8..]);
      assert bits == bits[..8] + bits[8..];
    }
  }

  lemma {:induction false} EncodeOfDecodeBits(b: Bytes)
    requires DecodeBits(b).Some?
    ensures EncodeBits(DecodeBits(b).value) == b
  {
    assert Pow2(8) == 256;
    if |b| == 1 {
      ValueOfBelowTop(b[0], 8);
      assert b == [b[0]];
    } else {
      EncodeOfDecodeBits(b[1..]);
      ValueOfLowBits(b[0], 8);
      var bits := DecodeBits(b).value;
      assert bits[..8] == LowBits(b[0], 8) && bits[8..] == DecodeBits(b[1..]).value;
      assert b == [b[0]] + b[1..];
    }
  }

  /** Bitlist[max] */
  function DecodeBitlist(b: Bytes, max: nat): Option<seq<bool>> {
    var bits := DecodeBits(b);
    if bits.Some? && |bits.value| <= max then bits else None
  }
}
