/** The deterministic CBOR heads of `xtask/src/readiness.rs`: unsigned integers,
    text strings and array heads, in the encoding of section 3 of RFC 8949 with the
    shortest-argument rule of its section 4.2.1. */
module Cbor {
  import opened Prelude

  const UINT: nat := 0
  const TEXT: nat := 3
  const ARRAY: nat := 4

  // ----- Big-endian integers -------------------------------------------------

  function Pow256(k: nat): (p: nat)
    ensures p > 0
  {
    if k == 0 then 1 else 256 * Pow256(k - 1)
  }

  lemma Pow256Values()
    ensures Pow256(1) == 0x100 && Pow256(2) == 0x1_0000 && Pow256(4) == 0x1_0000_0000 && Pow256(8) == TWO_64
  {
    assert Pow256(3) == 0x100_0000;
    assert Pow256(4) == 0x1_0000_0000;
    assert Pow256(6) == 0x1_0000_0000_0000;
  }

  function BigEndian(n: nat, width: nat): (b: seq<byte>)
    requires n < Pow256(width)
    ensures |b| == width
  {
    if width == 0 then [] else BigEndian(n / 256, width - 1) + [n % 256]
  }

  function FromBigEndian(b: seq<byte>): nat {
    if b == [] then 0 else 256 * FromBigEndian(b[..|b| - 1]) + b[|b| - 1]
  }

  lemma {:induction false} FromBigEndianBound(b: seq<byte>)
    ensures FromBigEndian(b) < Pow256(|b|)
  {
    if b != [] {
      FromBigEndianBound(b[..|b| - 1]);
    }
  }

  lemma {:induction false} BigEndianRoundTrip(n: nat, width: nat)
    requires n < Pow256(width)
    ensures FromBigEndian(BigEndian(n, width)) == n
  {
    if width > 0 {
      BigEndianRoundTrip(n / 256, width - 1);
      assert BigEndian(n, width)[..width - 1] == BigEndian(n / 256, width - 1);
    }
  }

  lemma {:induction false} FromBigEndianRoundTrip(b: seq<byte>)
    ensures FromBigEndian(b) < Pow256(|b|)
    ensures BigEndian(FromBigEndian(b), |b|) == b
  {
    FromBigEndianBound(b);
    if b != [] {
      var front := b[..|b| - 1];
      FromBigEndianRoundTrip(front);
      assert FromBigEndian(b) / 256 == FromBigEndian(front);
      assert b == front + [b[|b| - 1]];
    }
  }

  // ----- Heads -----------------------------------------------------------------

  /** The number of argument bytes that `major` writes after the initial byte. */
  function Width(value: u64): (w: nat)
    ensures w > 0 ==> value < Pow256(w)
  {
    Pow256Values();
    if value <= 23 then 0
    else if value <= 0xff then 1
    else if value <= 0xffff then 2
    else if value <= 0xffff_ffff then 4
    else 8
  }

  /** The low five bits of the initial byte. */
  function Info(value: u64): (info: nat)
    ensures info < 28
  {
    match Width(value)
    case 0 => if value <= 23 then value else 0
    case 1 => 24
    case 2 => 25
    case 4 => 26
    case _ => 27
  }

  function Argument(value: u64): (b: seq<byte>)
    ensures |b| == Width(value)
  {
    if value <= 23 then [] else BigEndian(value, Width(value))
  }

  /** What `major` appends: major type in the top three bits, then the shortest argument. */
  function Head(major: nat, value: u64): (h: seq<byte>)
    requires major < 8
  {
    [32 * major + Info(value)] + Argument(value)
  }

  datatype HeadRead = HeadRead(major: nat, value: nat, rest: seq<byte>)

  /** The number of argument bytes that follow an initial byte with this additional
      information, or none when section 3 of RFC 8949 leaves it reserved or indefinite. */
  function ArgumentWidth(info: nat): Option<nat> {
    if info < 24 then Some(0)
    else if info == 24 then Some(1)
    else if info == 25 then Some(2)
    else if info == 26 then Some(4)
    else if info == 27 then Some(8)
    else None
  }

  /** A general reader of CBOR heads: it accepts every definite-length head, shortest or not. */
  function ReadHead(b: seq<byte>): (r: Option<HeadRead>)
    ensures r.Some? ==> |r.value.rest| < |b| && r.value.major < 8
  {
    if b == [] then None
    else
      match ArgumentWidth(b[0] % 32)
      case None => None
      case Some(width) =>
        if |b| < 1 + width then None
        else Some(HeadRead(b[0] / 32, if width == 0 then b[0] % 32 else FromBigEndian(b[1..1 + width]), b[1 + width..]))
  }

  lemma ArgumentRoundTrip(value: u64)
    ensures ArgumentWidth(Info(value)) == Some(Width(value))
    ensures Info(value) < 24 <==> value < 24
    ensures value < 24 ==> Info(value) == value && Argument(value) == []
    ensures value >= 24 ==> FromBigEndian(Argument(value)) == value
  {
    if value >= 24 {
      BigEndianRoundTrip(value, Width(value));
    }
  }

  /** Reading a head back gives the type and value, and leaves exactly what followed it. */
  lemma HeadRoundTrip(major: nat, value: u64, rest: seq<byte>)
    requires major < 8
    ensures ReadHead(Head(major, value) + rest) == Some(HeadRead(major, value, rest))
  {
    var (info, argument) := (Info(value), Argument(value));
    var b := Head(major, value) + rest;
    var width := |argument|;
    assert b[0] / 32 == major && b[0] % 32 == info by {
      assert b[0] == 32 * major + info;
    }
    assert b[1..1 + width] == argument && b[1 + width..] == rest;
    assert ReadHead(b) == Some(HeadRead(major, value, rest)) by {
      ArgumentRoundTrip(value);
    }
  }

  /** Section 4.2.1 of RFC 8949: no head for the same type and value is shorter than the
      one `major` writes, and it is the only one of its length. */
  lemma HeadIsShortest(b: seq<byte>)
    requires ReadHead(b).Some?
    ensures var r := ReadHead(b).value;
            && r.value < TWO_64
            && |Head(r.major, r.value)| <= |b| - |r.rest|
            && (|Head(r.major, r.value)| == |b| - |r.rest| ==> b == Head(r.major, r.value) + r.rest)
  {
    var r := ReadHead(b).value;
    var width := ArgumentWidth(b[0] % 32).value;
    var argument := b[1..1 + width];
    assert b == [b[0]] + argument + r.rest;
    WidthIsLeast(argument);
    if 0 < width == Width(r.value) {
      FromBigEndianRoundTrip(argument);
      assert Argument(r.value) == argument;
    }
  }

  lemma WidthIsLeast(argument: seq<byte>)
    requires |argument| in {0, 1, 2, 4, 8}
    ensures FromBigEndian(argument) < TWO_64 && Width(FromBigEndian(argument)) <= |argument|
  {
    FromBigEndianBound(argument);
    Pow256Values();
    assert Pow256(0) == 1;
  }

  // ----- Items -----------------------------------------------------------------

  /** One call of the encoders: `uint`, `text` or `array`. */
  datatype Item = UInt(n: u64) | Text(s: Str) | Array(len: nat)

  function EncodeItem(item: Item): (b: seq<byte>) {
    match item
    case UInt(n) => Head(UINT, n)
    case Text(s) => Head(TEXT, AsU64(|s|)) + s
    case Array(len) => Head(ARRAY, AsU64(len))
  }

  function Encode(items: seq<Item>): (b: seq<byte>) {
    if items == [] then [] else EncodeItem(items[0]) + Encode(items[1..])
  }

  /** Lengths that a 64-bit `usize` can hold, so that `as u64` loses nothing. */
  ghost predicate Fits(item: Item) {
    match item
    case UInt(_) => true
    case Text(s) => |s| < TWO_64
    case Array(len) => len < TWO_64
  }

  datatype ItemRead = ItemRead(item: Item, rest: seq<byte>)

  /** The item that a head starts, with what follows it. */
  function ItemOf(r: HeadRead): (item: Option<ItemRead>)
    ensures item.Some? ==> |item.value.rest| <= |r.rest|
  {
    if r.value >= TWO_64 then None
    else if r.major == UINT then Some(ItemRead(UInt(r.value), r.rest))
    else if r.major == ARRAY then Some(ItemRead(Array(r.value), r.rest))
    else if r.major == TEXT && r.value <= |r.rest| then Some(ItemRead(Text(r.rest[..r.value]), r.rest[r.value..]))
    else None
  }

  function DecodeItem(b: seq<byte>): (r: Option<ItemRead>)
    ensures r.Some? ==> |r.value.rest| < |b|
  {
    var head := ReadHead(b);
    if head.None? then None else ItemOf(head.value)
  }

  function Decode(b: seq<byte>): Option<seq<Item>>
    decreases |b|
  {
    if b == [] then Some([])
    else
      match DecodeItem(b)
      case None => None
      case Some(read) =>
        match Decode(read.rest)
        case None => None
        case Some(items) => Some([read.item] + items)
  }

  lemma DecodeItemRoundTrip(item: Item, rest: seq<byte>)
    requires Fits(item)
    ensures DecodeItem(EncodeItem(item) + rest) == Some(ItemRead(item, rest))
  {
    match item
    case UInt(n) =>
      assert EncodeItem(item) == Head(UINT, n);
      DecodeHeadOnly(UINT, n, rest);
    case Text(s) =>
      DecodeTextRoundTrip(s, rest);
    case Array(len) =>
      assert EncodeItem(item) == Head(ARRAY, len) by {
        assert AsU64(len) == len;
      }
      DecodeHeadOnly(ARRAY, len, rest);
  }

  lemma DecodeHeadOnly(major: nat, value: u64, rest: seq<byte>)
    requires major == UINT || major == ARRAY
    ensures DecodeItem(Head(major, value) + rest) == ItemOf(HeadRead(major, value, rest))
  {
    HeadRoundTrip(major, value, rest);
  }

  lemma DecodeTextRoundTrip(s: Str, rest: seq<byte>)
    requires |s| < TWO_64
    ensures DecodeItem(EncodeItem(Text(s)) + rest) == Some(ItemRead(Text(s), rest))
  {
    var tail := s + rest;
    var r := HeadRead(TEXT, |s|, tail);
    assert ItemOf(r) == Some(ItemRead(Text(s), rest)) by {
      assert tail[..|s|] == s && tail[|s|..] == rest;
    }
    assert EncodeItem(Text(s)) + rest == Head(TEXT, |s|) + tail by {
      assert AsU64(|s|) == |s|;
      Associative(Head(TEXT, |s|), s, rest);
    }
    assert ReadHead(Head(TEXT, |s|) + tail) == Some(r) by {
      HeadRoundTrip(TEXT, |s|, tail);
    }
  }

  lemma Associative<T>(a: seq<T>, b: seq<T>, c: seq<T>)
    ensures (a + b) + c == a + (b + c)
  {
  }

  /** The decoder recovers every item sequence, with nothing left over. */
  lemma {:induction false} DecodeRoundTrip(items: seq<Item>)
    requires forall item :: item in items ==> Fits(item)
    ensures Decode(Encode(items)) == Some(items)
  {
    if items != [] {
      DecodeItemRoundTrip(items[0], Encode(items[1..]));
      DecodeRoundTrip(items[1..]);
      assert items == [items[0]] + items[1..];
    }
  }

  lemma EncodeInjective(xs: seq<Item>, ys: seq<Item>)
    requires forall item :: item in xs + ys ==> Fits(item)
    requires Encode(xs) == Encode(ys)
    ensures xs == ys
  {
    DecodeRoundTrip(xs);
    DecodeRoundTrip(ys);
  }

  /** An item's encoding ends itself: what follows it never matters, so none is a proper prefix of another. */
  lemma ItemIsPrefixFree(x: Item, y: Item, a: seq<byte>, b: seq<byte>)
    requires Fits(x) && Fits(y)
    requires EncodeItem(x) + a == EncodeItem(y) + b
    ensures x == y && a == b
  {
    DecodeItemRoundTrip(x, a);
    DecodeItemRoundTrip(y, b);
  }

  /** Nor is, among item sequences of one length, any encoding a proper prefix of another. */
  lemma {:induction false} EncodePrefixFree(xs: seq<Item>, ys: seq<Item>, a: seq<byte>, b: seq<byte>)
    requires |xs| == |ys| && forall item :: item in xs + ys ==> Fits(item)
    requires Encode(xs) + a == Encode(ys) + b
    ensures xs == ys && a == b
  {
    hide EncodeItem, Fits;
    if xs == [] {
      assert [] + a == a && [] + b == b;
    } else {
      Associative(EncodeItem(xs[0]), Encode(xs[1..]), a);
      Associative(EncodeItem(ys[0]), Encode(ys[1..]), b);
      assert xs[0] in xs + ys && ys[0] in xs + ys;
      ItemIsPrefixFree(xs[0], ys[0], Encode(xs[1..]) + a, Encode(ys[1..]) + b);
      assert forall item :: item in xs[1..] + ys[1..] ==> item in xs + ys;
      EncodePrefixFree(xs[1..], ys[1..], a, b);
      assert xs == [xs[0]] + xs[1..] && ys == [ys[0]] + ys[1..];
    }
  }

  lemma {:induction false} EncodeAppend(items: seq<Item>, item: Item)
    ensures Encode(items + [item]) == Encode(items) + EncodeItem(item)
  {
    if items == [] {
      assert Encode([item]) == EncodeItem(item) + Encode([]);
    } else {
      var (head, tail, last) := (EncodeItem(items[0]), Encode(items[1..]), EncodeItem(item));
      EncodeAppend(items[1..], item);
      assert (items + [item])[1..] == items[1..] + [item];
      Associative(head, tail, last);
    }
  }

  // ----- The buffer the encoders append to ---------------------------------------

  /** The `Vec<u8>` that `uint`, `text` and `array` extend, together with the items
      written to it so far. */
  class Encoder {
    var bytes: seq<byte>
    ghost var items: seq<Item>

    ghost predicate Valid()
      reads this
    {
      bytes == Encode(items)
    }

    constructor ()
      ensures Valid() && items == []
    {
      bytes := [];
      items := [];
    }

    method Major(majorType: nat, value: u64)
      requires majorType < 8
      modifies this`bytes
      ensures bytes == old(bytes) + Head(majorType, value)
    {
      Pow256Values();
      var prefix := 32 * majorType;
      if value <= 23 {
        bytes := bytes + [prefix + value];
      } else if value <= 0xff {
        assert BigEndian(value, 1) == BigEndian(0, 0) + [value];
        bytes := bytes + [prefix + 24, value];
      } else if value <= 0xffff {
        bytes := bytes + [prefix + 25];
        bytes := bytes + BigEndian(value, 2);
      } else if value <= 0xffff_ffff {
        bytes := bytes + [prefix + 26];
        bytes := bytes + BigEndian(value, 4);
      } else {
        bytes := bytes + [prefix + 27];
        bytes := bytes + BigEndian(value, 8);
      }
    }

    method UInt(value: u64)
      requires Valid()
      modifies this
      ensures Valid() && items == old(items) + [Item.UInt(value)]
    {
      hide Head;
      Major(UINT, value);
      EncodeAppend(items, Item.UInt(value));
      items := items + [Item.UInt(value)];
    }

    method Text(value: Str)
      requires Valid()
      modifies this
      ensures Valid() && items == old(items) + [Item.Text(value)]
    {
      var length := AsU64(|value|);
      Major(TEXT, length);
      bytes := bytes + value;
      Associative(old(bytes), Head(TEXT, length), value);
      EncodeAppend(items, Item.Text(value));
      items := items + [Item.Text(value)];
    }

    method Array(len: nat)
      requires Valid()
      modifies this
      ensures Valid() && items == old(items) + [Item.Array(len)]
    {
      Major(ARRAY, AsU64(len));
      EncodeAppend(items, Item.Array(len));
      items := items + [Item.Array(len)];
    }
  }
}
