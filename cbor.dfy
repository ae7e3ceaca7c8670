/**
  The CBOR data items the employee record uses (section 3 of RFC 8949):
  unsigned and negative integers (major types 0 and 1), definite-length text
  strings (major type 3), definite-length maps (major type 5) and 64-bit floats
  (major type 7, additional information 27). `Serialize` writes an item with the
  shortest argument encoding, as TinyCBOR's encoder does; `ParseHead` reads a
  head back from the front of a byte sequence.
 */
module Cbor {
  import opened CTypes

  const MAJOR_UINT := 0
  const MAJOR_NEGINT := 1
  const MAJOR_TEXT := 3
  const MAJOR_MAP := 5
  const MAJOR_SIMPLE := 7
  /** Additional information 27 on major type 7: an IEEE 754 binary64 value follows. */
  const AI_FLOAT64 := 27
  const TWO_64 := 0x1_0000_0000_0000_0000

  datatype Entry = Entry(key: Item, value: Item)

  datatype Item =
    | UInt(value: uint64)
    | NegInt(arg: uint64)        // the integer -1 - arg
    | Text(bytes: seq<byte>)
    | Float64(bits: uint64)      // the binary64 bit pattern, never interpreted
    | Map(entries: seq<Entry>)

  /** Every length fits the 64-bit argument of a head. */
  predicate WellFormed(x: Item)
    decreases x
  {
    match x
    case Text(s) => |s| < TWO_64
    case Map(es) =>
      |es| < TWO_64 &&
      forall i :: 0 <= i < |es| ==> WellFormed(es[i].key) && WellFormed(es[i].value)
    case _ => true
  }

  /** The integer an item of major type 0 or 1 stands for (section 3.1). */
  function IntegerValue(x: Item): int
    requires x.UInt? || x.NegInt?
  {
    if x.UInt? then x.value else -1 - x.arg
  }

  // ---- big-endian arguments -------------------------------------------------

  function Pow256(n: nat): (r: nat)
    ensures r >= 1
  {
    if n == 0 then 1 else 256 * Pow256(n - 1)
  }

  function BigEndian(v: nat, n: nat): (r: seq<byte>)
    requires v < Pow256(n)
    ensures |r| == n
    decreases n
  {
    if n == 0 then []
    else
      assert v / 256 < Pow256(n - 1);
      BigEndian(v / 256, n - 1) + [v % 256]
  }

  function FromBigEndian(s: seq<byte>): (r: nat)
    ensures r < Pow256(|s|)
  {
    if s == [] then 0 else 256 * FromBigEndian(s[..|s| - 1]) + s[|s| - 1]
  }

  lemma {:induction false} BigEndianRoundTrip(v: nat, n: nat)
    requires v < Pow256(n)
    ensures FromBigEndian(BigEndian(v, n)) == v
    decreases n
  {
    if n > 0 {
      assert v / 256 < Pow256(n - 1);
      var r := BigEndian(v, n);
      assert r[..n - 1] == BigEndian(v / 256, n - 1);
      BigEndianRoundTrip(v / 256, n - 1);
    }
  }

  // ---- heads (section 3 of RFC 8949) ----------------------------------------

  /** The number of argument bytes the shortest head for `arg` carries. */
  function ArgumentSize(arg: uint64): (n: nat)
    ensures n in {0, 1, 2, 4, 8}
  {
    if arg < 24 then 0
    else if arg < 0x100 then 1
    else if arg < 0x1_0000 then 2
    else if arg < 0x1_0000_0000 then 4
    else 8
  }

  /** The argument fits the bytes `ArgumentSize` gives it. */
  lemma ArgumentSizeFits(arg: uint64)
    ensures arg < Pow256(ArgumentSize(arg)) || (ArgumentSize(arg) == 0 && arg < 24)
  {
    assert Pow256(1) == 0x100 && Pow256(2) == 0x1_0000;
    assert Pow256(4) == 0x1_0000_0000 && Pow256(8) == TWO_64;
  }

  /** The additional-information value announcing `n` argument bytes. */
  function AdditionalInfo(arg: uint64): (ai: nat)
    ensures ai < 28
  {
    match ArgumentSize(arg)
    case 0 => arg
    case 1 => 24
    case 2 => 25
    case 4 => 26
    case _ => 27
  }

  function Head(major: nat, arg: uint64): (h: seq<byte>)
    requires major < 8
    ensures |h| == 1 + ArgumentSize(arg)
  {
    var n := ArgumentSize(arg);
    [major * 32 + AdditionalInfo(arg)] + (if n == 0 then [] else (ArgumentSizeFits(arg); BigEndian(arg, n)))
  }

  datatype HeadInfo = HeadInfo(major: nat, ai: nat, arg: uint64, size: nat)

  /** Reads the initial byte and the argument; reserved values 28-31 and the
      indefinite-length marker are not part of this subset. */
  function ParseHead(b: seq<byte>): (r: Option<HeadInfo>)
    ensures r.Some? ==> 1 <= r.value.size <= |b| && r.value.major < 8
  {
    if b == [] then None
    else
      var major, ai := b[0] / 32, b[0] % 32;
      var n := if ai < 24 then 0 else if ai == 24 then 1 else if ai == 25 then 2
               else if ai == 26 then 4 else if ai == 27 then 8 else 9;
      if n == 9 || |b| < 1 + n then None
      else
        var arg := if n == 0 then ai else FromBigEndian(b[1..1 + n]);
        assert arg < TWO_64 by {
          if n > 0 {
            assert Pow256(n) <= Pow256(8) == TWO_64 by { PowMonotone(n, 8); }
          }
        }
        Some(HeadInfo(major, ai, arg, 1 + n))
  }

  lemma {:induction false} PowMonotone(m: nat, n: nat)
    requires m <= n
    ensures Pow256(m) <= Pow256(n)
    decreases n
  {
    if m < n {
      PowMonotone(m, n - 1);
    }
  }

  lemma HeadRoundTrip(major: nat, arg: uint64, rest: seq<byte>)
    requires major < 8
    ensures ParseHead(Head(major, arg) + rest)
         == Some(HeadInfo(major, AdditionalInfo(arg), arg, |Head(major, arg)|))
  {
    var n := ArgumentSize(arg);
    var ai := AdditionalInfo(arg);
    var b := Head(major, arg) + rest;
    assert b[0] == major * 32 + ai;
    assert b[0] / 32 == major && b[0] % 32 == ai;
    if n > 0 {
      ArgumentSizeFits(arg);
      assert b[1..1 + n] == BigEndian(arg, n);
      BigEndianRoundTrip(arg, n);
      assert FromBigEndian(b[1..1 + n]) == arg;
    }
  }

  lemma Float64HeadRoundTrip(bits: uint64, rest: seq<byte>)
    ensures ParseHead([0xFB] + BigEndian(bits, 8) + rest)
         == Some(HeadInfo(MAJOR_SIMPLE, AI_FLOAT64, bits, 9))
  {
    var b := [0xFB] + BigEndian(bits, 8) + rest;
    assert b[0] == 0xFB && b[0] / 32 == MAJOR_SIMPLE && b[0] % 32 == AI_FLOAT64;
    assert b[1..9] == BigEndian(bits, 8);
    BigEndianRoundTrip(bits, 8);
    assert FromBigEndian(b[1..9]) == bits;
  }

  // ---- serialiser -----------------------------------------------------------

  function Serialize(x: Item): (r: seq<byte>)
    requires WellFormed(x)
    ensures |r| >= 1
    decreases x, if x.Map? then |x.entries| + 1 else 0
  {
    match x
    case UInt(v) => Head(MAJOR_UINT, v)
    case NegInt(a) => Head(MAJOR_NEGINT, a)
    case Text(s) => Head(MAJOR_TEXT, |s|) + s
    case Float64(bits) => [0xFB] + BigEndian(bits, 8)
    case Map(es) => Head(MAJOR_MAP, |es|) + SerializeEntries(es, x)
  }

  /** The key and value of each entry in turn; `owner` is the map they belong to. */
  function SerializeEntries(es: seq<Entry>, ghost owner: Item): (r: seq<byte>)
    requires owner.Map? && WellFormed(owner)
    requires forall e | e in es :: e in owner.entries
    decreases owner, |es|
  {
    if es == [] then []
    else
      assert es[0] in owner.entries;
      Serialize(es[0].key) + Serialize(es[0].value) + SerializeEntries(es[1..], owner)
  }

  /** One step of `SerializeEntries`. */
  lemma SerializeEntriesCons(es: seq<Entry>, owner: Item)
    requires owner.Map? && WellFormed(owner) && es != []
    requires forall e | e in es :: e in owner.entries
    ensures es[0] in owner.entries && WellFormed(es[0].key) && WellFormed(es[0].value)
    ensures SerializeEntries(es, owner)
         == Serialize(es[0].key) + Serialize(es[0].value) + SerializeEntries(es[1..], owner)
  {
    assert es[0] in owner.entries;
  }

  /** A map of three entries is its head followed by the three keys and values in order. */
  lemma SerializeMap3(k0: Item, v0: Item, k1: Item, v1: Item, k2: Item, v2: Item)
    requires WellFormed(k0) && WellFormed(v0) && WellFormed(k1) && WellFormed(v1)
    requires WellFormed(k2) && WellFormed(v2)
    ensures var m := Map([Entry(k0, v0), Entry(k1, v1), Entry(k2, v2)]);
      WellFormed(m) &&
      Serialize(m) == Head(MAJOR_MAP, 3) + Serialize(k0) + Serialize(v0) + Serialize(k1)
                      + Serialize(v1) + Serialize(k2) + Serialize(v2)
  {
    var m := Map([Entry(k0, v0), Entry(k1, v1), Entry(k2, v2)]);
    var es := m.entries;
    assert WellFormed(m);
    assert es[1..] == [Entry(k1, v1), Entry(k2, v2)];
    assert es[2..] == es[1..][1..] == [Entry(k2, v2)];
    assert es[2..][1..] == [];
    SerializeEntriesCons(es, m);
    SerializeEntriesCons(es[1..], m);
    SerializeEntriesCons(es[2..], m);
    assert SerializeEntries(es[2..][1..], m) == [];
    Concat7(Head(MAJOR_MAP, 3), Serialize(k0), Serialize(v0), Serialize(k1), Serialize(v1),
            Serialize(k2), Serialize(v2));
  }

  lemma Concat7<T>(h: seq<T>, a: seq<T>, b: seq<T>, c: seq<T>, d: seq<T>, e: seq<T>, f: seq<T>)
    ensures h + (a + b + (c + d + (e + f + []))) == h + a + b + c + d + e + f
  {
    assert e + f + [] == e + f;
  }
}
