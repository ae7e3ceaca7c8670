/**
  The part of TinyCBOR's API the employee codec calls, stated over the `Item`
  datatype. Reading: a value is either an item (`Some`) or TinyCBOR's invalid
  element (`None`), which is what `cbor_value_map_find_value` leaves behind for
  a key that is not there. Writing: `CborEncoder` keeps TinyCBOR's encoder state
  (write pointer, end, overflow mode with its byte count, items still expected
  in the open container) over a byte array shared by a parent encoder and the
  container encoders opened inside it.
 */
module TinyCbor {
  import opened CTypes
  import opened Cbor

  /** The `CborError` codes these calls can produce. */
  datatype CborError = NoError | IllegalType | ImproperValue | OutOfMemory | TooManyItems | TooFewItems

  // ---- reading ----------------------------------------------------------------

  predicate IsMap(v: Option<Item>)
  {
    v.Some? && v.value.Map?
  }

  /** `cbor_value_map_find_value`: the value of the first entry whose key is the
      text string `key`; entries with keys of other types are skipped. */
  function FindValue(es: seq<Entry>, key: seq<byte>): (r: Option<Item>)
    ensures r.Some? <==> exists k :: 0 <= k < |es| && es[k].key == Text(key)
    ensures r.Some? ==> exists k :: 0 <= k < |es| && es[k] == Entry(Text(key), r.value) &&
                          forall j :: 0 <= j < k ==> es[j].key != Text(key)
  {
    if es == [] then None
    else if es[0].key == Text(key) then Some(es[0].value)
    else
      var r := FindValue(es[1..], key);
      if r.Some? then
        ghost var k :| 0 <= k < |es[1..]| && es[1..][k] == Entry(Text(key), r.value) &&
                       forall j :: 0 <= j < k ==> es[1..][j].key != Text(key);
        assert es[k + 1] == Entry(Text(key), r.value);
        r
      else
        assert forall k :: 1 <= k < |es| ==> es[k] == es[1..][k - 1];
        r
  }

  function MapFindValue(v: Item, key: seq<byte>): (r: Option<Item>)
    requires v.Map?
  {
    FindValue(v.entries, key)
  }

  /** Every text key occurs at most once. */
  predicate UniqueKeys(es: seq<Entry>)
  {
    forall i, j :: 0 <= i < j < |es| && es[i].key.Text? ==> es[i].key != es[j].key
  }

  /** With unique keys, the lookup finds exactly the entries that are present,
      so the order of the entries does not matter. */
  lemma FindValueMember(es: seq<Entry>, key: seq<byte>, v: Item)
    requires UniqueKeys(es)
    ensures FindValue(es, key) == Some(v) <==> Entry(Text(key), v) in es
  {
    if Entry(Text(key), v) in es {
      var k :| 0 <= k < |es| && es[k] == Entry(Text(key), v);
      var r := FindValue(es, key);
      var k' :| 0 <= k' < |es| && es[k'] == Entry(Text(key), r.value) &&
                forall j :: 0 <= j < k' ==> es[j].key != Text(key);
      assert !(k < k') && !(k' < k);
    }
  }

  lemma FindValuePermutation(es: seq<Entry>, es': seq<Entry>, key: seq<byte>)
    requires UniqueKeys(es) && UniqueKeys(es') && multiset(es) == multiset(es')
    ensures FindValue(es, key) == FindValue(es', key)
  {
    forall v: Item
      ensures FindValue(es, key) == Some(v) <==> FindValue(es', key) == Some(v)
    {
      FindValueMember(es, key, v);
      FindValueMember(es', key, v);
      assert Entry(Text(key), v) in es <==> Entry(Text(key), v) in multiset(es');
    }
  }

  /** The lookup in a map of three entries. */
  lemma FindValue3(k0: Item, v0: Item, k1: Item, v1: Item, k2: Item, v2: Item, key: seq<byte>)
    ensures FindValue([Entry(k0, v0), Entry(k1, v1), Entry(k2, v2)], key)
         == if k0 == Text(key) then Some(v0) else if k1 == Text(key) then Some(v1)
            else if k2 == Text(key) then Some(v2) else None
  {
    var es := [Entry(k0, v0), Entry(k1, v1), Entry(k2, v2)];
    assert es[1..] == [Entry(k1, v1), Entry(k2, v2)];
    assert es[1..][1..] == [Entry(k2, v2)];
    assert es[1..][1..][1..] == [];
    assert FindValue(es[1..][1..], key) == if k2 == Text(key) then Some(v2) else None;
    assert FindValue(es[1..], key) == if k1 == Text(key) then Some(v1) else FindValue(es[1..][1..], key);
  }

  /** Entries after the first match do not change the lookup. */
  lemma {:induction false} FindValueAppend(es: seq<Entry>, extra: seq<Entry>, key: seq<byte>)
    requires FindValue(es, key).Some?
    ensures FindValue(es + extra, key) == FindValue(es, key)
  {
    if es[0].key != Text(key) {
      assert (es + extra)[1..] == es[1..] + extra;
      FindValueAppend(es[1..], extra, key);
    }
  }

  /** The result of a typed getter: an error code and, on `NoError`, the value. */
  datatype Got<T> = Got(err: CborError, value: T)

  /** `cbor_value_get_string_length` on a text string. TinyCBOR asserts the
      type; the model answers `IllegalType` instead. */
  function GetStringLength(v: Option<Item>): (r: Got<nat>)
    ensures r.err == NoError <==> v.Some? && v.value.Text?
    ensures r.err == NoError ==> r.value == |v.value.bytes|
    ensures r.err != NoError ==> r.err == IllegalType
  {
    if v.Some? && v.value.Text? then Got(NoError, |v.value.bytes|) else Got(IllegalType, 0)
  }

  /** `cbor_value_get_double`: the bit pattern of a binary64 item. */
  function GetDouble(v: Option<Item>): (r: Got<uint64>)
    ensures r.err == NoError <==> v.Some? && v.value.Float64?
    ensures r.err == NoError ==> r.value == v.value.bits
    ensures r.err != NoError ==> r.err == IllegalType
  {
    if v.Some? && v.value.Float64? then Got(NoError, v.value.bits) else Got(IllegalType, 0)
  }

  /** `cbor_value_get_int`: the argument cut to a 32-bit `int`, then
      `-result - 1` in `int` arithmetic for a negative integer. */
  function GetInt(v: Option<Item>): (r: Got<int32>)
    ensures r.err == NoError <==> v.Some? && (v.value.UInt? || v.value.NegInt?)
    ensures r.err == NoError ==> SameLow32(r.value, IntegerValue(v.value))
    ensures r.err != NoError ==> r.err == IllegalType
  {
    if v.Some? && v.value.UInt? then Got(NoError, Wrap32(v.value.value))
    else if v.Some? && v.value.NegInt? then Got(NoError, Wrap32(-(Wrap32(v.value.arg) as int) - 1))
    else Got(IllegalType, 0)
  }

  /** An integer in `int` range comes back unchanged. */
  lemma GetIntInRange(x: Item)
    requires x.UInt? || x.NegInt?
    requires -0x8000_0000 <= IntegerValue(x) < 0x8000_0000
    ensures GetInt(Some(x)) == Got(NoError, IntegerValue(x))
  {
    if x.NegInt? {
      Wrap32InRange(x.arg);
      Wrap32InRange(-1 - x.arg);
    } else {
      Wrap32InRange(x.value);
    }
  }

  /** The bytes of a buffer of length `|buf|` after `cbor_value_copy_text_string`
      with capacity `buflen` copied the text `s`: `None` is a write past the end
      of the buffer. The call fails with `OutOfMemory`, writing nothing, when the
      text is longer than the capacity; it writes a NUL only when there is room. */
  datatype Copied = Copied(err: CborError, buf: seq<byte>)

  function CopyTextString(buf: seq<byte>, s: seq<byte>, buflen: nat): (r: Option<Copied>)
    ensures r.None? <==> |s| <= buflen && |buf| < |s| + (if |s| < buflen then 1 else 0)
    ensures r.Some? && r.value.err == NoError ==> |s| <= |buf| == |r.value.buf| && r.value.buf[..|s|] == s
    ensures r.Some? && r.value.err != NoError ==> r.value == Copied(OutOfMemory, buf)
    ensures r.Some? ==> (r.value.err == OutOfMemory <==> |s| > buflen)
    ensures r.Some? && r.value.err == NoError && |s| < buflen ==> r.value.buf[|s|] == 0
    ensures r.Some? && r.value.err == NoError
         ==> var n := |s| + (if |s| < buflen then 1 else 0); r.value.buf[n..] == buf[n..]
  {
    if |s| > buflen then Some(Copied(OutOfMemory, buf))
    else
      var written := if |s| < buflen then s + [0] else s;
      if |written| > |buf| then None
      else Some(Copied(NoError, written + buf[|written|..]))
  }

  /** `cbor_value_copy_text_string(value, buf, &buflen, NULL)` on a text string
      `s`, when everything it writes lies inside `buf`. */
  method CopyTextStringTo(s: seq<byte>, buf: array<byte>, buflen: nat) returns (err: CborError)
    requires CopyTextString(buf[..], s, buflen).Some?
    modifies buf
    ensures Copied(err, buf[..]) == CopyTextString(old(buf[..]), s, buflen).value
  {
    if |s| > buflen {
      err := OutOfMemory;
    } else {
      forall k | 0 <= k < |s| {
        buf[k] := s[k];
      }
      if |s| < buflen {
        buf[|s|] := 0;
        assert buf[..] == s + [0] + old(buf[..])[|s| + 1..];
      } else {
        assert buf[..] == s + old(buf[..])[|s|..];
      }
      err := NoError;
    }
  }

  /** A `CborValue` iterator: the items from its position to the end of the
      sequence it walks. At the end it is TinyCBOR's invalid element. */
  class CborValue {
    var items: seq<Item>

    constructor (items: seq<Item>)
      ensures this.items == items
    {
      this.items := items;
    }

    function Current(): (v: Option<Item>)
      reads this
      ensures v.Some? <==> items != []
      ensures v.Some? ==> v.value == items[0]
    {
      if items == [] then None else Some(items[0])
    }

    /** `cbor_value_advance` past the current item. */
    method Advance()
      requires items != []
      modifies this
      ensures items == old(items)[1..]
    {
      items := items[1..];
    }
  }

  // ---- writing ----------------------------------------------------------------

  /** `buf` with `data` written from position `at` on. */
  function Splice(buf: seq<byte>, at: nat, data: seq<byte>): (r: seq<byte>)
    requires at + |data| <= |buf|
    ensures |r| == |buf| && r[..at] == buf[..at] && r[at..at + |data|] == data
    ensures r[at + |data|..] == buf[at + |data|..]
  {
    buf[..at] + data + buf[at + |data|..]
  }

  lemma SpliceTwice(buf: seq<byte>, at: nat, a: seq<byte>, b: seq<byte>)
    requires at + |a| + |b| <= |buf|
    ensures Splice(Splice(buf, at, a), at + |a|, b) == Splice(buf, at, a + b)
  {
    var l, r := Splice(Splice(buf, at, a), at + |a|, b), Splice(buf, at, a + b);
    assert l[at..at + |a|] == Splice(buf, at, a)[at..at + |a|];
    assert l[at..at + |a| + |b|] == l[at..at + |a|] + l[at + |a|..at + |a| + |b|];
    assert l == l[..at] + l[at..at + |a| + |b|] + l[at + |a| + |b|..];
    assert r == r[..at] + r[at..at + |a| + |b|] + r[at + |a| + |b|..];
  }

  /** `b1` differs from `b0` at most in positions `lo` to `hi - 1`. */
  ghost predicate Framed(b0: seq<byte>, b1: seq<byte>, lo: nat, hi: nat)
  {
    |b1| == |b0| && lo <= hi <= |b0| && b1[..lo] == b0[..lo] && b1[hi..] == b0[hi..]
  }

  lemma SpliceFramed(b: seq<byte>, at: nat, data: seq<byte>, lo: nat, hi: nat)
    requires lo <= at && at + |data| <= hi <= |b|
    ensures Framed(b, Splice(b, at, data), lo, hi)
  {
    var r := Splice(b, at, data);
    assert r[..lo] == r[..at][..lo];
    assert r[hi..] == r[at + |data|..][hi - at - |data|..];
  }

  lemma FramedTrans(b0: seq<byte>, b1: seq<byte>, b2: seq<byte>, lo: nat, mid: nat, hi: nat)
    requires Framed(b0, b1, lo, hi) && Framed(b1, b2, mid, hi) && lo <= mid
    ensures Framed(b0, b2, lo, hi)
  {
    assert b2[..lo] == b2[..mid][..lo];
    assert b1[..lo] == b1[..mid][..lo];
  }

  /** `b1` is `b0` with some prefix of `data` written at `at`, ending before `end`:
      what an encoder that stopped part-way leaves behind. */
  ghost predicate PrefixWritten(b0: seq<byte>, b1: seq<byte>, at: nat, end: nat, data: seq<byte>)
  {
    exists n :: 0 <= n <= |data| && at + n <= end <= |b0| && b1 == Splice(b0, at, data[..n])
  }

  lemma PrefixWrittenAt(b0: seq<byte>, at: nat, end: nat, data: seq<byte>, n: nat)
    requires n <= |data| && at + n <= end <= |b0|
    ensures PrefixWritten(b0, Splice(b0, at, data[..n]), at, end, data)
  {
  }

  lemma SpliceNothing(b: seq<byte>, at: nat)
    requires at <= |b|
    ensures Splice(b, at, []) == b
  {
    assert b[..at] + b[at..] == b;
  }

  /** An append of `x` that did not fit, after `acc` was written: what the
      buffer holds is a prefix of `data`, which does not fit either. */
  lemma AppendFailed(b0: seq<byte>, at: nat, end: nat, acc: seq<byte>, x: seq<byte>, data: seq<byte>)
    requires acc + x <= data && at + |acc| <= end <= |b0| && at + |acc| + |x| > end
    ensures PrefixWritten(b0, Splice(b0, at, acc), at, end, data) && at + |data| > end
  {
    assert data[..|acc|] == acc;
    PrefixWrittenAt(b0, at, end, data, |acc|);
  }

  /** A text string (head `h`, characters `s`) that did not fit after `acc`:
      the head may have been written, and what the buffer holds is a prefix of `data`. */
  lemma TextFailed(b0: seq<byte>, at: nat, end: nat, acc: seq<byte>, h: seq<byte>, s: seq<byte>,
                   data: seq<byte>, headFits: bool)
    requires acc + (h + s) <= data && at + |acc| <= end <= |b0| && at + |acc| + |h| + |s| > end
    requires headFits ==> at + |acc| + |h| <= end
    ensures var b1 := if headFits then Splice(Splice(b0, at, acc), at + |acc|, h) else Splice(b0, at, acc);
      PrefixWritten(b0, b1, at, end, data) && at + |data| > end
  {
    if headFits {
      SpliceTwice(b0, at, acc, h);
      assert data[..|acc| + |h|] == acc + h by {
        assert (acc + (h + s))[..|acc| + |h|] == acc + h;
      }
      PrefixWrittenAt(b0, at, end, data, |acc| + |h|);
    } else {
      AppendFailed(b0, at, end, acc, h + s, data);
    }
  }

  /** A prefix of `inner` written after `acc`, where `acc + inner` begins `data`,
      is a prefix of `data`. */
  lemma PrefixWrittenAfter(b0: seq<byte>, b1: seq<byte>, at: nat, end: nat, acc: seq<byte>,
                           inner: seq<byte>, data: seq<byte>)
    requires acc + inner <= data && at + |acc| <= end <= |b0|
    requires PrefixWritten(Splice(b0, at, acc), b1, at + |acc|, end, inner)
    ensures PrefixWritten(b0, b1, at, end, data)
  {
    var n :| 0 <= n <= |inner| && at + |acc| + n <= end && b1 == Splice(Splice(b0, at, acc), at + |acc|, inner[..n]);
    SpliceTwice(b0, at, acc, inner[..n]);
    assert data[..|acc| + n] == acc + inner[..n] by {
      assert (acc + inner)[..|acc| + n] == acc + inner[..n];
    }
    PrefixWrittenAt(b0, at, end, data, |acc| + n);
  }

  /** Writing bytes a buffer already holds changes nothing. */
  lemma SpliceSame(b: seq<byte>, at: nat, x: seq<byte>)
    requires at + |x| <= |b| && b[at..at + |x|] == x
    ensures Splice(b, at, x) == b
  {
    assert b == b[..at] + b[at..at + |x|] + b[at + |x|..];
  }

  /** Writing a prefix of `data` over a prefix of `data` leaves the longer of the two. */
  lemma SplicePrefixes(b0: seq<byte>, at: nat, data: seq<byte>, n1: nat, n2: nat)
    requires n1 <= |data| && n2 <= |data| && at + n1 <= |b0| && at + n2 <= |b0|
    ensures Splice(Splice(b0, at, data[..n1]), at, data[..n2])
         == Splice(b0, at, data[..if n1 <= n2 then n2 else n1])
  {
    var b1 := Splice(b0, at, data[..n1]);
    if n1 <= n2 {
      assert b1[at + n2..] == b0[at + n2..] by {
        assert b1[at + n2..] == b1[at + n1..][n2 - n1..];
        assert b0[at + n2..] == b0[at + n1..][n2 - n1..];
      }
    } else {
      assert b1[at..at + n2] == data[..n2] by {
        assert b1[at..at + n2] == b1[at..at + n1][..n2];
        assert data[..n2] == data[..n1][..n2];
      }
      SpliceSame(b1, at, data[..n2]);
    }
  }

  /** Two partial writes of the same bytes at the same place are one partial write. */
  lemma PrefixWrittenTwice(b0: seq<byte>, b1: seq<byte>, b2: seq<byte>, at: nat, end: nat, data: seq<byte>)
    requires PrefixWritten(b0, b1, at, end, data) && PrefixWritten(b1, b2, at, end, data)
    ensures PrefixWritten(b0, b2, at, end, data)
  {
    var n1 :| 0 <= n1 <= |data| && at + n1 <= end <= |b0| && b1 == Splice(b0, at, data[..n1]);
    var n2 :| 0 <= n2 <= |data| && at + n2 <= end <= |b1| && b2 == Splice(b1, at, data[..n2]);
    SplicePrefixes(b0, at, data, n1, n2);
    PrefixWrittenAt(b0, at, end, data, if n1 <= n2 then n2 else n1);
  }

  /** `saturated_decrement`: the count of items a container still expects. */
  function Dec(n: nat): nat
  {
    if n > 0 then n - 1 else 0
  }

  /** The bytes `cbor_encode_double` appends: 0xFB, then the bits big-endian. */
  function DoubleBytes(bits: uint64): (r: seq<byte>)
    ensures |r| == 9
  {
    [0xFB] + BigEndian(bits, 8)
  }

  class CborEncoder {
    const buf: array<byte>
    /** `data.ptr - buffer` while the output still fits. */
    var ptr: nat
    /** `end - buffer`. */
    var end: nat
    /** `end == NULL`: the buffer ran out and only the bytes still needed are counted. */
    var overflowed: bool
    /** `data.bytes_needed` in overflow mode. */
    var needed: nat
    /** Items the open container still expects, plus one. */
    var remaining: nat

    ghost predicate Valid()
      reads this
    {
      ptr <= end <= buf.Length
    }

    /** `cbor_encoder_init(encoder, buffer, size, 0)`. */
    constructor Init(buffer: array<byte>, size: nat)
      requires size <= buffer.Length
      ensures Valid() && buf == buffer && ptr == 0 && end == size && !overflowed && remaining == 2
    {
      buf := buffer;
      ptr, end, overflowed, needed, remaining := 0, size, false, 0, 2;
    }

    /** An encoder that a `cbor_encoder_create_map` call will set up: the
        caller's uninitialised `CborEncoder` on the stack. */
    constructor Blank(buffer: array<byte>)
      ensures Valid() && buf == buffer
    {
      buf := buffer;
      ptr, end, overflowed, needed, remaining := 0, 0, false, 0, 0;
    }

    /** The effect of appending `data` with `append_to_buffer`: when the
        encoder is not in overflow mode and `data` fits before the end, it is
        written at the pointer, which moves past it; otherwise nothing is
        written, `OutOfMemory` is the result and the encoder counts in overflow
        mode the bytes it would have needed. */
    twostate predicate Appended(data: seq<byte>, err: CborError)
      reads this, buf
    {
      var fits := !old(overflowed) && old(ptr) + |data| <= end;
      && Valid() && end == old(end)
      && (err == if fits then NoError else OutOfMemory)
      && (fits ==> ptr == old(ptr) + |data| && !overflowed && needed == old(needed)
                   && buf[..] == Splice(old(buf[..]), old(ptr), data))
      && (!fits ==> ptr == old(ptr) && overflowed && buf[..] == old(buf[..])
                    && needed == if old(overflowed) then old(needed) + |data| else old(ptr) + |data| - end)
    }

    /** `append_to_buffer`. */
    method Append(data: seq<byte>) returns (err: CborError)
      requires Valid()
      modifies this`ptr, this`overflowed, this`needed, buf
      ensures Appended(data, err)
      ensures Framed(old(buf[..]), buf[..], old(ptr), end)
    {
      if !overflowed && ptr + |data| <= end {
        forall k | 0 <= k < |data| {
          buf[ptr + k] := data[k];
        }
        assert buf[..] == Splice(old(buf[..]), old(ptr), data);
        SpliceFramed(old(buf[..]), ptr, data, ptr, end);
        ptr := ptr + |data|;
        err := NoError;
      } else {
        needed := if overflowed then needed + |data| else ptr + |data| - end;
        overflowed := true;
        err := OutOfMemory;
      }
    }

    /** `cbor_encode_uint`: an item of major type 0 with the shortest head. */
    method EncodeUint(value: uint64) returns (err: CborError)
      requires Valid()
      modifies this`ptr, this`overflowed, this`needed, this`remaining, buf
      ensures Appended(Head(MAJOR_UINT, value), err) && remaining == Dec(old(remaining))
      ensures Framed(old(buf[..]), buf[..], old(ptr), end)
    {
      remaining := Dec(remaining);
      err := Append(Head(MAJOR_UINT, value));
    }

    /** `cbor_encode_double`: 0xFB and the eight bytes of the value, in one append. */
    method EncodeDouble(bits: uint64) returns (err: CborError)
      requires Valid()
      modifies this`ptr, this`overflowed, this`needed, this`remaining, buf
      ensures Appended(DoubleBytes(bits), err) && remaining == Dec(old(remaining))
      ensures Framed(old(buf[..]), buf[..], old(ptr), end)
    {
      remaining := Dec(remaining);
      err := Append(DoubleBytes(bits));
    }

    /** `cbor_encode_text_stringz` of a C string whose characters are `s`: the
        head and the characters are appended one after the other, so the head
        can be written although the characters then do not fit. */
    method EncodeTextStringz(s: seq<byte>) returns (err: CborError)
      requires Valid() && |s| < TWO_64
      modifies this`ptr, this`overflowed, this`needed, this`remaining, buf
      ensures Valid() && end == old(end) && remaining == Dec(old(remaining))
      ensures Framed(old(buf[..]), buf[..], old(ptr), end)
      ensures var h := Head(MAJOR_TEXT, |s|);
        var fits := !old(overflowed) && old(ptr) + |h| + |s| <= end;
        var headFits := !old(overflowed) && old(ptr) + |h| <= end;
        && (err == if fits then NoError else OutOfMemory)
        && (fits ==> ptr == old(ptr) + |h| + |s| && !overflowed && needed == old(needed)
                     && buf[..] == Splice(old(buf[..]), old(ptr), h + s))
        && (!fits ==> overflowed
                      && ptr == (if headFits then old(ptr) + |h| else old(ptr))
                      && buf[..] == (if headFits then Splice(old(buf[..]), old(ptr), h) else old(buf[..]))
                      && needed == if old(overflowed) then old(needed) + |h| + |s| else old(ptr) + |h| + |s| - end)
    {
      remaining := Dec(remaining);
      var h := Head(MAJOR_TEXT, |s|);
      err := Append(h);
      if err == NoError && ptr + |s| <= end {
        SpliceTwice(old(buf[..]), old(ptr), h, s);
      }
      ghost var mid, b1 := ptr, buf[..];
      err := Append(s);
      FramedTrans(old(buf[..]), b1, buf[..], old(ptr), mid, end);
    }

    /** `cbor_encoder_create_map(this, container, length)`: `container` takes
        over the pointer, end and overflow state, counts the `2 * length` keys
        and values it expects, and receives the map head. The parent counts the
        map as one item; its pointer moves only when the map is closed. */
    method CreateMap(container: CborEncoder, length: nat) returns (err: CborError)
      requires Valid() && container != this && container.buf == buf && length < TWO_64
      modifies this`remaining, container, buf
      ensures remaining == Dec(old(remaining))
      ensures container.remaining == 2 * length + 1
      ensures container.end == end
      ensures Framed(old(buf[..]), buf[..], ptr, end)
      ensures var h := Head(MAJOR_MAP, length);
        var fits := !overflowed && ptr + |h| <= end;
        && container.Valid()
        && (err == if fits then NoError else OutOfMemory)
        && (fits ==> container.ptr == ptr + |h| && !container.overflowed && container.needed == needed
                     && buf[..] == Splice(old(buf[..]), ptr, h))
        && (!fits ==> container.ptr == ptr && container.overflowed && buf[..] == old(buf[..])
                      && container.needed == if overflowed then needed + |h| else ptr + |h| - end)
    {
      container.ptr, container.end, container.overflowed, container.needed := ptr, end, overflowed, needed;
      remaining := Dec(remaining);
      container.remaining := length + 1 + length;
      err := container.Append(Head(MAJOR_MAP, length));
    }

    /** `cbor_encoder_close_container(this, container)`: the parent takes the
        container's pointer and overflow state back, then the container must
        have received exactly the items it announced. */
    method CloseContainer(container: CborEncoder) returns (err: CborError)
      requires Valid() && container.Valid() && container.buf == buf
      modifies this`ptr, this`end, this`overflowed, this`needed
      ensures Valid()
      ensures ptr == container.ptr && end == container.end
      ensures overflowed == container.overflowed && needed == container.needed
      ensures err == if container.remaining != 1 then (if container.remaining == 0 then TooManyItems else TooFewItems)
                     else if overflowed then OutOfMemory else NoError
    {
      ptr, end, overflowed, needed := container.ptr, container.end, container.overflowed, container.needed;
      if container.remaining != 1 {
        err := if container.remaining == 0 then TooManyItems else TooFewItems;
      } else if overflowed {
        err := OutOfMemory;
      } else {
        err := NoError;
      }
    }

    /** `cbor_encoder_get_buffer_size`: the bytes written so far, meaningful
        only outside overflow mode. */
    function BufferSize(): (n: nat)
      reads this
      requires !overflowed
      ensures n == ptr
    {
      ptr
    }
  }
}
