/**
  C scalar types of the ESP32 target (32-bit `int` and `size_t`), the 64-bit
  integers TinyCBOR works with, and the C-string helpers the firmware relies on:
  strlen, ASCII tolower (as used by strcasecmp), strlcpy, strlcat and strncpy,
  all stated on values. A C string is a `string` with one `char` per byte, so
  every length here counts bytes.
 */
module CTypes {

  type byte = b: int | 0 <= b < 0x100
  type uint32 = n: int | 0 <= n < 0x1_0000_0000
  type uint64 = n: int | 0 <= n < 0x1_0000_0000_0000_0000
  type int32 = n: int | -0x8000_0000 <= n < 0x8000_0000

  datatype Option<+T> = None | Some(value: T)

  /** `a` and `b` agree in their low 32 bits. */
  predicate SameLow32(a: int, b: int)
  {
    (a - b) % 0x1_0000_0000 == 0
  }

  /** The two's-complement value of the low 32 bits of `n`: what C's conversion
      to `int` yields on this target (GCC reduces modulo 2^32). */
  function Wrap32(n: int): (r: int32)
    ensures SameLow32(r, n)
  {
    var low := n % 0x1_0000_0000;
    if low < 0x8000_0000 then low else low - 0x1_0000_0000
  }

  lemma Wrap32InRange(n: int)
    requires -0x8000_0000 <= n < 0x8000_0000
    ensures Wrap32(n) == n
  {
    if n < 0 {
      assert n % 0x1_0000_0000 == n + 0x1_0000_0000;
    }
  }

  /** C's implicit conversion of a signed `int` to `uint64_t`: the one
      `uint64_t` congruent to `n` modulo 2^64. */
  function ToUint64(n: int32): (r: uint64)
    ensures (r - n) % 0x1_0000_0000_0000_0000 == 0
  {
    if n >= 0 then n else n + 0x1_0000_0000_0000_0000
  }

  /** Truncating a 64-bit image of an `int` back to `int` gives the original value. */
  lemma Wrap32ToUint64(n: int32)
    ensures Wrap32(ToUint64(n)) == n
  {
    if n < 0 {
      assert ToUint64(n) % 0x1_0000_0000 == n + 0x1_0000_0000;
    }
  }

  /** The characters of a C string: everything before the first `stop` (the NUL). */
  function TakeUntil<T(==)>(s: seq<T>, stop: T): (r: seq<T>)
    ensures |r| <= |s| && r == s[..|r|]
    ensures stop !in r
    ensures |r| < |s| ==> s[|r|] == stop
  {
    if s == [] || s[0] == stop then [] else [s[0]] + TakeUntil(s[1..], stop)
  }

  lemma {:induction false} TakeUntilNoStop<T>(s: seq<T>, stop: T)
    requires stop !in s
    ensures TakeUntil(s, stop) == s
  {
    if s != [] {
      TakeUntilNoStop(s[1..], stop);
    }
  }

  /** A stop byte ends the C string: what follows it is never read. */
  lemma {:induction false} TakeUntilTerminated<T>(s: seq<T>, rest: seq<T>, stop: T)
    ensures TakeUntil(s + [stop] + rest, stop) == TakeUntil(s, stop)
  {
    if s != [] && s[0] != stop {
      assert (s + [stop] + rest)[1..] == s[1..] + [stop] + rest;
      TakeUntilTerminated(s[1..], rest, stop);
    }
  }

  /** ASCII `tolower`, as the C locale defines it. */
  function ToLower(c: char): (r: char)
    ensures 'A' <= c <= 'Z' ==> r as int == c as int + 32
    ensures !('A' <= c <= 'Z') ==> r == c
  {
    if 'A' <= c <= 'Z' then (c as int + 32) as char else c
  }

  /** `strcasecmp(a, b) == 0` for strings without a NUL. */
  predicate EqualIgnoreCase(a: string, b: string)
  {
    |a| == |b| && forall i :: 0 <= i < |a| ==> ToLower(a[i]) == ToLower(b[i])
  }

  function LowerString(s: string): (r: string)
    ensures |r| == |s| && forall i :: 0 <= i < |s| ==> r[i] == ToLower(s[i])
  {
    if s == [] then [] else [ToLower(s[0])] + LowerString(s[1..])
  }

  lemma EqualIgnoreCaseLower(a: string, b: string)
    ensures EqualIgnoreCase(a, b) <==> LowerString(a) == LowerString(b)
  {
    if EqualIgnoreCase(a, b) {
      assert forall i :: 0 <= i < |a| ==> LowerString(a)[i] == LowerString(b)[i];
    }
    if LowerString(a) == LowerString(b) {
      assert forall i :: 0 <= i < |a| ==> LowerString(a)[i] == ToLower(a[i]);
    }
  }

  predicate NoNul(s: string)
  {
    '\0' !in s
  }

  /** `strlcpy(dst, src, size)`, size > 0: the C string left in `dst`. */
  function StrlCpy(src: string, size: nat): (r: string)
    requires size > 0
    ensures |r| < size && |r| <= |src|
    ensures r == src[..|r|]
    ensures |src| < size ==> r == src
    ensures |src| >= size ==> |r| == size - 1
  {
    if |src| < size then src else src[..size - 1]
  }

  /** `strlcat(dst, src, size)` when `dst` already holds a C string shorter than `size`. */
  function StrlCat(dst: string, src: string, size: nat): (r: string)
    requires |dst| < size
    ensures |r| < size && |r| <= |dst| + |src|
    ensures r == (dst + src)[..|r|]
    ensures |dst| + |src| < size ==> r == dst + src
    ensures |dst| + |src| >= size ==> |r| == size - 1
  {
    dst + StrlCpy(src, size - |dst|)
  }

  /** The `n` characters `strncpy(dst, src, n)` leaves in `dst`: the string,
      then NUL padding up to `n` (and no terminator when `src` has `n` or more characters). */
  function StrNCpy(src: string, n: nat): (r: string)
    ensures |r| == n
    ensures |src| >= n ==> r == src[..n]
    ensures |src| < n ==> r[..|src|] == src && forall i :: |src| <= i < n ==> r[i] == '\0'
  {
    if |src| >= n then src[..n] else src + seq(n - |src|, _ => '\0')
  }
}
