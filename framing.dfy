/** Chunk framing shared by the crate encoder and decoder (index.js): raw bytes,
    the four-byte chunk tags, the big-endian 32-bit length field written by
    `intToHexbin`, the zero-interleaved text written by `toSeratoString` and
    read back by stripping zero bytes, JavaScript's `String.prototype.slice`,
    and the two path conversions the codec applies around the text. */
module Framing {

  /** One byte of a crate file: the file is read and written byte for byte. */
  type byte = x: int | 0 <= x < 256

  type Bytes = seq<byte>

  const TWO_32: int := 0x1_0000_0000

  const SLASH: byte := 0x2f  // '/'
  const DOT: byte := 0x2e    // '.'

  /** The chunk tags "vrsn", "otrk" and "ptrk" in ASCII. */
  const VRSN: Bytes := [0x76, 0x72, 0x73, 0x6e]
  const OTRK: Bytes := [0x6f, 0x74, 0x72, 0x6b]
  const PTRK: Bytes := [0x70, 0x74, 0x72, 0x6b]

  // ---------------------------------------------------------------------------
  // Big-endian 32-bit length fields
  // ---------------------------------------------------------------------------

  /** The unsigned value of a 4-byte big-endian field. */
  function Be32Value(b: Bytes): (n: int)
    requires |b| == 4
    ensures 0 <= n < TWO_32
  {
    ((b[0] as int * 0x100 + b[1]) * 0x100 + b[2]) * 0x100 + b[3]
  }

  /** The 4-byte big-endian form of an unsigned 32-bit number: the bytes are
      bits 31-24, 23-16, 15-8 and 7-0. */
  function Be32(n: int): (r: Bytes)
    requires 0 <= n < TWO_32
    ensures |r| == 4
  {
    [n / 0x100_0000, (n / 0x1_0000) % 0x100, (n / 0x100) % 0x100, n % 0x100]
  }

  /** Dropping one low byte and then another drops two; likewise three. */
  lemma DropBytes(x: int)
    requires 0 <= x
    ensures x / 0x100 / 0x100 == x / 0x1_0000
    ensures x / 0x1_0000 / 0x100 == x / 0x100_0000
  {
    var q2, r2 := x / 0x1_0000, x % 0x1_0000;
    assert x / 0x100 == q2 * 0x100 + r2 / 0x100;
    var q3, r3 := x / 0x100_0000, x % 0x100_0000;
    assert x / 0x1_0000 == q3 * 0x100 + r3 / 0x1_0000;
  }

  /** Reading back the 4-byte field written for `n` gives `n`. */
  lemma Be32ValueOfBe32(n: int)
    requires 0 <= n < TWO_32
    ensures Be32Value(Be32(n)) == n
  {
    var q1, q2, q3 := n / 0x100, n / 0x1_0000, n / 0x100_0000;
    DropBytes(n);
    assert q2 * 0x100 + q1 % 0x100 == q1;
    assert q3 * 0x100 + q2 % 0x100 == q2;
    var r := Be32(n);
    assert r == [q3, q2 % 0x100, q1 % 0x100, n % 0x100];
  }

  /** Every 4-byte field is the encoding of its own value, so `Be32` is a
      bijection between `[0, 2^32)` and 4-byte sequences. */
  lemma Be32OfValue(b: Bytes)
    requires |b| == 4
    ensures Be32(Be32Value(b)) == b
  {
    var n := Be32Value(b);
    var q1 := (b[0] as int * 0x100 + b[1]) * 0x100 + b[2];
    var q2 := b[0] as int * 0x100 + b[1];
    DropBytes(n);
    assert n / 0x100 == q1 && n % 0x100 == b[3];
    assert q1 / 0x100 == q2 && q1 % 0x100 == b[2];
    assert q2 / 0x100 == b[0] && q2 % 0x100 == b[1];
  }

  /** The place value of each digit of an 8-digit hexadecimal numeral. */
  const HEX_PLACES: seq<int> :=
    [0x1000_0000, 0x100_0000, 0x10_0000, 0x1_0000, 0x1000, 0x100, 0x10, 0x1]

  /** The digit values of `n.toString(16).padStart(8, "0")`, most significant
      first; for `n < 2^32` the numeral has at most 8 digits, so the padding
      is all that is added. */
  function Hex8(n: int): (r: seq<int>)
    requires 0 <= n < TWO_32
    ensures |r| == 8 && forall i | 0 <= i < 8 :: 0 <= r[i] < 16
  {
    seq(8, i requires 0 <= i < 8 => (n / HEX_PLACES[i]) % 16)
  }

  /** `parseInt(hex.slice(idx, idx + 2), 16)` on the padded numeral. */
  function HexPair(hex: seq<int>, idx: int): (r: int)
    requires 0 <= idx && idx + 2 <= |hex|
    ensures 0 <= hex[idx] < 16 && 0 <= hex[idx + 1] < 16 ==> 0 <= r < 256
  {
    16 * hex[idx] + hex[idx + 1]
  }

  /** Two hex digits make one byte: the high digit of `q % 256` is the low
      digit of `q / 16`. */
  lemma HexDigitsOfByte(q: int)
    requires 0 <= q
    ensures 16 * ((q / 16) % 16) + q % 16 == q % 256
  {
    var hi, lo := (q / 16) % 16, q % 16;
    assert q == 256 * (q / 256) + 16 * hi + lo;
  }

  /** The pair of hex digits at `2 * k` is byte `k` of the big-endian field. */
  lemma HexPairIsBe32Byte(n: int, k: int)
    requires 0 <= n < TWO_32 && 0 <= k < 4
    ensures HexPair(Hex8(n), 2 * k) == Be32(n)[k]
  {
    var hex, b := Hex8(n), Be32(n);
    DropHexDigit(n);
    if k == 0 {
      HexDigitsOfByte(n / 0x100_0000);
      assert HexPair(hex, 0) == 16 * ((n / 0x1000_0000) % 16) + (n / 0x100_0000) % 16;
    } else if k == 1 {
      HexDigitsOfByte(n / 0x1_0000);
      assert HexPair(hex, 2) == 16 * ((n / 0x10_0000) % 16) + (n / 0x1_0000) % 16;
    } else if k == 2 {
      HexDigitsOfByte(n / 0x100);
      assert HexPair(hex, 4) == 16 * ((n / 0x1000) % 16) + (n / 0x100) % 16;
    } else {
      HexDigitsOfByte(n);
      assert HexPair(hex, 6) == 16 * ((n / 0x10) % 16) + n % 16;
    }
  }

  /** Dropping the low hex digit of `n / 16^(2i)` leaves `n / 16^(2i+1)`. */
  lemma DropHexDigit(n: int)
    requires 0 <= n
    ensures n / 0x1000_0000 == n / 0x100_0000 / 16
    ensures n / 0x10_0000 == n / 0x1_0000 / 16
    ensures n / 0x1000 == n / 0x100 / 16
    ensures n / 0x10 == n / 1 / 16
  {
  }

  /** `intToHexbin`: formats `n` as 8 hex digits and turns each pair of digits
      into one byte, most significant first. */
  method IntToHexbin(n: int) returns (ret: Bytes)
    requires 0 <= n < TWO_32
    ensures |ret| == 4 && Be32Value(ret) == n
    ensures ret == Be32(n)
  {
    var hex := Hex8(n);
    ret := [];
    var idx := 0;
    while idx < 8
      invariant 0 <= idx <= 8 && idx % 2 == 0
      invariant ret == Be32(n)[..idx / 2]
    {
      HexPairIsBe32Byte(n, idx / 2);
      ret := ret + [HexPair(hex, idx)];
      idx := idx + 2;
    }
    Be32ValueOfBe32(n);
  }

  // ---------------------------------------------------------------------------
  // Zero-interleaved text
  // ---------------------------------------------------------------------------

  /** `s.split("").join("\0")`: the characters of `s` with a zero byte between
      each pair of neighbours (`JoinWithZeroAt` states where each byte lands). */
  function JoinWithZero(s: Bytes): (r: Bytes)
    ensures |r| == if s == [] then 0 else 2 * |s| - 1
  {
    if |s| <= 1 then s else [s[0], 0] + JoinWithZero(s[1..])
  }

  /** Character `i` of `s` sits at offset `2 * i` of the joined text, and every
      odd offset holds a zero byte. */
  lemma {:induction false} JoinWithZeroAt(s: Bytes)
    ensures var r := JoinWithZero(s);
      forall j | 0 <= j < |r| :: r[j] == if j % 2 == 0 then s[j / 2] else 0
  {
    if |s| > 1 {
      JoinWithZeroAt(s[1..]);
      var t := JoinWithZero(s[1..]);
      var r := JoinWithZero(s);
      assert r == [s[0], 0] + t;
      forall j | 2 <= j < |r| ensures r[j] == if j % 2 == 0 then s[j / 2] else 0 {
        var i := j - 2;
        assert r[j] == t[i];
        if i % 2 == 0 {
          assert i / 2 + 1 == j / 2 && j % 2 == 0;
          assert t[i] == s[1..][i / 2] == s[j / 2];
        } else {
          assert j % 2 == 1 && t[i] == 0;
        }
      }
    }
  }

  /** `toSeratoString`: one zero byte in front of every character
      (`ToSeratoStringAt` states where each byte lands). */
  function ToSeratoString(s: Bytes): (r: Bytes)
    ensures |r| == if s == [] then 1 else 2 * |s|
  {
    [0] + JoinWithZero(s)
  }

  /** Every even offset of `toSeratoString(s)` holds a zero byte and
      character `i` of `s` sits at offset `2 * i + 1`. */
  lemma ToSeratoStringAt(s: Bytes)
    ensures var r := ToSeratoString(s);
      forall j | 0 <= j < |r| :: r[j] == if j % 2 == 0 then 0 else s[j / 2]
  {
    JoinWithZeroAt(s);
    var r := ToSeratoString(s);
    var t := JoinWithZero(s);
    forall j | 1 <= j < |r| ensures r[j] == if j % 2 == 0 then 0 else s[j / 2] {
      assert r[j] == t[j - 1];
    }
  }

  /** `s.replace(/\0/g, "")`: `s` with every zero byte removed. */
  function StripZeros(s: Bytes): (r: Bytes)
    ensures 0 !in r
    ensures |r| <= |s|
  {
    if s == [] then []
    else (if s[0] == 0 then [] else [s[0]]) + StripZeros(s[1..])
  }

  /** Removing zero bytes from a text without zero bytes changes nothing. */
  lemma {:induction false} StripZerosOfZeroFree(s: Bytes)
    requires 0 !in s
    ensures StripZeros(s) == s
  {
    if s != [] {
      assert 0 !in s[1..];
      StripZerosOfZeroFree(s[1..]);
    }
  }

  /** Stripping the zero bytes undoes the interleaving of a zero-free text. */
  lemma {:induction false} StripZerosOfJoin(s: Bytes)
    requires 0 !in s
    ensures StripZeros(JoinWithZero(s)) == s
  {
    if |s| <= 1 {
      StripZerosOfZeroFree(s);
    } else {
      var t := JoinWithZero(s[1..]);
      assert 0 !in s[1..];
      assert JoinWithZero(s) == [s[0], 0] + t;
      assert ([s[0], 0] + t)[1..] == [0] + t;
      assert ([0] + t)[1..] == t;
      StripZerosOfJoin(s[1..]);
    }
  }

  /** Decoding `toSeratoString(s)` gives back `s` when `s` has no zero byte. */
  lemma StripZerosOfSerato(s: Bytes)
    requires 0 !in s
    ensures StripZeros(ToSeratoString(s)) == s
  {
    var r := ToSeratoString(s);
    assert r == [0] + r[1..];
    StripZerosOfJoin(s);
  }

  // ---------------------------------------------------------------------------
  // JavaScript string slicing
  // ---------------------------------------------------------------------------

  /** Where a bound of `slice` lands: a negative bound counts back from the
      end, and both are clamped to `[0, len]`. */
  function SliceBound(x: int, len: nat): (r: nat)
    ensures r <= len
    ensures 0 <= x <= len ==> r == x
    ensures x < 0 && -x <= len ==> r == len + x
    ensures x > len ==> r == len
    ensures x + len < 0 ==> r == 0
  {
    if x < 0 then (if len + x < 0 then 0 else len + x)
    else if x > len then len
    else x
  }

  /** `s.slice(start, end)`: empty when the clamped end is not past the
      clamped start. */
  function JsSlice(s: Bytes, start: int, end: int): (r: Bytes)
    ensures 0 <= start <= end <= |s| ==> r == s[start..end]
    ensures 0 <= end <= start ==> r == []
    ensures 0 <= start <= |s| < end ==> r == s[start..]
    ensures |s| <= start ==> r == []
    ensures 0 <= start && end < 0 ==> r == if start < |s| + end then s[start..|s| + end] else []
  {
    var from, to := SliceBound(start, |s|), SliceBound(end, |s|);
    if from < to then s[from..to] else []
  }

  // ---------------------------------------------------------------------------
  // Paths
  // ---------------------------------------------------------------------------

  /** An absolute POSIX path: it starts at the root. */
  predicate IsAbsolute(p: Bytes) {
    |p| > 0 && p[0] == SLASH
  }

  /** A "." or ".." segment starts at offset `j` of `p`. */
  predicate DotSegmentAt(p: Bytes, j: int)
    requires 0 <= j
  {
    j < |p| && p[j] == DOT &&
    (j + 1 == |p| || p[j + 1] == SLASH ||
     (p[j + 1] == DOT && (j + 2 == |p| || p[j + 2] == SLASH)))
  }

  /** What `path.resolve` yields and the codec can carry: a normalized absolute
      POSIX path (no empty, "." or ".." segment, no trailing "/" except on the
      root itself) whose characters are 7-bit and not zero. */
  predicate CratePath(p: Bytes) {
    IsAbsolute(p) &&
    (forall i | 0 <= i < |p| :: 1 <= p[i] < 128) &&
    (forall i | 0 <= i < |p| - 1 :: !(p[i] == SLASH && p[i + 1] == SLASH)) &&
    (|p| > 1 ==> p[|p| - 1] != SLASH) &&
    (forall i | 0 <= i < |p| && p[i] == SLASH :: !DotSegmentAt(p, i + 1))
  }

  /** `path.relative("/", p)` for a normalized absolute path: `p` without its
      leading "/". */
  function Relative(p: Bytes): (r: Bytes)
    requires IsAbsolute(p)
    ensures |r| == |p| - 1
    ensures Resolve(r) == p
  {
    p[1..]
  }

  /** `path.resolve("/", s)` for a normalized relative path: "/" followed by
      `s`. */
  function Resolve(s: Bytes): (r: Bytes)
    ensures IsAbsolute(r) && |r| == |s| + 1
    ensures r[1..] == s
  {
    [SLASH] + s
  }
}
