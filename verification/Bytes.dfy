/**
 Bytes, fixed-width little-endian fields and C strings: the vocabulary of the
 packed structures that lttng-tools copies into its buffers.
 */
module Bytes {

  type byte = x: int | 0 <= x < 256

  const UINT32_MAX := 0xFFFF_FFFF
  const INT_MAX := 0x7FFF_FFFF
  const SYMBOL_NAME_LEN := 256     // LTTNG_SYMBOL_NAME_LEN

  function Pow256(n: nat): (p: nat)
    ensures p > 0
  {
    if n == 0 then 1 else 256 * Pow256(n - 1)
  }

  lemma Pow256Values()
    ensures Pow256(1) == 0x100 && Pow256(2) == 0x1_0000 && Pow256(4) == 0x1_0000_0000
    ensures Pow256(8) == 0x1_0000_0000_0000_0000
  {
    assert Pow256(3) == 256 * Pow256(2);
    assert Pow256(5) == 256 * Pow256(4);
    assert Pow256(6) == 256 * Pow256(5);
    assert Pow256(7) == 256 * Pow256(6);
  }

  /** The `n` low-order bytes of `x`, least significant first. */
  function Le(n: nat, x: nat): (s: seq<byte>)
    ensures |s| == n
  {
    if n == 0 then [] else [x % 256] + Le(n - 1, x / 256)
  }

  /** The unsigned value of a little-endian field. */
  function Val(s: seq<byte>): (v: nat)
    ensures v < Pow256(|s|)
  {
    if s == [] then 0 else s[0] + 256 * Val(s[1..])
  }

  lemma {:induction false} ValLe(n: nat, x: nat)
    requires x < Pow256(n)
    ensures Val(Le(n, x)) == x
  {
    if n > 0 {
      ValLe(n - 1, x / 256);
      assert Le(n, x)[1..] == Le(n - 1, x / 256);
    }
  }

  lemma {:induction false} LeVal(s: seq<byte>)
    ensures Le(|s|, Val(s)) == s
  {
    if s != [] {
      LeVal(s[1..]);
      assert Val(s) % 256 == s[0] && Val(s) / 256 == Val(s[1..]);
    }
  }

  /** Byte `i` of a field holds the digit of weight 256^i. */
  lemma {:induction false} LittleEndian(n: nat, x: nat, i: nat)
    requires i < n
    ensures Le(n, x)[i] == x / Pow256(i) % 256
  {
    if i > 0 {
      LittleEndian(n - 1, x / 256, i - 1);
      DivDiv(x, Pow256(i - 1));
    }
  }

  lemma DivDiv(x: nat, p: nat)
    requires p > 0
    ensures x / 256 / p == x / (256 * p)
  {
    var (q, r) := (x / 256 / p, x / 256 % p);
    assert x / 256 == q * p + r;
    assert x == 256 * (q * p + r) + x % 256;
    assert 256 * (q * p) == q * (256 * p);
    QuotientIs(x, 256 * p, q, 256 * r + x % 256);
  }

  lemma QuotientIs(x: nat, p: nat, q: nat, r: nat)
    requires p > 0 && x == q * p + r && r < p
    ensures x / p == q
  {
    RemainderIs(x, p, q, r);
    assert (x / p - q) * p == 0;
  }

  lemma DigitModulo(d: nat, v: nat, p: nat)
    requires d < 256 && p > 0
    ensures (d + 256 * v) % (256 * p) == d + 256 * (v % p)
  {
    var (q, r) := (v / p, v % p);
    assert v == q * p + r;
    assert 256 * (q * p) == q * (256 * p);
    RemainderIs(d + 256 * v, 256 * p, q, d + 256 * r);
  }

  lemma ValParts(s: seq<byte>)
    requires s != []
    ensures Val(s) == s[0] + 256 * Val(s[1..])
  {
  }

  /** The first bytes of a field are its value modulo their weight. */
  lemma {:induction false} ValLow(s: seq<byte>, n: nat)
    requires n <= |s|
    ensures Val(s[..n]) == Val(s) % Pow256(n)
  {
    if n == 0 {
      assert s[..n] == [];
    } else {
      hide Val;
      ValLow(s[1..], n - 1);
      assert s[..n][1..] == s[1..][..n - 1];
      ValParts(s);
      ValParts(s[..n]);
      DigitModulo(s[0], Val(s[1..]), Pow256(n - 1));
    }
  }

  /** The two's complement representation of `x` in `n` bytes. */
  function Wrap(n: nat, x: int): (v: nat)
    ensures v < Pow256(n)
  {
    x % Pow256(n)
  }

  /** The signed value of an `n`-byte field. */
  function Signed(n: nat, v: nat): int {
    if 2 * v < Pow256(n) then v else v - Pow256(n)
  }

  /** The range of an `n`-byte signed field. */
  predicate FitsSigned(n: nat, x: int) {
    0 <= 2 * x + Pow256(n) < 2 * Pow256(n)
  }

  /** The ranges of signed fields of one, four and eight bytes. */
  lemma Ranges(x: int)
    ensures FitsSigned(1, x) <==> -128 <= x <= 127
    ensures FitsSigned(4, x) <==> -0x8000_0000 <= x <= 0x7FFF_FFFF
    ensures FitsSigned(8, x) <==> -0x8000_0000_0000_0000 <= x <= 0x7FFF_FFFF_FFFF_FFFF
  {
    hide Pow256;
    Pow256Values();
  }

  lemma SignedWrap(n: nat, x: int)
    requires FitsSigned(n, x)
    ensures Signed(n, Wrap(n, x)) == x
  {
    var p := Pow256(n);
    if x >= 0 {
      RemainderIs(x, p, 0, x);
    } else {
      RemainderIs(x, p, -1, x + p);
    }
  }

  lemma WrapSigned(n: nat, v: nat)
    requires n > 0 && v < Pow256(n)
    ensures Wrap(n, Signed(n, v)) == v && FitsSigned(n, Signed(n, v))
  {
    if 2 * v < Pow256(n) {
      RemainderIs(v, Pow256(n), 0, v);
    } else {
      RemainderIs(v - Pow256(n), Pow256(n), -1, v);
    }
  }

  lemma RemainderIs(x: int, p: nat, q: int, r: int)
    requires p > 0 && x == q * p + r && 0 <= r < p
    ensures x % p == r
  {
    var d := x / p - q;
    assert d * p == r - x % p;
  }

  // ---------------------------------------------------------------------
  // C strings

  /** The characters of a C string, terminator excluded. */
  type cstring = s: seq<byte> | 0 !in s

  /** A string as it travels: characters and terminator. */
  function Terminated(s: cstring): (r: seq<byte>)
    ensures |r| == |s| + 1
  {
    s + [0]
  }

  /** What travels of a string whose length, terminator included, is kept in 32 bits. */
  function Sent(s: cstring): (r: seq<byte>)
    ensures |r| <= UINT32_MAX
  {
    Terminated(s)[..(|s| + 1) % (UINT32_MAX + 1)]
  }

  /** The whole of it, terminator included, or else some of its characters. */
  lemma SentExactly(s: cstring)
    ensures if |s| < UINT32_MAX then Sent(s) == Terminated(s) else 0 !in Sent(s)
  {
    var n := (|s| + 1) % (UINT32_MAX + 1);
    if |s| >= UINT32_MAX {
      assert n <= |s|;
      assert Sent(s) == s[..n];
    } else {
      assert n == |s| + 1;
    }
  }

  /** Number of bytes before the first NUL of `s`, at most |s|. */
  function StrnLen(s: seq<byte>): (n: nat)
    ensures n <= |s| && 0 !in s[..n] && (n < |s| ==> s[n] == 0)
  {
    if s == [] || s[0] == 0 then 0
    else
      var n := 1 + StrnLen(s[1..]);
      assert s[..n] == [s[0]] + s[1..][..n - 1];
      n
  }

  lemma {:induction false} StrnLenIs(s: seq<byte>, n: nat)
    requires n < |s| && s[n] == 0 && 0 !in s[..n]
    ensures StrnLen(s) == n
  {
    if n > 0 {
      assert s[0] == s[..n][0];
      assert s[1..][..n - 1] == s[..n][1..];
      StrnLenIs(s[1..], n - 1);
    }
  }

  // Arrays of names. C computes the size of one in 32 bits, so that from 2^24 names on it wraps.

  const NAMES_LIMIT := 0x100_0000

  function NamesRoom(count: nat): nat {
    count * SYMBOL_NAME_LEN % (UINT32_MAX + 1)
  }

  lemma NamesRoomExactly(count: nat)
    requires count <= UINT32_MAX
    ensures NamesRoom(count) % SYMBOL_NAME_LEN == 0
    ensures if count < NAMES_LIMIT then NamesRoom(count) == count * SYMBOL_NAME_LEN
            else NamesRoom(count) + UINT32_MAX < count * SYMBOL_NAME_LEN
  {
  }

  function Zeros(n: nat): (s: seq<byte>)
    ensures |s| == n && forall i :: 0 <= i < n ==> s[i] == 0
  {
    seq(n, i => 0)
  }

  // ---------------------------------------------------------------------
  // Slices

  lemma SliceLeft<T>(a: seq<T>, b: seq<T>, lo: nat, hi: nat)
    requires lo <= hi <= |a|
    ensures (a + b)[lo..hi] == a[lo..hi]
  {
  }

  lemma SliceRight<T>(a: seq<T>, b: seq<T>, lo: nat, hi: nat)
    requires |a| <= lo <= hi <= |a| + |b|
    ensures (a + b)[lo..hi] == b[lo - |a|..hi - |a|]
  {
  }

  lemma SliceSlice<T>(s: seq<T>, lo: nat, hi: nat, i: nat, j: nat)
    requires lo <= hi <= |s| && i <= j <= hi - lo
    ensures s[lo..hi][i..j] == s[lo + i..lo + j]
  {
    var t := s[lo..hi];
    assert forall k | 0 <= k < j - i :: t[i..j][k] == t[i + k] == s[lo + i..lo + j][k];
  }

  lemma FourParts<T>(a: seq<T>, b: seq<T>, c: seq<T>, d: seq<T>)
    ensures var (s, i, j) := (a + (b + (c + d)), |a| + |b|, |a| + |b| + |c|);
            |s| == j + |d| && s[|a|..i] == b && s[i..j] == c && s[j..] == d
  {
    var (i, j) := (|a| + |b|, |a| + |b| + |c|);
    SliceRight(a, b + (c + d), |a|, i);
    SliceRight(a, b + (c + d), i, j);
    SliceRight(a, b + (c + d), j, j + |d|);
    SliceLeft(b, c + d, 0, |b|);
    SliceRight(b, c + d, |b|, |b| + |c|);
    SliceRight(b, c + d, |b| + |c|, |b| + |c| + |d|);
    SliceLeft(c, d, 0, |c|);
    SliceRight(c, d, |c|, |c| + |d|);
    assert b[0..|b|] == b && c[0..|c|] == c && d[0..|d|] == d;
  }

  lemma Associate<T>(a: seq<T>, b: seq<T>, c: seq<T>)
    ensures a + (b + c) == a + b + c
  {
  }

  // ---------------------------------------------------------------------
  // Stores

  /** `s` with `field` written over it at index `at`. */
  function Patched(s: seq<byte>, at: nat, field: seq<byte>): (r: seq<byte>)
    requires at + |field| <= |s|
    ensures |r| == |s|
    ensures forall i :: 0 <= i < |s| ==> r[i] == if at <= i < at + |field| then field[i - at] else s[i]
  {
    s[..at] + field + s[at + |field|..]
  }

  /** A store into the middle part of three. */
  lemma StoreMiddle(p: seq<byte>, x: seq<byte>, r: seq<byte>, k: nat, f: seq<byte>)
    requires k + |f| <= |x|
    ensures Patched(p + x + r, |p| + k, f) == p + Patched(x, k, f) + r
  {
  }

  lemma PatchLeft(c: seq<byte>, z: seq<byte>, at: nat, f: seq<byte>)
    requires at + |f| <= |c|
    ensures Patched(c + z, at, f) == Patched(c, at, f) + z
  {
  }

  lemma PatchRight(c: seq<byte>, z: seq<byte>, at: nat, f: seq<byte>)
    requires at + |f| <= |z|
    ensures Patched(c + z, |c| + at, f) == c + Patched(z, at, f)
  {
  }
}
