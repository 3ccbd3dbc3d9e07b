/** Types and byte-level helpers shared by every module of the model. */
module Common {

  datatype Option<+T> = None | Some(value: T)

  /** One uint8_t. */
  type byte = x: int | 0 <= x < 256

  /** One uint64_t. */
  type u64 = x: int | 0 <= x < 0x1_0000_0000_0000_0000

  const U32: nat := 0x1_0000_0000
  const U64: nat := 0x1_0000_0000_0000_0000

  /** `n` consecutive bytes of an abstract disk, from offset `from` on. */
  function Slice(f: nat -> byte, from: nat, n: nat): (s: seq<byte>)
    ensures |s| == n
    ensures forall i | 0 <= i < n :: s[i] == f(from + i)
  {
    seq(n, i requires 0 <= i < n => f(from + i))
  }

  lemma SliceConcat(f: nat -> byte, from: nat, n: nat, m: nat)
    ensures Slice(f, from, n) + Slice(f, from + n, m) == Slice(f, from, n + m)
  {
  }

  lemma SliceSub(f: nat -> byte, from: nat, n: nat, lo: nat, hi: nat)
    requires lo <= hi <= n
    ensures Slice(f, from, n)[lo..hi] == Slice(f, from + lo, hi - lo)
  {
  }

  /** A part of what was read from the disk. */
  lemma PartOf(b: seq<byte>, content: nat -> byte, base: nat, size: nat, from: nat, to: nat)
    requires size <= |b| && b[0..size] == Slice(content, base, size) && from <= to <= size
    ensures b[from..to] == Slice(content, base + from, to - from)
  {
    SliceSub(content, base, size, from, to);
    assert b[0..size][from..to] == b[from..to];
  }

  lemma SubSlice(s: seq<byte>, n: nat, lo: nat, hi: nat)
    requires lo <= hi <= n <= |s|
    ensures s[..n][lo..hi] == s[lo..hi]
  {
  }

  function Le16(s: seq<byte>, at: nat): (r: nat)
    requires at + 2 <= |s|
    ensures r < 0x1_0000
  {
    s[at] as int + 0x100 * s[at + 1] as int
  }

  function Le32(s: seq<byte>, at: nat): (r: nat)
    requires at + 4 <= |s|
    ensures r < U32
  {
    s[at] as int + 0x100 * s[at + 1] as int + 0x1_0000 * s[at + 2] as int + 0x100_0000 * s[at + 3] as int
  }

  function Le64(s: seq<byte>, at: nat): (r: nat)
    requires at + 8 <= |s|
    ensures r < U64
  {
    Le32(s, at) + U32 * Le32(s, at + 4)
  }

  // ---- little-endian numbers as a disk holds them ----

  function PutLe16(n: nat): (s: seq<byte>)
    requires n < 0x1_0000
    ensures |s| == 2
  {
    [n % 0x100, n / 0x100]
  }

  function PutLe32(n: nat): (s: seq<byte>)
    requires n < U32
    ensures |s| == 4
  {
    PutLe16(n % 0x1_0000) + PutLe16(n / 0x1_0000)
  }

  function PutLe64(n: nat): (s: seq<byte>)
    requires n < U64
    ensures |s| == 8
  {
    PutLe32(n % U32) + PutLe32(n / U32)
  }

  lemma Le16Put(s: seq<byte>, at: nat, n: nat)
    requires at + 2 <= |s| && n < 0x1_0000 && s[at..at + 2] == PutLe16(n)
    ensures Le16(s, at) == n
  {
    assert s[at] == s[at..at + 2][0] && s[at + 1] == s[at..at + 2][1];
  }

  lemma Le32Put(s: seq<byte>, at: nat, n: nat)
    requires at + 4 <= |s| && n < U32 && s[at..at + 4] == PutLe32(n)
    ensures Le32(s, at) == n
  {
    var t := s[at..at + 4];
    assert s[at] == t[0] && s[at + 1] == t[1] && s[at + 2] == t[2] && s[at + 3] == t[3];
  }

  lemma Le64Put(s: seq<byte>, at: nat, n: nat)
    requires at + 8 <= |s| && n < U64 && s[at..at + 8] == PutLe64(n)
    ensures Le64(s, at) == n
  {
    hide PutLe32, Le32;
    var t := s[at..at + 8];
    assert s[at..at + 4] == t[..4] && s[at + 4..at + 8] == t[4..];
    Le32Put(s, at, n % U32);
    Le32Put(s, at + 4, n / U32);
  }

  predicate NoNul(s: string) {
    '\0' !in s
  }

  /** The C string held in a buffer: everything before the first NUL. */
  function CStr(s: string): (r: string)
    ensures |r| <= |s|
    ensures NoNul(r)
    ensures r == s[..|r|]
    ensures |r| < |s| ==> s[|r|] == '\0'
  {
    if s == "" || s[0] == '\0' then "" else [s[0]] + CStr(s[1..])
  }

  lemma {:induction false} CStrAt(s: string, n: nat)
    requires n < |s| && s[n] == '\0' && NoNul(s[..n])
    ensures CStr(s) == s[..n]
  {
    if n > 0 {
      assert s[..n][0] == s[0];
      assert s[1..][..n - 1] == s[..n][1..];
      CStrAt(s[1..], n - 1);
    }
  }

  /** A NUL written at `n` cuts the string there, or earlier if the text itself holds a NUL. */
  lemma {:induction false} CStrCut(s: string, n: nat)
    requires n < |s| && s[n] == '\0'
    ensures CStr(s) == CStr(s[..n])
  {
    if n > 0 {
      assert s[..n][0] == s[0];
      assert s[1..][..n - 1] == s[..n][1..];
      CStrCut(s[1..], n - 1);
    }
  }

  function LowerAscii(c: char): char {
    if 'A' <= c <= 'Z' then (c as int - 'A' as int + 'a' as int) as char else c
  }

  function Lower(s: string): (r: string)
    ensures |r| == |s|
    ensures forall i | 0 <= i < |s| :: r[i] == LowerAscii(s[i])
  {
    seq(|s|, i requires 0 <= i < |s| => LowerAscii(s[i]))
  }

  function Digit(d: nat): char
    requires d < 10
  {
    ('0' as int + d) as char
  }

  /** The decimal digits of a number, most significant first. */
  function Decimal(n: nat): (s: string)
    ensures s != "" && forall i | 0 <= i < |s| :: '0' <= s[i] <= '9'
  {
    if n < 10 then [Digit(n)] else Decimal(n / 10) + [Digit(n % 10)]
  }

  /** One digit at the end, and the digits of the rest before it. */
  lemma DecimalEnds(n: nat)
    ensures var s := Decimal(n);
            && s != "" && s[|s| - 1] == Digit(n % 10)
            && (n < 10 ==> |s| == 1) && (n >= 10 ==> |s| > 1 && s[..|s| - 1] == Decimal(n / 10))
  {
  }

  lemma {:induction false} DecimalInjective(a: nat, b: nat)
    requires Decimal(a) == Decimal(b)
    ensures a == b
    decreases a + b
  {
    var s, t := Decimal(a), Decimal(b);
    assert s[|s| - 1] == Digit(a % 10) && t[|t| - 1] == Digit(b % 10);
    if a >= 10 && b >= 10 {
      assert s[..|s| - 1] == Decimal(a / 10) && t[..|t| - 1] == Decimal(b / 10);
      DecimalInjective(a / 10, b / 10);
    }
  }

  function Pow10(k: nat): nat {
    if k == 0 then 1 else 10 * Pow10(k - 1)
  }

  lemma {:induction false} DecimalWidth(n: nat, k: nat)
    requires 1 <= k && n < Pow10(k)
    ensures |Decimal(n)| <= k
  {
    if n >= 10 {
      assert k != 1 by { assert Pow10(1) == 10 * Pow10(0); }
      DecimalWidth(n / 10, k - 1);
    }
  }

  function Quot(a: nat, b: nat): nat
    requires b > 0
  {
    a / b
  }

  function Times(a: nat, b: nat): nat {
    a * b
  }

  function Min(a: int, b: int): int {
    if a < b then a else b
  }

  /** The byte-copying loop `dst[to + i] = src[from + i]` that the readers write out by hand. */
  method CopyBytes(src: array<byte>, from: nat, dst: array<byte>, to: nat, n: nat)
    requires src != dst && from + n <= src.Length && to + n <= dst.Length
    modifies dst
    ensures dst[to..to + n] == src[from..from + n]
    ensures forall k | 0 <= k < dst.Length && !(to <= k < to + n) :: dst[k] == old(dst[k])
  {
    var i := 0;
    while i < n
      invariant 0 <= i <= n
      invariant dst[to..to + i] == src[from..from + i]
      invariant forall k | 0 <= k < dst.Length && !(to <= k < to + i) :: dst[k] == old(dst[k])
    {
      dst[to + i] := src[from + i];
      assert dst[to..to + i + 1] == dst[to..to + i] + [src[from + i]];
      i := i + 1;
    }
  }
}
