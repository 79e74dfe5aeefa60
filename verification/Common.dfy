/** Types shared by every layer: bytes, options, results and the error classes of src/error.rs. */
module Common {
  type byte = x: int | 0 <= x < 256

  datatype Option<+T> = None | Some(value: T)

  /** The error classes that callers can tell apart; their message texts are not modelled. */
  datatype Error = Io | OutOfBounds | InvalidQcow2 | Qcow2Unsupported | Gpt | KernelDecompress | Http

  datatype Result<+T> = Ok(value: T) | Err(error: Error)

  /** The result of an operation that only succeeds or fails. */
  datatype Outcome = Done | Failed(error: Error)

  function Min(a: int, b: int): int {
    if a < b then a else b
  }

  /** Rust's `saturating_sub` on unsigned numbers. */
  function SaturatingSub(a: nat, b: nat): nat {
    if a < b then 0 else a - b
  }

  function Zeros(n: nat): seq<byte> {
    seq(n, _ => 0)
  }

  function Be32(b: seq<byte>): (n: nat)
    requires |b| == 4
    ensures n < 0x1_0000_0000
  {
    var b0: int, b1: int, b2: int, b3: int := b[0], b[1], b[2], b[3];
    b0 * 0x100_0000 + b1 * 0x1_0000 + b2 * 0x100 + b3
  }

  function Be64(b: seq<byte>): (n: nat)
    requires |b| == 8
    ensures n < 0x1_0000_0000_0000_0000
  {
    Be32(b[..4]) * 0x1_0000_0000 + Be32(b[4..])
  }

  function Le32(b: seq<byte>): (n: nat)
    requires |b| == 4
    ensures n < 0x1_0000_0000
  {
    var b0: int, b1: int, b2: int, b3: int := b[0], b[1], b[2], b[3];
    b3 * 0x100_0000 + b2 * 0x1_0000 + b1 * 0x100 + b0
  }

  function Le64(b: seq<byte>): (n: nat)
    requires |b| == 8
    ensures n < 0x1_0000_0000_0000_0000
  {
    Le32(b[..4]) + 0x1_0000_0000 * Le32(b[4..])
  }

  /** `n` as `k` bytes, most significant first. */
  function ToBe(n: nat, k: nat): (b: seq<byte>)
    ensures |b| == k
  {
    if k == 0 then [] else ToBe(n / 256, k - 1) + [n % 256]
  }

  /** `n` as `k` bytes, least significant first. */
  function ToLe(n: nat, k: nat): (b: seq<byte>)
    ensures |b| == k
  {
    if k == 0 then [] else [n % 256] + ToLe(n / 256, k - 1)
  }

  /** Reading four bytes in either order undoes writing them. */
  lemma Reads32(n: nat)
    requires n < 0x1_0000_0000
    ensures Be32(ToBe(n, 4)) == n && Le32(ToLe(n, 4)) == n
  {
    var n1 := n / 256;
    var n2 := n1 / 256;
    var n3 := n2 / 256;
    assert ToBe(n3, 1) == [n3 % 256] && ToBe(n2, 2) == [n3 % 256, n2 % 256] && ToBe(n1, 3) == [n3 % 256, n2 % 256, n1 % 256];
    assert ToBe(n, 4) == [n3 % 256, n2 % 256, n1 % 256, n % 256];
    assert ToLe(n3, 1) == [n3 % 256] && ToLe(n2, 2) == [n2 % 256, n3 % 256] && ToLe(n1, 3) == [n1 % 256, n2 % 256, n3 % 256];
    assert ToLe(n, 4) == [n % 256, n1 % 256, n2 % 256, n3 % 256];
  }

  lemma {:induction false} ToBeSplits(n: nat, k: nat, high: nat, low: nat)
    requires k >= 4 && low < 0x1_0000_0000 && n == high * 0x1_0000_0000 + low
    ensures ToBe(n, k) == ToBe(high, k - 4) + ToBe(low, 4)
  {
    var a := low / 256;
    var b := a / 256;
    var c := b / 256;
    assert n / 256 == high * 0x100_0000 + a && n % 256 == low % 256;
    assert n / 256 / 256 == high * 0x1_0000 + b && n / 256 % 256 == a % 256;
    assert n / 256 / 256 / 256 == high * 0x100 + c && n / 256 / 256 % 256 == b % 256;
    assert n / 256 / 256 / 256 / 256 == high && n / 256 / 256 / 256 % 256 == c % 256;
    var p := ToBe(high, k - 4);
    assert ToBe(n / 256 / 256 / 256, k - 3) == p + [c % 256];
    assert ToBe(n / 256 / 256, k - 2) == p + [c % 256, b % 256];
    assert ToBe(n / 256, k - 1) == p + [c % 256, b % 256, a % 256];
    assert ToBe(n, k) == p + [c % 256, b % 256, a % 256, low % 256];
    assert ToBe(c, 1) == [c % 256] && ToBe(b, 2) == [c % 256, b % 256] && ToBe(a, 3) == [c % 256, b % 256, a % 256];
    assert ToBe(low, 4) == [c % 256, b % 256, a % 256, low % 256];
  }

  lemma {:induction false} ToLeSplits(n: nat, k: nat, high: nat, low: nat)
    requires k >= 4 && low < 0x1_0000_0000 && n == high * 0x1_0000_0000 + low
    ensures ToLe(n, k) == ToLe(low, 4) + ToLe(high, k - 4)
  {
    var a := low / 256;
    var b := a / 256;
    var c := b / 256;
    assert n / 256 == high * 0x100_0000 + a && n % 256 == low % 256;
    assert n / 256 / 256 == high * 0x1_0000 + b && n / 256 % 256 == a % 256;
    assert n / 256 / 256 / 256 == high * 0x100 + c && n / 256 / 256 % 256 == b % 256;
    assert n / 256 / 256 / 256 / 256 == high && n / 256 / 256 / 256 % 256 == c % 256;
    var p := ToLe(high, k - 4);
    assert ToLe(n / 256 / 256 / 256, k - 3) == [c % 256] + p;
    assert ToLe(n / 256 / 256, k - 2) == [b % 256, c % 256] + p;
    assert ToLe(n / 256, k - 1) == [a % 256, b % 256, c % 256] + p;
    assert ToLe(n, k) == [low % 256, a % 256, b % 256, c % 256] + p;
    assert ToLe(c, 1) == [c % 256] && ToLe(b, 2) == [b % 256, c % 256] && ToLe(a, 3) == [a % 256, b % 256, c % 256];
    assert ToLe(low, 4) == [low % 256, a % 256, b % 256, c % 256];
  }

  /** The same for eight bytes. */
  lemma Reads64(n: nat)
    requires n < 0x1_0000_0000_0000_0000
    ensures Be64(ToBe(n, 8)) == n && Le64(ToLe(n, 8)) == n
  {
    hide ToBe, ToLe, Be32, Le32;
    var high, low := n / 0x1_0000_0000, n % 0x1_0000_0000;
    ToBeSplits(n, 8, high, low);
    ToLeSplits(n, 8, high, low);
    Reads32(high);
    Reads32(low);
    assert ToBe(n, 8)[..4] == ToBe(high, 4) && ToBe(n, 8)[4..] == ToBe(low, 4);
    assert ToLe(n, 8)[..4] == ToLe(low, 4) && ToLe(n, 8)[4..] == ToLe(high, 4);
  }

  lemma SliceOfSlice<T>(s: seq<T>, a: nat, n: nat, b: nat, m: nat)
    requires a + n <= |s| && b + m <= n
    ensures s[a..a + n][b..b + m] == s[a + b..a + b + m]
  {
    var x, y := s[a..a + n][b..b + m], s[a + b..a + b + m];
    assert forall k :: 0 <= k < m ==> x[k] == y[k];
  }

  // ---- Buffers ----

  /** Contents `a` and `b` of one buffer differ at most in [lo, hi). */
  predicate SameOutside(a: seq<byte>, b: seq<byte>, lo: nat, hi: nat)
    requires lo <= hi <= |a|
  {
    |b| == |a| && b[..lo] == a[..lo] && b[hi..] == a[hi..]
  }

  lemma SameOutsideWidens(a: seq<byte>, b: seq<byte>, lo: nat, hi: nat, low: nat, high: nat)
    requires low <= lo <= hi <= high <= |a| && SameOutside(a, b, lo, hi)
    ensures SameOutside(a, b, low, high)
  {
    assert b[..low] == b[..lo][..low] && a[..low] == a[..lo][..low];
    assert b[high..] == b[hi..][high - hi..] && a[high..] == a[hi..][high - hi..];
  }

  lemma SameOutsideRefl(a: seq<byte>, lo: nat, hi: nat)
    requires lo <= hi <= |a|
    ensures SameOutside(a, a, lo, hi)
  {
  }

  lemma SameOutsideTrans(a: seq<byte>, b: seq<byte>, c: seq<byte>, lo: nat, hi: nat)
    requires lo <= hi <= |a| && SameOutside(a, b, lo, hi) && SameOutside(b, c, lo, hi)
    ensures SameOutside(a, c, lo, hi)
  {
  }

  /** A write to [at, to) extends what is in [lo, at). */
  lemma WriteExtends(a: seq<byte>, b: seq<byte>, lo: nat, at: nat, to: nat)
    requires lo <= at <= to <= |a| && SameOutside(a, b, at, to)
    ensures b[lo..to] == a[lo..at] + b[at..to]
  {
    assert b[lo..at] == b[..at][lo..] && a[lo..at] == a[..at][lo..];
    assert b[lo..to] == b[lo..at] + b[at..to];
  }

  /** Rust's `copy_from_slice` into the part of `buf` that starts at `at`. */
  method CopyInto(buf: array<byte>, at: nat, src: seq<byte>)
    requires at + |src| <= buf.Length
    modifies buf
    ensures SameOutside(old(buf[..]), buf[..], at, at + |src|)
    ensures buf[at..at + |src|] == src
  {
    for k := 0 to |src|
      invariant forall i :: 0 <= i < k ==> buf[at + i] == src[i]
      invariant forall i :: 0 <= i < at || at + k <= i < buf.Length ==> buf[i] == old(buf[i])
    {
      buf[at + k] := src[k];
    }
  }
}
