/** The C integer widths and status codes every driver relies on. */
module Machine {

  datatype Option<+T> = None | Some(value: T)

  /** `OK` and the failure code the drivers return. */
  const OK := 0
  const FAIL := 1

  type Word8 = x: int | 0 <= x < 0x100
  type Word16 = x: int | 0 <= x < 0x1_0000
  type Word32 = x: int | 0 <= x < 0x1_0000_0000

  /** Conversion of any integer to `uint16_t`. */
  function U16(x: int): Word16 {
    x % 0x1_0000
  }

  /** Conversion of any integer to `uint32_t`. */
  function U32(x: int): Word32 {
    x % 0x1_0000_0000
  }

  /** `b & mask`, read as a C condition. */
  predicate Has(b: bv8, mask: bv8) {
    b & mask != 0
  }

  lemma {:induction false} MulGrows(n: nat, d: nat)
    ensures 0 <= n * d && (n > 0 ==> d <= n * d)
  {
    if n > 0 {
      MulGrows(n - 1, d);
      assert n * d == (n - 1) * d + d;
    }
  }

  lemma MulMono(a: int, b: int, d: int)
    ensures a <= b && 0 <= d ==> a * d <= b * d
    ensures a < b && 0 <= d ==> a * d + d <= b * d
  {
    if a <= b && 0 <= d {
      MulGrows(b - a, d);
      assert b * d == a * d + (b - a) * d;
    }
  }

  /** Quotient and remainder are unique. */
  lemma DivModUnique(q: int, d: int, r: int)
    requires 0 <= r < d
    ensures (q * d + r) / d == q && (q * d + r) % d == r
  {
    var n := q * d + r;
    assert n == n / d * d + n % d && 0 <= n % d < d;
    MulMono(n / d, q, d);
    MulMono(q, n / d, d);
  }

  /** A 16-bit interval splits at any point, wherever it wraps. */
  lemma WrappedIntervalSplits(p: int, x: Word16, a: nat, b: nat)
    requires a + b < 0x1_0000
    ensures U16(p - x) < a + b <==> U16(p - x) < a || U16(p - U16(x + a)) < b
  {
    var u := U16(p - x);
    var s := U16(x + a);
    assert U16(p - s) == if u >= a then u - a else u - a + 0x1_0000 by {
      var k := (p - x) / 0x1_0000;
      assert p - x == k * 0x1_0000 + u;
      var m := (x + a) / 0x1_0000;
      assert x + a == m * 0x1_0000 + s;
      assert p - s == (k + m) * 0x1_0000 + (u - a);
      if u >= a {
        DivModUnique(k + m, 0x1_0000, u - a);
      } else {
        DivModUnique(k + m - 1, 0x1_0000, u - a + 0x1_0000);
      }
    }
  }

  lemma Assoc<T>(a: seq<T>, b: seq<T>, c: seq<T>)
    ensures (a + b) + c == a + (b + c)
  {
  }

  lemma Regroup<T>(a: seq<T>, k: seq<T>, n: seq<T>, p: seq<T>, r: seq<T>, c: seq<T>, q: seq<T>)
    requires a + k == n + p && p + r == c + q
    ensures a + (k + r) == (n + c) + q
  {
    assert a + (k + r) == (a + k) + r == (n + p) + r == n + (p + r);
  }

  lemma SliceOfPrefix<T>(s: seq<T>, n: nat, i: nat, j: nat)
    requires i <= j <= n <= |s|
    ensures s[..n][i..j] == s[i..j]
  {
  }

  /** `memmove` of `n` elements within a sequence. */
  function MemMove<T>(s: seq<T>, dst: nat, src: nat, n: nat): (out: seq<T>)
    requires dst + n <= |s| && src + n <= |s|
    ensures |out| == |s|
    ensures forall i :: 0 <= i < |s| ==> out[i] == s[if dst <= i < dst + n then i - dst + src else i]
  {
    s[..dst] + s[src..src + n] + s[dst + n..]
  }
}
