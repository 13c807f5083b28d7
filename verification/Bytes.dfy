/** Options and results, in place of null pointers and exceptions. */
module Wrappers {
  datatype Option<+T> = None | Some(value: T)
  datatype Result<+T, +E> = Ok(value: T) | Err(error: E)
}

/** Choosing from a set. */
module Collections {
  ghost function Pick<T>(s: set<T>): (x: T)
    requires s != {}
    ensures x in s
  {
    var x :| x in s;
    x
  }

  lemma {:induction false} SubsetSize<T>(a: set<T>, b: set<T>)
    requires a <= b
    ensures |a| <= |b|
  {
    if a != {} {
      var x := Pick(a);
      SubsetSize(a - {x}, b - {x});
    }
  }

  method Choose<T>(s: set<T>) returns (x: T)
    requires s != {}
    ensures x in s
  {
    x :| x in s;
  }
}

/**
 Byte strings and fixed-width big-endian integers.  A shift right by 8 bits of an unsigned
 integer is a division by 256 and a mask with 0xFF is a remainder by 256.
 */
module Bytes {
  type byte = x: int | 0 <= x < 256

  const TWO_31: nat := 0x8000_0000
  const TWO_32: nat := 0x1_0000_0000
  const TWO_64: nat := 0x1_0000_0000_0000_0000

  /** An addition that wraps around as it does on `uint64_t`. */
  function U64(x: int): (r: nat)
    ensures r < TWO_64
    ensures 0 <= x < TWO_64 ==> r == x
  {
    x % TWO_64
  }

  function Pow256(n: nat): (p: nat)
    ensures p >= 1
  {
    if n == 0 then 1 else 256 * Pow256(n - 1)
  }

  lemma Pow256Values()
    ensures Pow256(1) == 256 && Pow256(2) == 0x1_0000 && Pow256(3) == 0x100_0000
    ensures Pow256(4) == TWO_32 && Pow256(8) == TWO_64
  {
    assert Pow256(4) == 256 * Pow256(3);
    assert Pow256(6) == 256 * Pow256(5);
    assert Pow256(8) == 256 * Pow256(7);
  }

  /** The last n base-256 digits of v, most significant first. */
  function BigEndian(v: nat, n: nat): (s: seq<byte>)
    ensures |s| == n
  {
    if n == 0 then [] else BigEndian(v / 256, n - 1) + [v % 256]
  }

  function Value(s: seq<byte>): (v: nat)
    ensures v < Pow256(|s|)
  {
    if s == [] then 0 else 256 * Value(s[..|s| - 1]) + s[|s| - 1]
  }

  lemma {:induction false} ValueOfBigEndian(v: nat, n: nat)
    requires v < Pow256(n)
    ensures Value(BigEndian(v, n)) == v
  {
    if n > 0 {
      ValueOfBigEndian(v / 256, n - 1);
      assert BigEndian(v, n)[..n - 1] == BigEndian(v / 256, n - 1);
    }
  }

  lemma BigEndianInjective(v: nat, w: nat, n: nat)
    requires v < Pow256(n) && w < Pow256(n)
    ensures BigEndian(v, n) == BigEndian(w, n) ==> v == w
  {
    ValueOfBigEndian(v, n);
    ValueOfBigEndian(w, n);
  }

  /** The digits of a four-byte number, one shift at a time. */
  lemma BigEndian4(v: nat)
    ensures BigEndian(v, 4) == [v / 0x100_0000 % 256, v / 0x1_0000 % 256, v / 256 % 256, v % 256]
  {
    var a, b, c := v / 256, v / 256 / 256, v / 256 / 256 / 256;
    assert b == v / 0x1_0000 && c == v / 0x100_0000;
    BigEndianStep(v, 3);
    BigEndianStep(a, 2);
    BigEndianStep(b, 1);
    BigEndianStep(c, 0);
    hide BigEndian;
  }

  lemma BigEndianStep(v: nat, n: nat)
    ensures BigEndian(v, n + 1) == BigEndian(v / 256, n) + [v % 256]
    ensures n == 0 ==> BigEndian(v, n + 1) == [v % 256]
  {
  }

  /** The value of four bytes, one shift at a time. */
  lemma Value4(s: seq<byte>)
    requires |s| == 4
    ensures Value(s) == s[0] as int * 0x100_0000 + s[1] as int * 0x1_0000 + s[2] as int * 256 + s[3] as int
  {
    assert s[..3][..2] == s[..2] && s[..2][..1] == s[..1] && s[..1][..0] == [];
    assert Value(s[..1]) == s[0];
    assert Value(s[..2]) == 256 * Value(s[..1]) + s[1];
    assert Value(s[..3]) == 256 * Value(s[..2]) + s[2];
  }

  /** Appends a 32-bit word; a wider number loses its high digits, as in a cast to `uint32_t`. */
  method AppendU32(out: seq<byte>, v: nat) returns (r: seq<byte>)
    ensures r == out + BigEndian(v, 4)
  {
    BigEndian4(v);
    r := out;
    r := r + [v / 0x100_0000 % 256];
    r := r + [v / 0x1_0000 % 256];
    r := r + [v / 256 % 256];
    r := r + [v % 256];
  }

  /** Appends a 64-bit word from its top byte down. */
  method AppendU64(out: seq<byte>, v: nat) returns (r: seq<byte>)
    ensures r == out + BigEndian(v, 8)
  {
    hide BigEndian, Pow256;
    r := out;
    var i: int := 7;
    while i >= 0
      invariant -1 <= i <= 7
      invariant r + BigEndian(v, i + 1) == out + BigEndian(v, 8)
    {
      BigEndianHead(v, i + 1);
      r := r + [v / Pow256(i) % 256];
      i := i - 1;
    }
  }

  lemma {:induction false} BigEndianHead(v: nat, n: nat)
    requires n > 0
    ensures BigEndian(v, n) == [v / Pow256(n - 1) % 256] + BigEndian(v, n - 1)
  {
    if n == 1 {
      assert BigEndian(v, 1) == BigEndian(v / 256, 0) + [v % 256];
    } else {
      BigEndianHead(v / 256, n - 1);
      DivDiv(v, Pow256(n - 2));
    }
  }

  lemma DivDiv(v: nat, p: nat)
    requires p > 0
    ensures v / 256 / p == v / (256 * p)
  {
    var w := v / 256;
    var q, r := w / p, w % p;
    assert v == (256 * p) * q + (256 * r + v % 256) by {
      assert v == 256 * w + v % 256;
      assert 256 * (p * q + r) == (256 * p) * q + 256 * r;
    }
    DivUnique(v, 256 * p, q, 256 * r + v % 256);
  }

  lemma DivUnique(x: nat, p: nat, q: nat, r: nat)
    requires r < p && x == p * q + r
    ensures x / p == q
  {
    QuotientUnique(p, q, r, x / p, x % p);
  }

  lemma QuotientUnique(p: nat, q: nat, r: nat, q': nat, r': nat)
    requires r < p && r' < p && p * q + r == p * q' + r'
    ensures q == q'
  {
    if q < q' {
      MulStep(p, q, q');
    } else if q' < q {
      MulStep(p, q', q);
    }
  }

  lemma MulStep(p: nat, a: nat, b: nat)
    requires a < b
    ensures p * b >= p * a + p
  {
    MulAtLeast(p, b - a);
    assert p * (b - a) == p * b - p * a;
  }

  lemma MulAtLeast(p: nat, k: nat)
    requires k >= 1
    ensures p * k >= p
  {
  }

  /** Equal concatenations with equally long heads agree on both parts. */
  lemma SplitConcat<T>(a: seq<T>, b: seq<T>, c: seq<T>, d: seq<T>)
    requires a + b == c + d && |a| == |c|
    ensures a == c && b == d
  {
    assert a == (a + b)[..|a|] && c == (c + d)[..|c|];
    assert b == (a + b)[|a|..] && d == (c + d)[|c|..];
  }

  lemma MarkEndsNoLater<T>(mark: T, a: seq<T>, b: seq<T>, x: seq<T>, y: seq<T>)
    requires mark !in b && a + [mark] + x == b + [mark] + y
    ensures |b| <= |a|
  {
    assert (a + [mark] + x)[|a|] == mark;
    assert forall k :: 0 <= k < |b| ==> (b + [mark] + y)[k] == b[k];
  }

  /** What stands before the first mark, and what stands after it, are determined. */
  lemma MarkEnds<T>(mark: T, a: seq<T>, b: seq<T>, x: seq<T>, y: seq<T>)
    requires mark !in a && mark !in b && a + [mark] + x == b + [mark] + y
    ensures a == b && x == y
  {
    MarkEndsNoLater(mark, a, b, x, y);
    MarkEndsNoLater(mark, b, a, y, x);
    SplitConcat(a + [mark], x, b + [mark], y);
    SplitConcat(a, [mark], b, [mark]);
  }

  /** Plain ASCII text as bytes. */
  function Ascii(s: string): (b: seq<byte>)
    ensures |b| == |s|
  {
    seq(|s|, i requires 0 <= i < |s| => s[i] as int % 256)
  }
}
