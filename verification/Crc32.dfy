/**
 The checksum of the fault-injection monitor: CRC-32 with the reflected polynomial of
 section 8 of RFC 1952, computed bit by bit.
 */
module Crc32 {
  const POLYNOMIAL: bv32 := 0xEDB8_8320
  const ALL_ONES: bv32 := 0xFFFF_FFFF

  /** A register value; lemmas about runs of the register see it only through the functions below. */
  datatype Word = Word(bits: bv32)

  function Xor(x: Word, y: Word): Word {
    Word(x.bits ^ y.bits)
  }

  function Lift(b: bv8): Word {
    Word(b as bv32)
  }

  /** One bit: the low bit leaves the register and folds the polynomial in. */
  function Shift(x: Word): Word {
    Word((x.bits >> 1) ^ (POLYNOMIAL & -(x.bits & 1)))
  }

  function Shifts(x: Word, n: nat): Word
    decreases n
  {
    if n == 0 then x else Shifts(Shift(x), n - 1)
  }

  function Feed(x: Word, b: bv8): Word {
    Shifts(Xor(x, Lift(b)), 8)
  }

  function Register(x: Word, data: seq<bv8>): Word
    decreases data
  {
    if data == [] then x else Register(Feed(x, data[0]), data[1..])
  }

  function Checksum(data: seq<bv8>): bv32 {
    !Register(Word(ALL_ONES), data).bits
  }

  /** The two nested loops of the monitor. */
  method CalculateChecksum(bytes: array<bv8>) returns (checksum: bv32)
    ensures checksum == Checksum(bytes[..])
  {
    hide Xor, Lift, Shift;
    var crc := Word(ALL_ONES);
    var i := 0;
    while i < bytes.Length
      invariant 0 <= i <= bytes.Length
      invariant Register(crc, bytes[i..]) == Register(Word(ALL_ONES), bytes[..])
    {
      crc := Xor(crc, Lift(bytes[i]));
      ghost var start := crc;
      var j := 0;
      while j < 8
        invariant 0 <= j <= 8
        invariant Shifts(crc, 8 - j) == Shifts(start, 8)
      {
        crc := Shift(crc);
        j := j + 1;
      }
      assert bytes[i..][1..] == bytes[i + 1..];
      i := i + 1;
    }
    checksum := !crc.bits;
  }

  // --- Laws of one step ---

  lemma XorAssociates(x: Word, y: Word, z: Word)
    ensures Xor(x, Xor(y, z)) == Xor(Xor(x, y), z)
  {
  }

  lemma XorZero(x: Word)
    ensures Xor(x, Word(0)) == x
  {
  }

  lemma XorCancels(x: Word, y: Word, z: Word)
    ensures Xor(x, z) == Xor(y, z) ==> x == y
    ensures Xor(z, x) == Xor(z, y) ==> x == y
  {
  }

  /** The step that undoes a shift: the top bit tells whether the polynomial was folded in. */
  function Unshift(x: Word): Word {
    Word(if x.bits & 0x8000_0000 != 0 then ((x.bits ^ POLYNOMIAL) << 1) | 1 else x.bits << 1)
  }

  lemma UnshiftEven(x: Word)
    requires !Odd(x)
    ensures Unshift(Half(x)) == x
  {
  }

  lemma UnshiftOdd(x: Word)
    requires Odd(x)
    ensures Unshift(Xor(Half(x), Word(POLYNOMIAL))) == x
  {
  }

  predicate Odd(x: Word) {
    x.bits & 1 != 0
  }

  function Half(x: Word): Word {
    Word(x.bits >> 1)
  }

  /** The fold-in by its two cases. */
  lemma ShiftCases(x: Word)
    ensures Shift(x) == if Odd(x) then Xor(Half(x), Word(POLYNOMIAL)) else Half(x)
  {
  }

  lemma UnshiftUndoesShift(x: Word)
    ensures Unshift(Shift(x)) == x
  {
    hide Unshift, Shift, Half, Xor, Odd;
    ShiftCases(x);
    if Odd(x) {
      UnshiftOdd(x);
    } else {
      UnshiftEven(x);
    }
  }

  lemma OddOfXor(x: Word, y: Word)
    ensures Odd(Xor(x, y)) <==> Odd(x) != Odd(y)
  {
  }

  lemma HalfOfXor(x: Word, y: Word)
    ensures Half(Xor(x, y)) == Xor(Half(x), Half(y))
  {
  }

  lemma XorMovesOut(x: Word, y: Word, p: Word)
    ensures Xor(Xor(x, y), p) == Xor(Xor(x, p), y)
  {
  }

  lemma XorPairCancels(x: Word, y: Word, p: Word)
    ensures Xor(Xor(x, p), Xor(y, p)) == Xor(x, y)
  {
  }

  lemma ShiftIsLinear(x: Word, y: Word)
    ensures Shift(Xor(x, y)) == Xor(Shift(x), Shift(y))
  {
    hide Shift, Half, Xor, Odd;
    ShiftCases(x);
    ShiftCases(y);
    ShiftCases(Xor(x, y));
    OddOfXor(x, y);
    HalfOfXor(x, y);
    var p := Word(POLYNOMIAL);
    XorMovesOut(Half(x), Half(y), p);
    XorAssociates(Half(x), Half(y), p);
    XorPairCancels(Half(x), Half(y), p);
  }

  // --- Laws of many steps ---

  lemma {:induction false} ShiftsAreInjective(x: Word, y: Word, n: nat)
    requires Shifts(x, n) == Shifts(y, n)
    ensures x == y
    decreases n
  {
    hide Shift, Unshift;
    if n > 0 {
      ShiftsAreInjective(Shift(x), Shift(y), n - 1);
      UnshiftUndoesShift(x);
      UnshiftUndoesShift(y);
    }
  }

  lemma {:induction false} ShiftsAreLinear(x: Word, y: Word, n: nat)
    ensures Shifts(Xor(x, y), n) == Xor(Shifts(x, n), Shifts(y, n))
    decreases n
  {
    hide Shift, Xor;
    if n > 0 {
      ShiftIsLinear(x, y);
      ShiftsAreLinear(Shift(x), Shift(y), n - 1);
    }
  }

  lemma {:induction false} ShiftsCompose(x: Word, m: nat, n: nat)
    ensures Shifts(Shifts(x, m), n) == Shifts(x, m + n)
    decreases m
  {
    hide Shift;
    if m > 0 {
      ShiftsCompose(Shift(x), m - 1, n);
    }
  }

  /** A word moved up by n bits. */
  function Up(x: Word, n: bv32): Word
    requires n <= 8
  {
    Word(x.bits << n)
  }

  /** The bits of a word are among those of m. */
  predicate Within(x: Word, m: bv32) {
    x.bits | m == m
  }

  lemma HalfOfUp(x: Word, n: bv32)
    requires Within(x, 0xFF_FFFF) && 1 <= n <= 8
    ensures Half(Up(x, n)) == Up(x, n - 1)
  {
  }

  lemma UpIsEven(x: Word, n: bv32)
    requires 1 <= n <= 8
    ensures !Odd(Up(x, n))
  {
  }

  lemma ShiftOfUp(x: Word, n: bv32)
    requires Within(x, 0xFF_FFFF) && 1 <= n <= 8
    ensures Shift(Up(x, n)) == Up(x, n - 1)
  {
    hide Shift, Half, Up, Odd, Within;
    HalfOfUp(x, n);
    UpIsEven(x, n);
    ShiftCases(Up(x, n));
  }

  lemma UpZero(x: Word)
    ensures Up(x, 0) == x
  {
  }

  /** Eight shifts move the upper three bytes down unchanged. */
  lemma ShiftsOfHighBytes(x: Word)
    requires Within(x, 0xFF_FFFF)
    ensures Shifts(Up(x, 8), 8) == x
  {
    hide Shift, Up, Within;
    ShiftOfUp(x, 8);
    ShiftOfUp(x, 7);
    ShiftOfUp(x, 6);
    ShiftOfUp(x, 5);
    ShiftOfUp(x, 4);
    ShiftOfUp(x, 3);
    ShiftOfUp(x, 2);
    ShiftOfUp(x, 1);
    UpZero(x);
    assert Shifts(Up(x, 8), 8) == Shifts(Up(x, 6), 6);
    assert Shifts(Up(x, 6), 6) == Shifts(Up(x, 4), 4);
    assert Shifts(Up(x, 4), 4) == Shifts(Up(x, 2), 2);
  }

  // --- The table-driven form of RFC 1952 ---

  /** The entry for a byte of the table of section 8 of RFC 1952. */
  function TableEntry(n: bv8): Word {
    Shifts(Lift(n), 8)
  }

  /** The table index is the low byte of the register xor the data. */
  function LowByte(x: Word): bv8 {
    (x.bits & 0xFF) as bv8
  }

  function DropByte(x: Word): Word {
    Word(x.bits >> 8)
  }

  lemma SplitLowByte(x: Word)
    ensures x == Xor(Lift(LowByte(x)), Up(DropByte(x), 8))
  {
  }

  lemma DropByteLaws(x: Word, b: bv8)
    ensures DropByte(Xor(x, Lift(b))) == DropByte(x)
    ensures Within(DropByte(x), 0xFF_FFFF)
  {
  }

  /** The eight-step loop computes the one-step table update of RFC 1952. */
  lemma FeedIsTableUpdate(x: Word, b: bv8)
    ensures Feed(x, b) == Xor(TableEntry(LowByte(Xor(x, Lift(b)))), DropByte(x))
  {
    hide Shift, Xor, Lift, LowByte, DropByte, Up, Within;
    var y := Xor(x, Lift(b));
    SplitLowByte(y);
    DropByteLaws(x, b);
    ShiftsAreLinear(Lift(LowByte(y)), Up(DropByte(y), 8), 8);
    ShiftsOfHighBytes(DropByte(y));
  }

  // --- The check value ---

  lemma CheckSteps1()
    ensures Feed(Word(0xFFFF_FFFF), 0x31) == Word(0x7C23_1048)
    ensures Feed(Word(0x7C23_1048), 0x32) == Word(0xB0AC_BB32)
    ensures Feed(Word(0xB0AC_BB32), 0x33) == Word(0x77B7_9C2D)
  {
  }

  lemma CheckSteps2()
    ensures Feed(Word(0x77B7_9C2D), 0x34) == Word(0x641C_1F5C)
    ensures Feed(Word(0x641C_1F5C), 0x35) == Word(0x340A_C5E3)
    ensures Feed(Word(0x340A_C5E3), 0x36) == Word(0xF68D_2C9E)
  {
  }

  lemma CheckSteps3()
    ensures Feed(Word(0xF68D_2C9E), 0x37) == Word(0xAFFC_9660)
    ensures Feed(Word(0xAFFC_9660), 0x38) == Word(0x651F_2550)
    ensures Feed(Word(0x651F_2550), 0x39) == Word(0x340B_C6D9)
  {
  }

  /** The checksum of the digits 1 to 9 is the check value of CRC-32. */
  lemma CheckValue()
    ensures Checksum([0x31, 0x32, 0x33, 0x34, 0x35, 0x36, 0x37, 0x38, 0x39]) == 0xCBF4_3926
  {
    CheckSteps1();
    CheckSteps2();
    CheckSteps3();
    hide Feed;
    var digits: seq<bv8> := [0x31, 0x32, 0x33, 0x34, 0x35, 0x36, 0x37, 0x38, 0x39];
    var last: seq<bv8> := [0x37, 0x38, 0x39];
    assert digits[1..][1..][1..] == [0x34, 0x35, 0x36, 0x37, 0x38, 0x39];
    assert digits[3..][1..][1..][1..] == last;
    assert Register(Word(0xFFFF_FFFF), digits) == Register(Word(0x77B7_9C2D), digits[3..]);
    assert Register(Word(0x77B7_9C2D), digits[3..]) == Register(Word(0xF68D_2C9E), last);
    assert Register(Word(0xF68D_2C9E), last) == Word(0x340B_C6D9);
  }

  // --- Bursts of up to four bytes ---

  lemma {:induction false} RegisterOfConcat(x: Word, a: seq<bv8>, b: seq<bv8>)
    ensures Register(x, a + b) == Register(Register(x, a), b)
    decreases a
  {
    hide Feed;
    if a == [] {
      assert a + b == b;
    } else {
      assert (a + b)[1..] == a[1..] + b;
      RegisterOfConcat(Feed(x, a[0]), a[1..], b);
    }
  }

  lemma {:induction false} RegisterIsInjective(x: Word, y: Word, data: seq<bv8>)
    requires Register(x, data) == Register(y, data)
    ensures x == y
    decreases data
  {
    hide Xor, Shift, Lift;
    if data != [] {
      var b := Lift(data[0]);
      RegisterIsInjective(Feed(x, data[0]), Feed(y, data[0]), data[1..]);
      ShiftsAreInjective(Xor(x, b), Xor(y, b), 8);
      XorCancels(x, y, b);
    }
  }

  /** Up to four bytes as one word, the first in the low byte. */
  function Pack(w: seq<bv8>): Word {
    if w == [] then Word(0) else Xor(Lift(w[0]), Up(Pack(w[1..]), 8))
  }

  lemma PackStep(b: bv8, p: Word)
    ensures Within(p, 0) ==> Within(Xor(Lift(b), Up(p, 8)), 0xFF)
    ensures Within(p, 0xFF) ==> Within(Xor(Lift(b), Up(p, 8)), 0xFFFF)
    ensures Within(p, 0xFFFF) ==> Within(Xor(Lift(b), Up(p, 8)), 0xFF_FFFF)
  {
  }

  lemma WithinWidens(p: Word)
    ensures Within(p, 0) ==> Within(p, 0xFF)
    ensures Within(p, 0xFF) ==> Within(p, 0xFFFF)
    ensures Within(p, 0xFFFF) ==> Within(p, 0xFF_FFFF)
  {
  }

  lemma ZeroWithin()
    ensures Within(Word(0), 0)
  {
  }

  lemma {:induction false} PackIsSmall(w: seq<bv8>)
    requires |w| <= 3
    ensures Within(Pack(w), 0xFF_FFFF)
    ensures |w| <= 2 ==> Within(Pack(w), 0xFFFF)
    ensures |w| <= 1 ==> Within(Pack(w), 0xFF)
    ensures |w| == 0 ==> Within(Pack(w), 0)
  {
    hide Xor, Lift, Within, Up;
    if w == [] {
      ZeroWithin();
    } else {
      PackIsSmall(w[1..]);
      PackStep(w[0], Pack(w[1..]));
    }
    WithinWidens(Pack(w));
  }

  /** Four bytes enter the register as one word, shifted out afterwards. */
  lemma {:induction false} RegisterOfWord(s: Word, w: seq<bv8>)
    requires |w| <= 4
    ensures Register(s, w) == Shifts(Xor(s, Pack(w)), 8 * |w|)
    decreases w
  {
    hide Xor, Shift, Lift, Within, Up;
    if w == [] {
      XorZero(s);
    } else {
      var b, p := Lift(w[0]), Pack(w[1..]);
      RegisterOfWord(Feed(s, w[0]), w[1..]);
      PackIsSmall(w[1..]);
      XorAssociates(s, b, Up(p, 8));
      ShiftsAreLinear(Xor(s, b), Up(p, 8), 8);
      ShiftsOfHighBytes(p);
      ShiftsCompose(Xor(s, Pack(w)), 8, 8 * |w| - 8);
    }
  }

  lemma UnpackStep(a: bv8, b: bv8, p: Word, q: Word)
    requires Xor(Lift(a), Up(p, 8)) == Xor(Lift(b), Up(q, 8))
    requires Within(p, 0xFF_FFFF) && Within(q, 0xFF_FFFF)
    ensures a == b && p == q
  {
  }

  lemma {:induction false} PackIsInjective(v: seq<bv8>, w: seq<bv8>)
    requires |v| == |w| <= 4 && Pack(v) == Pack(w)
    ensures v == w
    decreases |v|
  {
    hide Xor, Lift, Within, Up;
    if v != [] {
      PackIsSmall(v[1..]);
      PackIsSmall(w[1..]);
      UnpackStep(v[0], w[0], Pack(v[1..]), Pack(w[1..]));
      PackIsInjective(v[1..], w[1..]);
      assert v == [v[0]] + v[1..] && w == [w[0]] + w[1..];
    }
  }

  lemma ComplementIsInjective(x: Word, y: Word)
    requires !x.bits == !y.bits
    ensures x == y
  {
  }

  lemma WindowsAgree(s: Word, head: seq<bv8>, v: seq<bv8>, w: seq<bv8>, tail: seq<bv8>)
    requires |v| == |w| <= 4
    requires Register(s, head + (v + tail)) == Register(s, head + (w + tail))
    ensures v == w
  {
    hide Xor, Shift, Feed, Pack;
    var t := Register(s, head);
    RegisterOfConcat(s, head, v + tail);
    RegisterOfConcat(s, head, w + tail);
    RegisterOfConcat(t, v, tail);
    RegisterOfConcat(t, w, tail);
    RegisterIsInjective(Register(t, v), Register(t, w), tail);
    RegisterOfWord(t, v);
    RegisterOfWord(t, w);
    ShiftsAreInjective(Xor(t, Pack(v)), Xor(t, Pack(w)), 8 * |v|);
    XorCancels(Pack(v), Pack(w), t);
    PackIsInjective(v, w);
  }

  /** Two sequences that agree outside a range, cut at its ends. */
  lemma CutAround<T>(x: seq<T>, y: seq<T>, from: nat, to: nat)
    requires |x| == |y| && from <= to <= |x|
    requires forall k :: 0 <= k < |x| && !(from <= k < to) ==> x[k] == y[k]
    ensures x == x[..from] + (x[from..to] + x[to..])
    ensures y == x[..from] + (y[from..to] + x[to..])
  {
  }

  /** Buffers that differ only inside one window of four bytes have different checksums. */
  lemma BurstsAreDetected(x: seq<bv8>, y: seq<bv8>, start: nat)
    requires |x| == |y| && x != y
    requires forall k :: 0 <= k < |x| && !(start <= k < start + 4) ==> x[k] == y[k]
    ensures Checksum(x) != Checksum(y)
  {
    hide Feed, Pack;
    var from := if start < |x| then start else |x|;
    var to := if start + 4 < |x| then start + 4 else |x|;
    CutAround(x, y, from, to);
    if Checksum(x) == Checksum(y) {
      ComplementIsInjective(Register(Word(ALL_ONES), x), Register(Word(ALL_ONES), y));
      WindowsAgree(Word(ALL_ONES), x[..from], x[from..to], y[from..to], x[to..]);
    }
  }
}
