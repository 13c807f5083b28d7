/**
 The 64-entry anti-replay bitmap.  `bitmap` has bit d set when the counter `top - d` was
 accepted.  Shift amounts are only known at run time, so a shift by n is n single-bit shifts.
 */
module ReplayWindow {
  const WINDOW_SIZE: nat := 64
  const TOP_BIT: bv64 := 0x8000_0000_0000_0000

  function Shl(x: bv64, n: nat): bv64 {
    if n == 0 then x else Shl(x, n - 1) << 1
  }

  function Mask(d: nat): bv64 {
    Shl(1, d)
  }

  predicate Meets(x: bv64, y: bv64) {
    x & y != 0
  }

  predicate Seen(bitmap: bv64, d: nat) {
    Meets(bitmap, Mask(d))
  }

  /** The counters a receiver takes next, said of the set of counters it has accepted. */
  ghost predicate Fresh(accepted: set<nat>, counter: nat) {
    && counter !in accepted
    && (accepted == {} ==> counter < WINDOW_SIZE)
    && forall x :: x in accepted ==> x < counter + WINDOW_SIZE
  }

  /** The positions marked in a bitmap. */
  ghost function Marked(bitmap: bv64): set<nat> {
    set d: nat | d < WINDOW_SIZE && Seen(bitmap, d)
  }

  ghost predicate HasBelow(top: nat, d: nat, accepted: set<nat>) {
    d <= top && top - d in accepted
  }

  /** How far below the top the recently accepted counters lie. */
  ghost function Distances(top: nat, accepted: set<nat>): set<nat> {
    set d: nat | d < WINDOW_SIZE && HasBelow(top, d, accepted)
  }

  /** The window state (initialized, top, bitmap) stands for the set of accepted counters. */
  ghost predicate Represents(initialized: bool, top: nat, bitmap: bv64, accepted: set<nat>) {
    if !initialized then
      accepted == {} && top == 0 && bitmap == 0
    else
      && top in accepted
      && (forall x :: x in accepted ==> x <= top)
      && Marked(bitmap) == Distances(top, accepted)
  }

  // --- Arithmetic of single-bit masks ---

  lemma {:induction false} ShlPlus(x: bv64, m: nat, n: nat)
    ensures Shl(Shl(x, m), n) == Shl(x, m + n)
  {
    if n > 0 {
      ShlPlus(x, m, n - 1);
    }
  }

  lemma {:induction false} ShlZero(n: nat)
    ensures Shl(0, n) == 0
  {
    if n > 0 {
      ShlZero(n - 1);
    }
  }

  lemma Mask32()
    ensures Mask(32) == 0x1_0000_0000
  {
    assert Mask(8) == 0x100;
    assert Mask(16) == 0x1_0000;
    assert Mask(24) == 0x100_0000;
  }

  lemma Mask63()
    ensures Mask(63) == TOP_BIT
  {
    Mask32();
    assert Mask(40) == 0x100_0000_0000;
    assert Mask(48) == 0x1_0000_0000_0000;
    assert Mask(56) == 0x100_0000_0000_0000;
  }

  lemma HalveOneBit(m: bv64)
    requires m & (m - 1) == 0 && m << 1 != 0
    ensures !Meets(m, TOP_BIT) && (m << 1) & ((m << 1) - 1) == 0
  {
  }

  /** Inside the word a mask is one bit, and below bit 63 it leaves the top bit clear. */
  lemma {:induction false} MaskIsOneBit(d: nat)
    requires d < WINDOW_SIZE
    ensures Mask(d) != 0 && Mask(d) & (Mask(d) - 1) == 0
    ensures d < 63 ==> !Meets(Mask(d), TOP_BIT)
  {
    MaskNonZero(d);
    if d > 0 {
      MaskIsOneBit(d - 1);
      HalveOneBit(Mask(d - 1));
    }
    if d < 63 {
      MaskNonZero(d + 1);
      HalveOneBit(Mask(d));
    }
  }

  lemma MaskNonZero(d: nat)
    requires d < WINDOW_SIZE
    ensures Mask(d) != 0
  {
    Mask63();
    ShlPlus(1, d, 63 - d);
    if Mask(d) == 0 {
      ShlZero(63 - d);
    }
  }

  lemma ShiftBoth(x: bv64, y: bv64)
    requires !Meets(y, TOP_BIT)
    ensures Meets(x << 1, y << 1) <==> Meets(x, y)
  {
    assert (x << 1) & (y << 1) == (x & y) << 1;
  }

  lemma ShiftMissesOne(x: bv64)
    ensures !Meets(x << 1, 1) && !Meets(1, x << 1)
  {
  }

  lemma {:induction false} MasksDisjoint(d: nat, e: nat)
    requires d < e < WINDOW_SIZE
    ensures !Meets(Mask(d), Mask(e))
  {
    if d == 0 {
      ShiftMissesOne(Mask(e - 1));
    } else {
      MasksDisjoint(d - 1, e - 1);
      MaskIsOneBit(e - 1);
      ShiftBoth(Mask(d - 1), Mask(e - 1));
    }
  }

  lemma DisjointEitherWay(d: nat, e: nat)
    requires d < WINDOW_SIZE && e < WINDOW_SIZE && d != e
    ensures !Meets(Mask(d), Mask(e))
  {
    if d < e {
      MasksDisjoint(d, e);
    } else {
      MasksDisjoint(e, d);
      MeetsCommutes(Mask(d), Mask(e));
    }
  }

  lemma MeetsCommutes(x: bv64, y: bv64)
    ensures Meets(x, y) <==> Meets(y, x)
  {
  }

  lemma MarkOther(b: bv64, m: bv64, n: bv64)
    requires !Meets(m, n)
    ensures Meets(b | m, n) <==> Meets(b, n)
  {
    OrOther(b, m, n);
  }

  lemma OrOther(b: bv64, m: bv64, n: bv64)
    requires m & n == 0
    ensures (b | m) & n == b & n
  {
  }

  lemma MarkSame(b: bv64, m: bv64)
    requires m != 0
    ensures Meets(b | m, m)
  {
  }

  lemma SeenAfterMarkSame(b: bv64, d: nat)
    requires d < WINDOW_SIZE
    ensures Seen(b | Mask(d), d)
  {
    MaskNonZero(d);
    MarkSame(b, Mask(d));
  }

  lemma SeenAfterMarkOther(b: bv64, d: nat, e: nat)
    requires d < WINDOW_SIZE && e < WINDOW_SIZE && d != e
    ensures Seen(b | Mask(d), e) <==> Seen(b, e)
  {
    hide Shl, Mask, Meets;
    var m, n := Mask(d), Mask(e);
    DisjointEitherWay(d, e);
    MarkOther(b, m, n);
  }

  /** Setting the bit of one counter changes nothing for the others. */
  lemma SeenAfterMark(b: bv64, d: nat, e: nat)
    requires d < WINDOW_SIZE && e < WINDOW_SIZE
    ensures Seen(b | Mask(d), e) <==> Seen(b, e) || d == e
  {
    if d == e {
      SeenAfterMarkSame(b, d);
    } else {
      SeenAfterMarkOther(b, d, e);
    }
  }

  lemma SeenAfterShl1(x: bv64, e: nat)
    requires e < WINDOW_SIZE
    ensures Seen(x << 1, e) <==> 1 <= e && Seen(x, e - 1)
  {
    if e == 0 {
      ShiftMissesOne(x);
    } else {
      MaskIsOneBit(e - 1);
      ShiftBoth(x, Mask(e - 1));
    }
  }

  lemma {:induction false} SeenAfterShl(b: bv64, s: nat, e: nat)
    requires e < WINDOW_SIZE
    ensures Seen(Shl(b, s), e) <==> s <= e && Seen(b, e - s)
    decreases s
  {
    hide Seen;
    if s > 0 {
      SeenAfterShl1(Shl(b, s - 1), e);
      if e > 0 {
        SeenAfterShl(b, s - 1, e - 1);
      }
    }
  }

  /** Moving the window up by s positions and marking the new top. */
  lemma SeenAfterAdvance(b: bv64, s: nat, e: nat)
    requires 0 < s && e < WINDOW_SIZE
    ensures Seen(Shl(b, s) | 1, e) <==> e == 0 || (s <= e && Seen(b, e - s))
  {
    assert Mask(0) == 1;
    hide Seen, Shl, Mask;
    SeenAfterShl(b, s, e);
    SeenAfterMark(Shl(b, s), 0, e);
  }

  /** The bitmap of a window holding only its top. */
  lemma SeenOfOne(e: nat)
    requires e < WINDOW_SIZE
    ensures Seen(1, e) <==> e == 0
  {
    if e > 0 {
      MasksDisjoint(0, e);
    }
  }

  // --- The bit operations of the code, as operations on sets of positions ---

  method TestBit(bitmap: bv64, d: nat) returns (marked: bool)
    requires d < WINDOW_SIZE
    ensures marked <==> d in Marked(bitmap)
  {
    var mask := Mask(d);
    marked := Meets(bitmap, mask);
  }

  method SetBit(bitmap: bv64, d: nat) returns (next: bv64)
    requires d < WINDOW_SIZE
    ensures Marked(next) == Marked(bitmap) + {d}
  {
    var mask := Mask(d);
    next := bitmap | mask;
    MarkedAfterSet(bitmap, d, next);
  }

  lemma MarkedAfterSet(bitmap: bv64, d: nat, next: bv64)
    requires d < WINDOW_SIZE && next == bitmap | Mask(d)
    ensures Marked(next) == Marked(bitmap) + {d}
  {
    forall e: nat | e < WINDOW_SIZE ensures Seen(next, e) <==> Seen(bitmap, e) || d == e {
      SeenAfterMark(bitmap, d, e);
    }
  }

  /** Positions moved up by `shift`; what leaves the window is forgotten. */
  ghost function Raised(positions: set<nat>, shift: nat): set<nat> {
    set e: nat | e < WINDOW_SIZE && IsRaised(positions, shift, e)
  }

  ghost predicate IsRaised(positions: set<nat>, shift: nat, e: nat) {
    shift <= e && e - shift in positions
  }

  /** The bitmap after the window has moved up by `shift`, with the new top marked. */
  method ShiftIn(bitmap: bv64, shift: nat) returns (next: bv64)
    requires 0 < shift
    ensures Marked(next) == {0} + Raised(Marked(bitmap), shift)
  {
    if shift >= WINDOW_SIZE {
      next := 1;
      MarkedOfOne();
      assert Raised(Marked(bitmap), shift) == {};
    } else {
      next := Shl(bitmap, shift) | 1;
      MarkedAfterShift(bitmap, shift, next);
    }
  }

  lemma MarkedOfOne()
    ensures Marked(1) == {0}
  {
    forall e: nat | e < WINDOW_SIZE ensures Seen(1, e) <==> e == 0 {
      SeenOfOne(e);
    }
  }

  lemma MarkedAfterShift(bitmap: bv64, shift: nat, next: bv64)
    requires 0 < shift < WINDOW_SIZE && next == Shl(bitmap, shift) | 1
    ensures Marked(next) == {0} + Raised(Marked(bitmap), shift)
  {
    forall e: nat | e < WINDOW_SIZE
      ensures Seen(next, e) <==> e == 0 || IsRaised(Marked(bitmap), shift, e)
    {
      SeenAfterAdvance(bitmap, shift, e);
    }
  }

  // --- Each window step keeps the window equal to its set ---

  lemma FirstRepresents(counter: nat)
    ensures Represents(true, counter, 1, {counter})
  {
    MarkedOfOne();
    assert Distances(counter, {counter}) == {0};
  }

  lemma AdvanceRepresents(top: nat, bitmap: bv64, accepted: set<nat>, counter: nat, next: bv64)
    requires Represents(true, top, bitmap, accepted) && top < counter
    requires Marked(next) == {0} + Raised(Marked(bitmap), counter - top)
    ensures Represents(true, counter, next, accepted + {counter})
  {
    RaisedDistances(top, accepted, counter);
  }

  lemma RaisedDistances(top: nat, accepted: set<nat>, counter: nat)
    requires top < counter && forall x :: x in accepted ==> x <= top
    ensures {0} + Raised(Distances(top, accepted), counter - top) == Distances(counter, accepted + {counter})
  {
    var shift := counter - top;
    forall e: nat | e < WINDOW_SIZE
      ensures e in {0} + Raised(Distances(top, accepted), shift) <==> HasBelow(counter, e, accepted + {counter})
    {
      assert IsRaised(Distances(top, accepted), shift, e) <==> shift <= e && HasBelow(top, e - shift, accepted);
    }
  }

  lemma FillRepresents(top: nat, bitmap: bv64, accepted: set<nat>, counter: nat, next: bv64)
    requires Represents(true, top, bitmap, accepted) && counter <= top && top - counter < WINDOW_SIZE
    requires Marked(next) == Marked(bitmap) + {top - counter}
    ensures Represents(true, top, next, accepted + {counter})
  {
    FilledDistances(top, accepted, counter);
  }

  lemma FilledDistances(top: nat, accepted: set<nat>, counter: nat)
    requires counter <= top && top - counter < WINDOW_SIZE
    ensures Distances(top, accepted) + {top - counter} == Distances(top, accepted + {counter})
  {
    forall e: nat | e < WINDOW_SIZE
      ensures e in Distances(top, accepted) + {top - counter} <==> HasBelow(top, e, accepted + {counter})
    {
    }
  }
}
