/** The pool of pre-allocated image matrices. */
module MatPool {
  import opened Collections
  import opened Wrappers

  // --- What the operations mean, on buffer numbers ---

  /** `available` is the queue of free numbers below `count`, `lent` the numbers handed out. */
  datatype Pool = Pool(count: nat, available: seq<nat>, lent: set<nat>)

  ghost predicate NoDuplicates<T>(s: seq<T>) {
    forall i, j :: 0 <= i < j < |s| ==> s[i] != s[j]
  }

  /** Every buffer is either free, once in the queue, or lent. */
  ghost predicate WellFormed(p: Pool, maxSize: nat) {
    && p.count <= maxSize
    && NoDuplicates(p.available)
    && (forall i :: i in p.available ==> 0 <= i < p.count)
    && (forall i :: i in p.lent ==> 0 <= i < p.count)
    && (forall i :: 0 <= i < p.count ==> (i in p.available <==> i !in p.lent))
  }

  function AcquireSpec(p: Pool, maxSize: nat): (Pool, Option<nat>) {
    if p.available != [] then
      var i := p.available[0];
      (Pool(p.count, p.available[1..], p.lent + {i}), Some(i))
    else if p.count < maxSize then (Pool(p.count + 1, [], p.lent + {p.count}), Some(p.count))
    else (p, None)
  }

  /** Releasing what is not lent changes nothing. */
  function ReleaseSpec(p: Pool, i: nat): Pool {
    if i in p.lent then Pool(p.count, p.available + [i], p.lent - {i}) else p
  }

  // --- The class ---

  class MatBuffer {
    var inUse: bool

    constructor ()
      ensures !inUse
    {
      inUse := false;
    }
  }

  class MatPool {
    const maxSize: nat
    var buffers: seq<MatBuffer>
    var availableIndices: seq<nat>

    ghost function Abs(): Pool
      reads this, buffers
    {
      Pool(|buffers|, availableIndices, set i | 0 <= i < |buffers| && buffers[i].inUse)
    }

    ghost predicate Valid()
      reads this, buffers
    {
      NoDuplicates(buffers) && WellFormed(Abs(), maxSize)
    }

    constructor (initialSize: nat, maxSize: nat)
      ensures Valid() && this.maxSize == maxSize && fresh(buffers)
      ensures |buffers| == (if initialSize < maxSize then initialSize else maxSize) && Abs().lent == {}
    {
      this.maxSize := maxSize;
      buffers, availableIndices := [], [];
      new;
      var i := 0;
      while i < initialSize && i < maxSize
        invariant 0 <= i <= initialSize && i <= maxSize
        invariant |buffers| == i && |availableIndices| == i && fresh(buffers)
        invariant NoDuplicates(buffers)
        invariant forall k :: 0 <= k < i ==> availableIndices[k] == k && !buffers[k].inUse
      {
        var buffer := new MatBuffer();
        buffers := buffers + [buffer];
        availableIndices := availableIndices + [i];
        i := i + 1;
      }
      assert Abs().lent == {};
    }

    /** The part of acquire after the wait; the wait ends with an empty queue only by timing out. */
    method Acquire() returns (r: MatBuffer?)
      requires Valid()
      modifies this, buffers
      ensures Valid() && |old(buffers)| <= |buffers| && buffers[..|old(buffers)|] == old(buffers)
      ensures fresh(buffers[|old(buffers)|..])
      ensures Abs() == AcquireSpec(old(Abs()), maxSize).0
      ensures match AcquireSpec(old(Abs()), maxSize).1
        case None => r == null
        case Some(i) => i < |buffers| && r == buffers[i] && r.inUse
    {
      AcquireKeepsWellFormed(Abs(), maxSize);
      if availableIndices == [] {
        if |buffers| < maxSize {
          var buffer := new MatBuffer();
          ghost var before := Abs();
          buffers := buffers + [buffer];
          buffer.inUse := true;
          assert Abs().lent == before.lent + {before.count};
          return buffer;
        }
        return null;
      }
      var index := availableIndices[0];
      assert index in Abs().available;
      availableIndices := availableIndices[1..];
      buffers[index].inUse := true;
      assert Abs().lent == old(Abs()).lent + {index};
      return buffers[index];
    }

    /** Searches for the buffer in use; an unknown or already free one is ignored. */
    method Release(mat: MatBuffer?)
      requires Valid()
      modifies this, buffers
      ensures Valid() && buffers == old(buffers)
      ensures forall i :: 0 <= i < |buffers| && buffers[i] == mat ==> Abs() == ReleaseSpec(old(Abs()), i)
      ensures mat == null || mat !in buffers ==> Abs() == old(Abs())
    {
      if mat == null {
        return;
      }
      var i := 0;
      while i < |buffers|
        invariant 0 <= i <= |buffers|
        invariant Abs() == old(Abs()) && Valid() && buffers == old(buffers)
        invariant forall k :: 0 <= k < i ==> buffers[k] != mat || !buffers[k].inUse
      {
        if buffers[i] == mat && buffers[i].inUse {
          ReleaseKeepsWellFormed(Abs(), maxSize, i);
          buffers[i].inUse := false;
          availableIndices := availableIndices + [i];
          assert Abs().lent == old(Abs()).lent - {i};
          return;
        }
        i := i + 1;
      }
    }
  }

  lemma AcquireKeepsWellFormed(p: Pool, maxSize: nat)
    requires WellFormed(p, maxSize)
    ensures WellFormed(AcquireSpec(p, maxSize).0, maxSize)
    ensures match AcquireSpec(p, maxSize).1 case Some(i) => i !in p.lent case None => true
  {
    if p.available != [] {
      var rest := p.available[1..];
      assert forall i :: i in p.available <==> i == p.available[0] || i in rest;
      assert p.available[0] !in rest;
    }
  }

  lemma ReleaseKeepsWellFormed(p: Pool, maxSize: nat, i: nat)
    requires WellFormed(p, maxSize)
    ensures WellFormed(ReleaseSpec(p, i), maxSize)
  {
    if i in p.lent {
      assert forall k :: k in p.available + [i] <==> k in p.available || k == i;
    }
  }

  /** A request is refused exactly when as many buffers as allowed are lent. */
  lemma RefusedOnlyWhenAllLent(p: Pool, maxSize: nat)
    requires WellFormed(p, maxSize)
    ensures AcquireSpec(p, maxSize).1.None? <==> |p.lent| == maxSize
  {
    var all := Below(p.count);
    SubsetSize(p.lent, all);
    if p.available == [] {
      assert p.lent == all;
    } else {
      assert p.available[0] in p.available;
      SubsetSize(p.lent, all - {p.available[0]});
    }
  }

  function Below(n: nat): (s: set<nat>)
    ensures |s| == n && forall i :: i in s <==> 0 <= i < n
  {
    if n == 0 then {} else Below(n - 1) + {n - 1}
  }

  // --- Runs ---

  datatype PoolOp = AcquireOp | ReleaseOp(index: nat)
  datatype Event = Granted(index: nat) | Returned(index: nat) | Nothing

  function Step(p: Pool, maxSize: nat, op: PoolOp): (Pool, Event) {
    match op
    case AcquireOp =>
      var (next, r) := AcquireSpec(p, maxSize);
      (next, if r.Some? then Granted(r.value) else Nothing)
    case ReleaseOp(i) =>
      (ReleaseSpec(p, i), if i in p.lent then Returned(i) else Nothing)
  }

  function Events(p: Pool, maxSize: nat, ops: seq<PoolOp>): (es: seq<Event>)
    ensures |es| == |ops|
    decreases ops
  {
    if ops == [] then []
    else
      var (next, event) := Step(p, maxSize, ops[0]);
      [event] + Events(next, maxSize, ops[1..])
  }

  lemma StepKeepsWellFormed(p: Pool, maxSize: nat, op: PoolOp)
    requires WellFormed(p, maxSize)
    ensures WellFormed(Step(p, maxSize, op).0, maxSize)
  {
    match op
    case AcquireOp => AcquireKeepsWellFormed(p, maxSize);
    case ReleaseOp(i) => ReleaseKeepsWellFormed(p, maxSize, i);
  }

  /** A lent buffer is granted again only after it came back. */
  lemma {:induction false} LentUntilReturned(p: Pool, maxSize: nat, ops: seq<PoolOp>, b: nat, j: nat) returns (k: nat)
    requires WellFormed(p, maxSize) && b in p.lent
    requires j < |ops| && Events(p, maxSize, ops)[j] == Granted(b)
    ensures k < j && Events(p, maxSize, ops)[k] == Returned(b)
    decreases ops
  {
    var (next, event) := Step(p, maxSize, ops[0]);
    StepKeepsWellFormed(p, maxSize, ops[0]);
    if ops[0].AcquireOp? {
      AcquireKeepsWellFormed(p, maxSize);
    }
    if event == Returned(b) {
      k := 0;
    } else {
      k := LentUntilReturned(next, maxSize, ops[1..], b, j - 1);
      k := k + 1;
    }
  }

  // --- The order in which buffers are granted ---

  function Acquires(n: nat): (ops: seq<PoolOp>)
    ensures |ops| == n
  {
    seq(n, i => AcquireOp)
  }

  /** Free buffers are granted in the order of the queue. */
  lemma {:induction false} GrantedInOrder(p: Pool, maxSize: nat, n: nat, i: nat)
    requires i < n && i < |p.available|
    ensures Events(p, maxSize, Acquires(n))[i] == Granted(p.available[i])
    decreases n
  {
    var next := Step(p, maxSize, AcquireOp).0;
    assert Acquires(n)[1..] == Acquires(n - 1);
    if i > 0 {
      GrantedInOrder(next, maxSize, n - 1, i - 1);
    }
  }

  /** A returned buffer waits until all that were free before it have been granted. */
  lemma ReturnedComesLast(p: Pool, maxSize: nat, b: nat)
    requires b in p.lent
    ensures var ops := [ReleaseOp(b)] + Acquires(|p.available| + 1);
      && Events(p, maxSize, ops)[|p.available| + 1] == Granted(b)
      && forall i :: 0 <= i < |p.available| ==> Events(p, maxSize, ops)[i + 1] == Granted(p.available[i])
  {
    var n := |p.available|;
    var ops := [ReleaseOp(b)] + Acquires(n + 1);
    var next := Step(p, maxSize, ReleaseOp(b)).0;
    assert ops[1..] == Acquires(n + 1);
    GrantedInOrder(next, maxSize, n + 1, n);
    forall i | 0 <= i < n ensures Events(p, maxSize, ops)[i + 1] == Granted(p.available[i]) {
      GrantedInOrder(next, maxSize, n + 1, i);
    }
  }

  /** A new buffer is made only when all are lent and the pool may grow, and it is granted at once. */
  lemma GrowsOnlyWhenAllLent(p: Pool, maxSize: nat)
    requires WellFormed(p, maxSize)
    ensures var (next, r) := AcquireSpec(p, maxSize);
      && (next.count > p.count <==> |p.lent| == p.count < maxSize)
      && (next.count > p.count ==> r == Some(p.count) && next.count == p.count + 1 && next.lent == p.lent + {p.count})
  {
    var all := Below(p.count);
    SubsetSize(p.lent, all);
    if p.available == [] {
      assert p.lent == all;
    } else {
      assert p.available[0] in p.available;
      SubsetSize(p.lent, all - {p.available[0]});
    }
  }

  /** Over every run, between two grants of one buffer there is a return of it. */
  lemma {:induction false} NoBufferLentTwice(p: Pool, maxSize: nat, ops: seq<PoolOp>, b: nat, i: nat, j: nat)
    returns (k: nat)
    requires WellFormed(p, maxSize) && i < j < |ops|
    requires Events(p, maxSize, ops)[i] == Granted(b) && Events(p, maxSize, ops)[j] == Granted(b)
    ensures i < k < j && Events(p, maxSize, ops)[k] == Returned(b)
    decreases ops
  {
    var next := Step(p, maxSize, ops[0]).0;
    StepKeepsWellFormed(p, maxSize, ops[0]);
    if i == 0 {
      k := LentUntilReturned(next, maxSize, ops[1..], b, j - 1);
    } else {
      k := NoBufferLentTwice(next, maxSize, ops[1..], b, i - 1, j - 1);
    }
    k := k + 1;
  }
}
