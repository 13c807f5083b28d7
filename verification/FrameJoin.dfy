/**
 The join of the two vision streams: a bounded cache pairs the YOLO and the MiDaS result of
 a frame by frame id.
 */
module FrameJoin {
  import opened Collections
  import opened Wrappers

  const MAX_CACHE: nat := 30

  /** An image: only its emptiness and its size matter here. */
  datatype Image = NoImage | Image(rows: nat, cols: nat, pixels: seq<int>)

  type Detections = map<int, seq<real>>
  type Features = seq<real>

  datatype FrameData = FrameData(
    frameId: int, original: Image, yoloResult: Image, midasResult: Image, depthMap: Image,
    detections: Detections, yoloState: Features, deepSkel: Features)

  /** The drawing operations of the image library. */
  datatype Drawing = Drawing(yoloOff: Image -> Image, midasOff: Image -> Image, resize: (Image, Image) -> Image)

  /** What the network callback receives. */
  datatype Shown = Shown(yolo: Image, midas: Image, frameId: int)

  /** A result arriving second takes from the cached one what it lacks. */
  function Merge(d: FrameData, cached: FrameData): FrameData {
    var takeYolo := d.yoloResult.NoImage? && !cached.yoloResult.NoImage?;
    var takeMidas := d.midasResult.NoImage? && !cached.midasResult.NoImage?;
    FrameData(
      d.frameId,
      if d.original.NoImage? && !cached.original.NoImage? then cached.original else d.original,
      if takeYolo then cached.yoloResult else d.yoloResult,
      if takeMidas then cached.midasResult else d.midasResult,
      if d.depthMap.NoImage? && !cached.depthMap.NoImage? then cached.depthMap else d.depthMap,
      if takeYolo then cached.detections else d.detections,
      if d.yoloState == [] && cached.yoloState != [] then cached.yoloState else d.yoloState,
      if takeMidas then cached.deepSkel else d.deepSkel)
  }

  predicate SameSize(a: Image, b: Image) {
    match (a, b)
    case (Image(r, c, _), Image(r', c', _)) => r == r' && c == c'
    case (x, y) => x.NoImage? && y.NoImage?
  }

  /** Placeholders for missing results, and the MiDaS image brought to the size of the YOLO image. */
  function Show(draw: Drawing, d: FrameData): Shown {
    var yolo := if d.yoloResult.NoImage? then draw.yoloOff(d.original) else d.yoloResult;
    var midas := if d.midasResult.NoImage? then draw.midasOff(d.original) else d.midasResult;
    Shown(yolo, if SameSize(yolo, midas) then midas else draw.resize(midas, yolo), d.frameId)
  }

  // --- The cache as a function of the arrivals ---

  lemma {:induction false} HasMin(keys: set<int>)
    requires keys != {}
    ensures exists k :: IsMin(keys, k)
  {
    var x := Pick(keys);
    if keys - {x} == {} {
      assert keys == {x};
      assert IsMin(keys, x);
    } else {
      HasMin(keys - {x});
      var y :| IsMin(keys - {x}, y);
      var k := if x < y then x else y;
      assert forall j :: j in keys ==> j == x || j in keys - {x};
      assert IsMin(keys, k);
    }
  }

  ghost predicate IsMin(keys: set<int>, k: int) {
    k in keys && forall j :: j in keys ==> k <= j
  }

  ghost function OldestKey(keys: set<int>): (k: int)
    requires keys != {}
    ensures IsMin(keys, k)
  {
    HasMin(keys);
    var k :| IsMin(keys, k);
    k
  }

  datatype Joined = Joined(cache: map<int, FrameData>, emitted: seq<FrameData>, evicted: nat)

  ghost function Arrive(j: Joined, d: FrameData): Joined {
    if d.frameId in j.cache then
      Joined(j.cache - {d.frameId}, j.emitted + [Merge(d, j.cache[d.frameId])], j.evicted)
    else if |j.cache| >= MAX_CACHE then
      Joined((j.cache - {OldestKey(j.cache.Keys)})[d.frameId := d], j.emitted, j.evicted + 1)
    else
      Joined(j.cache[d.frameId := d], j.emitted, j.evicted)
  }

  /** The two sources of results. */
  datatype Stream = Yolo | Midas
  datatype Arrival = Arrival(stream: Stream, data: FrameData)

  ghost function Run(arrivals: seq<Arrival>): Joined {
    if arrivals == [] then Joined(map[], [], 0)
    else Arrive(Run(arrivals[..|arrivals| - 1]), arrivals[|arrivals| - 1].data)
  }

  // --- The class ---

  class FrameJoiner {
    var frameCache: map<int, FrameData>
    ghost var emitted: seq<FrameData>
    ghost var evicted: nat

    constructor ()
      ensures Abs() == Joined(map[], [], 0)
    {
      frameCache, emitted, evicted := map[], [], 0;
    }

    ghost function Abs(): Joined
      reads this
    {
      Joined(frameCache, emitted, evicted)
    }

    /** Linear search for the smallest frame id. */
    method FindOldest() returns (oldest: int)
      requires frameCache != map[]
      ensures oldest == OldestKey(frameCache.Keys)
    {
      var rest := frameCache.Keys;
      oldest := Choose(rest);
      rest := rest - {oldest};
      while rest != {}
        invariant oldest in frameCache.Keys && rest <= frameCache.Keys
        invariant forall k :: k in frameCache.Keys && k !in rest ==> oldest <= k
        decreases rest
      {
        var k := Choose(rest);
        if k < oldest {
          oldest := k;
        }
        rest := rest - {k};
      }
    }

    /** Fills the missing fields of the arriving result one by one. */
    static method FillMissing(arriving: FrameData, cached: FrameData) returns (frameData: FrameData)
      ensures frameData == Merge(arriving, cached)
    {
      frameData := arriving;
      if frameData.yoloResult.NoImage? && !cached.yoloResult.NoImage? {
        frameData := frameData.(yoloResult := cached.yoloResult);
        frameData := frameData.(detections := cached.detections);
      }
      if frameData.yoloState == [] && cached.yoloState != [] {
        frameData := frameData.(yoloState := cached.yoloState);
      }
      if frameData.midasResult.NoImage? && !cached.midasResult.NoImage? {
        frameData := frameData.(midasResult := cached.midasResult);
        frameData := frameData.(deepSkel := cached.deepSkel);
      }
      if frameData.depthMap.NoImage? && !cached.depthMap.NoImage? {
        frameData := frameData.(depthMap := cached.depthMap);
      }
      if frameData.original.NoImage? && !cached.original.NoImage? {
        frameData := frameData.(original := cached.original);
      }
    }

    method OnFrame(draw: Drawing, arriving: FrameData) returns (shown: Option<Shown>)
      modifies this
      ensures Abs() == Arrive(old(Abs()), arriving)
      ensures shown == if arriving.frameId in old(frameCache)
                       then Some(Show(draw, Merge(arriving, old(frameCache)[arriving.frameId]))) else None
    {
      var frameId := arriving.frameId;
      if frameId !in frameCache {
        if |frameCache| >= MAX_CACHE {
          var oldest := FindOldest();
          frameCache := frameCache - {oldest};
          evicted := evicted + 1;
        }
        frameCache := frameCache[frameId := arriving];
        return None;
      }
      var frameData := FillMissing(arriving, frameCache[frameId]);
      frameCache := frameCache - {frameId};
      emitted := emitted + [frameData];
      var yolo, midas := frameData.yoloResult, frameData.midasResult;
      if yolo.NoImage? {
        yolo := draw.yoloOff(frameData.original);
      }
      if midas.NoImage? {
        midas := draw.midasOff(frameData.original);
      }
      if !SameSize(yolo, midas) {
        midas := draw.resize(midas, yolo);
      }
      return Some(Shown(yolo, midas, frameId));
    }
  }

  // --- Conservation, over every run ---

  /** Every arrival is emitted (two at a time), cached or evicted, and the cache stays bounded. */
  lemma {:induction false} ArrivalsAreConserved(arrivals: seq<Arrival>)
    ensures var j := Run(arrivals);
      |arrivals| == 2 * |j.emitted| + |j.cache| + j.evicted && |j.cache| <= MAX_CACHE
  {
    if arrivals != [] {
      var n := |arrivals| - 1;
      var j, id := Run(arrivals[..n]), arrivals[n].data.frameId;
      ArrivalsAreConserved(arrivals[..n]);
      if id in j.cache {
        RemovedSize(j.cache, id);
      } else if |j.cache| >= MAX_CACHE {
        RemovedSize(j.cache, OldestKey(j.cache.Keys));
      }
    }
  }

  lemma RemovedSize(m: map<int, FrameData>, k: int)
    requires k in m
    ensures |m - {k}| == |m| - 1
  {
    assert m == (m - {k})[k := m[k]];
  }

  // --- Confluence ---

  /** The two workers fill their own fields only. */
  predicate OwnFields(a: Arrival) {
    match a.stream
    case Yolo => a.data.midasResult.NoImage? && a.data.depthMap.NoImage? && a.data.deepSkel == []
    case Midas => a.data.yoloResult.NoImage? && a.data.detections == map[] && a.data.yoloState == []
  }

  /** What they deliver: a picture always, also when the processor is off or fails. */
  predicate Delivered(a: Arrival) {
    && OwnFields(a)
    && (if a.stream == Yolo then a.data.yoloResult.Image? else a.data.midasResult.Image?)
  }

  /** No detections without a YOLO image, no skeleton without a MiDaS image. */
  predicate Regular(a: Arrival) {
    match a.stream
    case Yolo => a.data.yoloResult.NoImage? ==> a.data.detections == map[]
    case Midas => a.data.midasResult.NoImage? ==> a.data.deepSkel == []
  }

  /** Taken alone the merge is independent of the order exactly for regular results; all delivered ones are. */
  lemma MergeCommutes(y: FrameData, m: FrameData)
    requires OwnFields(Arrival(Yolo, y)) && OwnFields(Arrival(Midas, m))
    requires y.frameId == m.frameId && y.original == m.original
    ensures Merge(y, m) == Merge(m, y) <==> Regular(Arrival(Yolo, y)) && Regular(Arrival(Midas, m))
    ensures Delivered(Arrival(Yolo, y)) && Delivered(Arrival(Midas, m)) ==> Merge(y, m) == Merge(m, y)
  {
  }

  /** What is shown would not depend on the order even for results that are not regular. */
  lemma ShowCommutes(draw: Drawing, y: FrameData, m: FrameData)
    requires OwnFields(Arrival(Yolo, y)) && OwnFields(Arrival(Midas, m))
    requires y.frameId == m.frameId && y.original == m.original
    ensures Show(draw, Merge(y, m)) == Show(draw, Merge(m, y))
  {
  }

  /** Each frame id at most once per stream, and one captured frame per id. */
  ghost predicate Legal(arrivals: seq<Arrival>) {
    && (forall i :: 0 <= i < |arrivals| ==> Delivered(arrivals[i]))
    && (forall i, j :: 0 <= i < j < |arrivals| && arrivals[i].data.frameId == arrivals[j].data.frameId ==>
          arrivals[i].stream != arrivals[j].stream && arrivals[i].data.original == arrivals[j].data.original)
  }

  /** e joins a YOLO and a MiDaS result among the arrivals. */
  ghost predicate Joins(arrivals: seq<Arrival>, e: FrameData, y: FrameData, m: FrameData) {
    && Arrival(Yolo, y) in arrivals && Arrival(Midas, m) in arrivals
    && y.frameId == m.frameId == e.frameId
    && (e == Merge(y, m) || e == Merge(m, y))
  }

  ghost predicate HasId(frames: seq<FrameData>, id: int) {
    exists k :: 0 <= k < |frames| && frames[k].frameId == id
  }

  /** The only arrival with its id so far. */
  ghost predicate Alone(arrivals: seq<Arrival>, s: Stream, d: FrameData) {
    && Arrival(s, d) in arrivals
    && forall a :: a in arrivals && a.data.frameId == d.frameId ==> a == Arrival(s, d)
  }

  ghost predicate CacheHoldsTheUnpaired(arrivals: seq<Arrival>, cache: map<int, FrameData>) {
    forall id :: id in cache ==> cache[id].frameId == id && exists s :: Alone(arrivals, s, cache[id])
  }

  ghost predicate NothingIsLost(arrivals: seq<Arrival>, j: Joined) {
    forall a :: a in arrivals ==> a.data.frameId in j.cache || HasId(j.emitted, a.data.frameId)
  }

  ghost predicate EmitsPairs(arrivals: seq<Arrival>, emitted: seq<FrameData>) {
    forall k :: 0 <= k < |emitted| ==> IsPair(arrivals, emitted[k])
  }

  ghost predicate IsPair(arrivals: seq<Arrival>, e: FrameData) {
    exists y, m :: Joins(arrivals, e, y, m)
  }

  ghost predicate DistinctIds(frames: seq<FrameData>) {
    forall k, l :: 0 <= k < l < |frames| ==> frames[k].frameId != frames[l].frameId
  }

  ghost predicate JoinInvariant(arrivals: seq<Arrival>, j: Joined) {
    && CacheHoldsTheUnpaired(arrivals, j.cache) && NothingIsLost(arrivals, j)
    && EmitsPairs(arrivals, j.emitted) && DistinctIds(j.emitted)
  }

  /** A cached frame has not been emitted. */
  lemma CachedIsNotEmitted(arrivals: seq<Arrival>, j: Joined, id: int)
    requires JoinInvariant(arrivals, j) && id in j.cache
    ensures !HasId(j.emitted, id)
  {
    var s :| Alone(arrivals, s, j.cache[id]);
    forall k | 0 <= k < |j.emitted| ensures j.emitted[k].frameId != id {
      assert IsPair(arrivals, j.emitted[k]);
      var y, m :| Joins(arrivals, j.emitted[k], y, m);
    }
  }

  /** An id that already came in both streams does not come again. */
  lemma EmittedIsComplete(arrivals: seq<Arrival>, n: nat, emitted: seq<FrameData>)
    requires Legal(arrivals) && n < |arrivals| && EmitsPairs(arrivals[..n], emitted)
    ensures !HasId(emitted, arrivals[n].data.frameId)
  {
    var x := arrivals[n];
    forall k | 0 <= k < |emitted| ensures emitted[k].frameId != x.data.frameId {
      assert IsPair(arrivals[..n], emitted[k]);
      var y, m :| Joins(arrivals[..n], emitted[k], y, m);
      var other := if x.stream == Yolo then Arrival(Yolo, y) else Arrival(Midas, m);
      var i :| 0 <= i < n && arrivals[i] == other;
    }
  }

  lemma PairsPersist(arrivals: seq<Arrival>, n: nat, emitted: seq<FrameData>)
    requires n <= |arrivals| && EmitsPairs(arrivals[..n], emitted)
    ensures EmitsPairs(arrivals, emitted)
  {
    forall k | 0 <= k < |emitted| ensures IsPair(arrivals, emitted[k]) {
      assert IsPair(arrivals[..n], emitted[k]);
      var y, m :| Joins(arrivals[..n], emitted[k], y, m);
      assert Joins(arrivals, emitted[k], y, m);
    }
  }

  lemma OthersStayAlone(arrivals: seq<Arrival>, cache: map<int, FrameData>)
    requires arrivals != [] && arrivals[|arrivals| - 1].data.frameId !in cache
    requires CacheHoldsTheUnpaired(arrivals[..|arrivals| - 1], cache)
    ensures CacheHoldsTheUnpaired(arrivals, cache)
  {
    var n := |arrivals| - 1;
    assert arrivals == arrivals[..n] + [arrivals[n]];
    forall id | id in cache ensures exists s :: Alone(arrivals, s, cache[id]) {
      var s :| Alone(arrivals[..n], s, cache[id]);
      assert Alone(arrivals, s, cache[id]);
    }
  }

  lemma SecondArrivalPairs(arrivals: seq<Arrival>, cache: map<int, FrameData>)
    requires arrivals != [] && Legal(arrivals) && CacheHoldsTheUnpaired(arrivals[..|arrivals| - 1], cache)
    requires arrivals[|arrivals| - 1].data.frameId in cache
    ensures var d := arrivals[|arrivals| - 1].data; IsPair(arrivals, Merge(d, cache[d.frameId]))
  {
    var n := |arrivals| - 1;
    var x := arrivals[n];
    var cached := cache[x.data.frameId];
    var s :| Alone(arrivals[..n], s, cached);
    var i :| 0 <= i < n && arrivals[i] == Arrival(s, cached);
    var y, m := if x.stream == Yolo then x.data else cached, if x.stream == Yolo then cached else x.data;
    assert x in arrivals && arrivals[i] in arrivals;
    assert Joins(arrivals, Merge(x.data, cached), y, m);
  }

  /** Second arrival of an id: it is emitted with its partner. */
  lemma PairingStep(arrivals: seq<Arrival>, j: Joined)
    requires arrivals != [] && Legal(arrivals) && JoinInvariant(arrivals[..|arrivals| - 1], j)
    requires arrivals[|arrivals| - 1].data.frameId in j.cache
    ensures JoinInvariant(arrivals, Arrive(j, arrivals[|arrivals| - 1].data))
  {
    var n := |arrivals| - 1;
    var x := arrivals[n];
    var id := x.data.frameId;
    var merged := Merge(x.data, j.cache[id]);
    assert EmitsPairs(arrivals, j.emitted + [merged]) by {
      SecondArrivalPairs(arrivals, j.cache);
      PairsPersist(arrivals, n, j.emitted);
    }
    assert CacheHoldsTheUnpaired(arrivals, j.cache - {id}) by {
      OthersStayAlone(arrivals, j.cache - {id});
    }
    assert DistinctIds(j.emitted + [merged]) by {
      CachedIsNotEmitted(arrivals[..n], j, id);
    }
    assert NothingIsLost(arrivals, Arrive(j, x.data)) by {
      EmittedIdsGrow(j.emitted, merged);
      SplitLast(arrivals);
    }
    hide CacheHoldsTheUnpaired, EmitsPairs, DistinctIds, NothingIsLost;
  }

  lemma SplitLast(arrivals: seq<Arrival>)
    requires arrivals != []
    ensures forall a :: a in arrivals <==> a in arrivals[..|arrivals| - 1] || a == arrivals[|arrivals| - 1]
  {
    assert arrivals == arrivals[..|arrivals| - 1] + [arrivals[|arrivals| - 1]];
  }

  lemma EmittedIdsGrow(emitted: seq<FrameData>, e: FrameData)
    ensures forall id :: HasId(emitted, id) || id == e.frameId ==> HasId(emitted + [e], id)
  {
    forall id | HasId(emitted, id) || id == e.frameId ensures HasId(emitted + [e], id) {
      if id == e.frameId {
        assert (emitted + [e])[|emitted|].frameId == id;
      } else {
        var k :| 0 <= k < |emitted| && emitted[k].frameId == id;
        assert (emitted + [e])[k].frameId == id;
      }
    }
  }

  /** First arrival of an id: it waits in the cache. */
  lemma WaitingStep(arrivals: seq<Arrival>, j: Joined)
    requires arrivals != [] && Legal(arrivals) && JoinInvariant(arrivals[..|arrivals| - 1], j)
    requires arrivals[|arrivals| - 1].data.frameId !in j.cache && |j.cache| < MAX_CACHE
    ensures JoinInvariant(arrivals, Arrive(j, arrivals[|arrivals| - 1].data))
  {
    var n := |arrivals| - 1;
    var x := arrivals[n];
    assert arrivals == arrivals[..n] + [x];
    EmittedIsComplete(arrivals, n, j.emitted);
    OthersStayAlone(arrivals, j.cache);
    PairsPersist(arrivals, n, j.emitted);
    assert Alone(arrivals, x.stream, x.data);
  }

  lemma {:induction false} JoinInvariantHolds(arrivals: seq<Arrival>)
    requires Legal(arrivals) && Run(arrivals).evicted == 0
    ensures JoinInvariant(arrivals, Run(arrivals))
    decreases |arrivals|
  {
    if arrivals != [] {
      var n := |arrivals| - 1;
      var j := Run(arrivals[..n]);
      JoinInvariantHolds(arrivals[..n]);
      if arrivals[n].data.frameId in j.cache {
        PairingStep(arrivals, j);
      } else {
        WaitingStep(arrivals, j);
      }
    }
  }

  // --- Runs with evictions ---

  ghost predicate Arrived(arrivals: seq<Arrival>, d: FrameData) {
    exists s :: Arrival(s, d) in arrivals
  }

  /** Cached results have arrived, and no frame of theirs was emitted. */
  ghost predicate CacheWaits(arrivals: seq<Arrival>, j: Joined) {
    forall id :: id in j.cache ==>
      j.cache[id].frameId == id && Arrived(arrivals, j.cache[id]) && !HasId(j.emitted, id)
  }

  ghost predicate PairsInvariant(arrivals: seq<Arrival>, j: Joined) {
    CacheWaits(arrivals, j) && EmitsPairs(arrivals, j.emitted) && DistinctIds(j.emitted)
  }

  /** The result that arrives and the cached one come from different streams. */
  lemma ArrivalPairs(arrivals: seq<Arrival>, cached: FrameData)
    requires arrivals != [] && Legal(arrivals) && Arrived(arrivals[..|arrivals| - 1], cached)
    requires cached.frameId == arrivals[|arrivals| - 1].data.frameId
    ensures IsPair(arrivals, Merge(arrivals[|arrivals| - 1].data, cached))
  {
    var n := |arrivals| - 1;
    var x := arrivals[n];
    var s :| Arrival(s, cached) in arrivals[..n];
    var i :| 0 <= i < n && arrivals[i] == Arrival(s, cached);
    var y, m := if x.stream == Yolo then x.data else cached, if x.stream == Yolo then cached else x.data;
    assert x in arrivals && arrivals[i] in arrivals;
    assert Joins(arrivals, Merge(x.data, cached), y, m);
  }

  lemma CacheWaitsOn(arrivals: seq<Arrival>, j: Joined, next: Joined)
    requires arrivals != [] && CacheWaits(arrivals[..|arrivals| - 1], j)
    requires var x := arrivals[|arrivals| - 1].data;
      && (forall id :: id in next.cache ==>
            || (id in j.cache && next.cache[id] == j.cache[id] && (HasId(next.emitted, id) ==> HasId(j.emitted, id)))
            || (id == x.frameId && next.cache[id] == x && !HasId(next.emitted, id)))
    ensures CacheWaits(arrivals, next)
  {
    SplitLast(arrivals);
    forall id | id in next.cache ensures Arrived(arrivals, next.cache[id]) {
      if id in j.cache && next.cache[id] == j.cache[id] && !HasId(next.emitted, id) {
        var s :| Arrival(s, j.cache[id]) in arrivals[..|arrivals| - 1];
        assert Arrival(s, j.cache[id]) in arrivals;
      } else {
        var x := arrivals[|arrivals| - 1];
        assert Arrival(x.stream, x.data) in arrivals;
      }
    }
  }

  lemma ArriveKeepsPairs(arrivals: seq<Arrival>, j: Joined)
    requires arrivals != [] && Legal(arrivals) && PairsInvariant(arrivals[..|arrivals| - 1], j)
    ensures PairsInvariant(arrivals, Arrive(j, arrivals[|arrivals| - 1].data))
  {
    var n := |arrivals| - 1;
    var x := arrivals[n].data;
    var next := Arrive(j, x);
    PairsPersist(arrivals, n, j.emitted);
    EmittedIsComplete(arrivals, n, j.emitted);
    if x.frameId in j.cache {
      ArrivalPairs(arrivals, j.cache[x.frameId]);
    }
    hide Legal, IsPair, Arrived, Merge;
    CacheWaitsOn(arrivals, j, next);
  }

  /** Over every legal run, also with evictions: what is emitted joins two results of one id, and no id twice. */
  lemma {:induction false} EmittedArePairs(arrivals: seq<Arrival>)
    requires Legal(arrivals)
    ensures PairsInvariant(arrivals, Run(arrivals))
    decreases |arrivals|
  {
    if arrivals != [] {
      var n := |arrivals| - 1;
      EmittedArePairs(arrivals[..n]);
      ArriveKeepsPairs(arrivals, Run(arrivals[..n]));
      hide PairsInvariant, Arrive;
    }
  }

  /** An arrival of a legal sequence is determined by its stream and id. */
  lemma OnePerStream(arrivals: seq<Arrival>, a: Arrival, b: Arrival)
    requires Legal(arrivals) && a in arrivals && b in arrivals
    requires a.stream == b.stream && a.data.frameId == b.data.frameId
    ensures a == b
  {
    var i :| 0 <= i < |arrivals| && arrivals[i] == a;
    var k :| 0 <= k < |arrivals| && arrivals[k] == b;
  }

  lemma TwoStreamsOneFrame(arrivals: seq<Arrival>, y: FrameData, m: FrameData)
    requires Legal(arrivals) && Arrival(Yolo, y) in arrivals && Arrival(Midas, m) in arrivals && y.frameId == m.frameId
    ensures y.original == m.original && Delivered(Arrival(Yolo, y)) && Delivered(Arrival(Midas, m))
  {
    var i :| 0 <= i < |arrivals| && arrivals[i] == Arrival(Yolo, y);
    var k :| 0 <= k < |arrivals| && arrivals[k] == Arrival(Midas, m);
  }

  lemma PairedIsNotCached(arrivals: seq<Arrival>, cache: map<int, FrameData>, y: FrameData, m: FrameData)
    requires CacheHoldsTheUnpaired(arrivals, cache) && y.frameId == m.frameId
    requires Arrival(Yolo, y) in arrivals && Arrival(Midas, m) in arrivals
    ensures y.frameId !in cache
  {
  }

  /** Both results of an id have arrived, so their merge has been emitted. */
  lemma PairIsEmitted(arrivals: seq<Arrival>, j: Joined, y: FrameData, m: FrameData)
    requires Legal(arrivals) && JoinInvariant(arrivals, j) && y.frameId == m.frameId
    requires Arrival(Yolo, y) in arrivals && Arrival(Midas, m) in arrivals
    ensures Merge(y, m) in j.emitted && Merge(m, y) in j.emitted
  {
    PairedIsNotCached(arrivals, j.cache, y, m);
    var k :| 0 <= k < |j.emitted| && j.emitted[k].frameId == y.frameId;
    assert IsPair(arrivals, j.emitted[k]);
    var y', m' :| Joins(arrivals, j.emitted[k], y', m');
    OnePerStream(arrivals, Arrival(Yolo, y), Arrival(Yolo, y'));
    OnePerStream(arrivals, Arrival(Midas, m), Arrival(Midas, m'));
    TwoStreamsOneFrame(arrivals, y, m);
    MergeCommutes(y, m);
    hide Legal, JoinInvariant, Merge;
  }

  lemma SameMembers<T>(a: seq<T>, b: seq<T>)
    requires multiset(a) == multiset(b)
    ensures forall x :: x in a <==> x in b
  {
    forall x ensures x in a <==> x in b {
      assert x in a <==> x in multiset(a);
      assert x in b <==> x in multiset(b);
    }
  }

  // --- What is emitted and shown ---

  /** The YOLO part of one result and the MiDaS part of the other. */
  function Together(y: FrameData, m: FrameData): FrameData {
    FrameData(y.frameId, y.original, y.yoloResult, m.midasResult, m.depthMap, y.detections, y.yoloState, m.deepSkel)
  }

  lemma MergeIsTogether(y: FrameData, m: FrameData)
    requires Delivered(Arrival(Yolo, y)) && Delivered(Arrival(Midas, m))
    requires y.frameId == m.frameId && y.original == m.original
    ensures Merge(y, m) == Merge(m, y) == Together(y, m)
  {
  }

  /** Over every legal run, evictions included, an emitted frame has everything of its two results. */
  lemma EmittedIsTogether(arrivals: seq<Arrival>, e: FrameData) returns (y: FrameData, m: FrameData)
    requires Legal(arrivals) && e in Run(arrivals).emitted
    ensures Arrival(Yolo, y) in arrivals && Arrival(Midas, m) in arrivals && y.frameId == m.frameId
    ensures e == FrameData(y.frameId, y.original, y.yoloResult, m.midasResult, m.depthMap, y.detections, y.yoloState,
                           m.deepSkel)
  {
    EmittedArePairs(arrivals);
    assert IsPair(arrivals, e);
    y, m :| Joins(arrivals, e, y, m);
    TwoStreamsOneFrame(arrivals, y, m);
    MergeIsTogether(y, m);
  }

  /** The callback gets the YOLO picture, the MiDaS picture brought to its size, and the id. */
  lemma ShownExactly(draw: Drawing, arrivals: seq<Arrival>, e: FrameData) returns (y: FrameData, m: FrameData)
    requires Legal(arrivals) && e in Run(arrivals).emitted
    ensures Arrival(Yolo, y) in arrivals && Arrival(Midas, m) in arrivals && y.frameId == m.frameId
    ensures y.yoloResult.Image? && m.midasResult.Image?
    ensures var fits := y.yoloResult.rows == m.midasResult.rows && y.yoloResult.cols == m.midasResult.cols;
      Show(draw, e) ==
        Shown(y.yoloResult, if fits then m.midasResult else draw.resize(m.midasResult, y.yoloResult), y.frameId)
  {
    y, m := EmittedIsTogether(arrivals, e);
    TwoStreamsOneFrame(arrivals, y, m);
  }

  /** A frame is evicted only from a cache of 30, and it is the one with the smallest id. */
  lemma EvictsOldestWhenFull(j: Joined, d: FrameData)
    ensures var next := Arrive(j, d);
      && (next.evicted != j.evicted <==> d.frameId !in j.cache && |j.cache| >= 30)
      && (d.frameId !in j.cache ==> d.frameId in next.cache && next.cache[d.frameId] == d && next.emitted == j.emitted)
      && forall gone :: gone in j.cache && gone !in next.cache ==>
           gone == d.frameId || (|j.cache| >= 30 && forall id :: id in j.cache ==> gone <= id)
  {
  }

  /** If anything was evicted, 30 frames were waiting at some time before. */
  lemma {:induction false} EvictionNeedsFullCache(arrivals: seq<Arrival>) returns (n: nat)
    requires Run(arrivals).evicted > 0
    ensures n < |arrivals| && |Run(arrivals[..n]).cache| == 30
    decreases |arrivals|
  {
    var l := |arrivals| - 1;
    var j := Run(arrivals[..l]);
    if j.evicted > 0 {
      n := EvictionNeedsFullCache(arrivals[..l]);
      assert arrivals[..l][..n] == arrivals[..n];
    } else {
      n := l;
      EvictsOldestWhenFull(j, arrivals[l].data);
      ArrivalsAreConserved(arrivals[..l]);
    }
  }

  /** What one order emits, every order emits. */
  lemma EmittedInOtherOrder(a: seq<Arrival>, b: seq<Arrival>, e: FrameData)
    requires Legal(a) && Legal(b) && multiset(a) == multiset(b)
    requires Run(a).evicted == 0 && Run(b).evicted == 0
    requires e in Run(a).emitted
    ensures e in Run(b).emitted
  {
    hide Legal, JoinInvariant, Merge, Run;
    JoinInvariantHolds(a);
    JoinInvariantHolds(b);
    SameMembers(a, b);
    var y, m := PairOf(a, Run(a), e);
    PairIsEmitted(b, Run(b), y, m);
  }

  lemma PairOf(arrivals: seq<Arrival>, j: Joined, e: FrameData) returns (y: FrameData, m: FrameData)
    requires JoinInvariant(arrivals, j) && e in j.emitted
    ensures Joins(arrivals, e, y, m)
  {
    assert IsPair(arrivals, e);
    y, m :| Joins(arrivals, e, y, m);
  }

  /** Two arrival orders of the same results emit the same merged frames, each once. */
  lemma JoinIsConfluent(a: seq<Arrival>, b: seq<Arrival>)
    requires Legal(a) && Legal(b) && multiset(a) == multiset(b)
    requires Run(a).evicted == 0 && Run(b).evicted == 0
    ensures multiset(Run(a).emitted) == multiset(Run(b).emitted)
    ensures DistinctIds(Run(a).emitted)
  {
    JoinInvariantHolds(a);
    JoinInvariantHolds(b);
    forall e: FrameData ensures multiset(Run(a).emitted)[e] == multiset(Run(b).emitted)[e] {
      if e in Run(a).emitted {
        EmittedInOtherOrder(a, b, e);
      }
      if e in Run(b).emitted {
        EmittedInOtherOrder(b, a, e);
      }
      CountOfDistinct(Run(a).emitted, e);
      CountOfDistinct(Run(b).emitted, e);
    }
  }

  lemma {:induction false} CountOfDistinct(frames: seq<FrameData>, e: FrameData)
    requires DistinctIds(frames)
    ensures multiset(frames)[e] == if e in frames then 1 else 0
  {
    if frames != [] {
      CountOfDistinct(frames[1..], e);
      assert frames == [frames[0]] + frames[1..];
    }
  }

  /** What the callback is given for a list of merged frames. */
  function ShowAll(draw: Drawing, frames: seq<FrameData>): seq<Shown> {
    if frames == [] then [] else [Show(draw, frames[0])] + ShowAll(draw, frames[1..])
  }

  lemma {:induction false} ShowAllOfConcat(draw: Drawing, a: seq<FrameData>, b: seq<FrameData>)
    ensures ShowAll(draw, a + b) == ShowAll(draw, a) + ShowAll(draw, b)
    decreases |a|
  {
    if a == [] {
      assert a + b == b;
    } else {
      assert (a + b)[0] == a[0] && (a + b)[1..] == a[1..] + b;
      ShowAllOfConcat(draw, a[1..], b);
    }
  }

  lemma WithoutOne<T>(s: seq<T>, k: nat)
    requires k < |s|
    ensures multiset(s[..k] + s[k + 1..]) == multiset(s) - multiset{s[k]}
  {
    assert s == s[..k] + [s[k]] + s[k + 1..];
  }

  lemma TailWithoutHead<T>(s: seq<T>)
    requires s != []
    ensures multiset(s[1..]) == multiset(s) - multiset{s[0]}
  {
    WithoutOne(s, 0);
    assert s[..0] + s[1..] == s[1..];
  }

  lemma IndexOf<T>(s: seq<T>, x: T) returns (k: nat)
    requires x in multiset(s)
    ensures k < |s| && s[k] == x
  {
    assert x in s;
    k :| 0 <= k < |s| && s[k] == x;
  }

  lemma RemoveOne<T>(a: seq<T>, b: seq<T>) returns (k: nat)
    requires multiset(a) == multiset(b) && a != []
    ensures k < |b| && b[k] == a[0] && multiset(b[..k] + b[k + 1..]) == multiset(a[1..])
  {
    assert a[0] in multiset(a);
    k := IndexOf(b, a[0]);
    TailWithoutHead(a);
    WithoutOne(b, k);
  }

  lemma {:induction false} ShowAllPermutes(draw: Drawing, a: seq<FrameData>, b: seq<FrameData>)
    requires multiset(a) == multiset(b)
    ensures multiset(ShowAll(draw, a)) == multiset(ShowAll(draw, b))
    decreases |a|
  {
    hide Show;
    if a == [] {
      assert |b| == |multiset(b)| == 0;
    } else {
      var k := RemoveOne(a, b);
      ShowAllPermutes(draw, a[1..], b[..k] + b[k + 1..]);
      ShowAllSplits(draw, b, k);
    }
  }

  lemma ShowAllSplits(draw: Drawing, b: seq<FrameData>, k: nat)
    requires k < |b|
    ensures multiset(ShowAll(draw, b)) == multiset{Show(draw, b[k])} + multiset(ShowAll(draw, b[..k] + b[k + 1..]))
  {
    hide Show;
    var head, mid, tail := b[..k], [b[k]], b[k + 1..];
    assert b == head + (mid + tail);
    ShowAllOfConcat(draw, head, mid + tail);
    ShowAllOfConcat(draw, mid, tail);
    ShowAllOfConcat(draw, head, tail);
    assert ShowAll(draw, mid) == [Show(draw, b[k])];
  }

  /** Every arrival order calls the callback with the same pictures, equally often. */
  lemma PicturesAreConfluent(draw: Drawing, a: seq<Arrival>, b: seq<Arrival>)
    requires Legal(a) && Legal(b) && multiset(a) == multiset(b)
    requires Run(a).evicted == 0 && Run(b).evicted == 0
    ensures multiset(ShowAll(draw, Run(a).emitted)) == multiset(ShowAll(draw, Run(b).emitted))
  {
    JoinIsConfluent(a, b);
    ShowAllPermutes(draw, Run(a).emitted, Run(b).emitted);
  }
}
