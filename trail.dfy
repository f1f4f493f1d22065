/**
 * trail.go: a scrolling timeline of spans. A span is a note (or drum hit,
 * or layer) on one lane, from its start to its end. Spans are kept in
 * buckets by the interval of `bucketSize` their start falls in; each bucket
 * is drawn once into a cached image and redrawn only when invalidated.
 */
module Trail {
  import opened Prelude

  /** Number of colours in the span palette; larger instrument ids wrap around. */
  const PaletteSize := 7

  /** The overlap, beyond touching, that two spans need to share a lane visually. */
  const VisualSlack: Duration := 10 * Millisecond

  /** The grid steps a new trail starts with. */
  const DefaultGridSteps := 4

  /**
   * The identity of a *Span: spans live in an append-only arena, and buckets
   * and the active list hold indices into it, so that a change made through
   * one of them (Stop shortening a span) is seen through the others.
   */
  type SpanRef = nat

  datatype Span = Span(id: int, pos: int, start: Time, end: Time)
  {
    /** The span meets the closed interval [from, to]. */
    predicate InRange(from: Time, to: Time)
    {
      !(end < from) && !(start > to)
    }

    /**
     * The span overlaps [from, to] by more than a sliver: its end is at least
     * VisualSlack after `from` and its start at least VisualSlack before `to`.
     */
    predicate InVisualRange(from: Time, to: Time)
      ensures InVisualRange(from, to) ==> InRange(from, to)
    {
      !(end < from + VisualSlack) && !(start > to - VisualSlack)
    }
  }

  datatype SpanBucket = SpanBucket(start: Time, end: Time, spans: seq<SpanRef>)
  {
    /** The bucket's interval [start, end] meets [from, to]. */
    predicate InRange(from: Time, to: Time)
    {
      !(end < from) && !(start > to)
    }
  }

  /** The id a span is stored under: ids beyond the palette wrap around it. */
  function StoredId(id: int): (r: int)
    ensures id < PaletteSize ==> r == id
    ensures id >= PaletteSize ==> 0 <= r < PaletteSize && (id - r) % PaletteSize == 0
  {
    if id >= PaletteSize then id % PaletteSize else id
  }

  ghost predicate RefsIn(refs: seq<SpanRef>, size: nat)
  {
    forall k :: 0 <= k < |refs| ==> refs[k] < size
  }

  /** The spans a list of references currently denotes. */
  function Deref(arena: seq<Span>, refs: seq<SpanRef>): (r: seq<Span>)
    requires RefsIn(refs, |arena|)
    ensures |r| == |refs|
    ensures forall k :: 0 <= k < |refs| ==> r[k] == arena[refs[k]]
  {
    seq(|refs|, k requires 0 <= k < |refs| => arena[refs[k]])
  }

  /**
   * The value SpanBucket.UpdateEnd leaves in the bucket's end: the latest end
   * among the spans, or the zero time when none ends after it.
   */
  function LatestEnd(spans: seq<Span>): (latest: Time)
    ensures latest >= ZeroTime
    ensures forall k :: 0 <= k < |spans| ==> spans[k].end <= latest
    ensures latest == ZeroTime || exists k :: 0 <= k < |spans| && spans[k].end == latest
  {
    if spans == [] then ZeroTime
    else Max(LatestEnd(spans[..|spans| - 1]), spans[|spans| - 1].end)
  }

  /** SpanBucket.UpdateEnd: a running maximum over the bucket's spans, from the zero time. */
  method UpdateEnd(bucket: SpanBucket, arena: seq<Span>) returns (updated: SpanBucket)
    requires RefsIn(bucket.spans, |arena|)
    ensures updated == bucket.(end := LatestEnd(Deref(arena, bucket.spans)))
  {
    ghost var spans := Deref(arena, bucket.spans);
    var latest := ZeroTime;
    var i := 0;
    while i < |bucket.spans|
      invariant 0 <= i <= |bucket.spans|
      invariant latest == LatestEnd(spans[..i])
    {
      var span := arena[bucket.spans[i]];
      assert spans[..i + 1][..i] == spans[..i];
      if span.end > latest {
        latest := span.end;
      }
      i := i + 1;
    }
    assert spans[..|bucket.spans|] == spans;
    updated := bucket.(end := latest);
  }

  /** The condition SpanBucket.Validate rejects: a span starting outside the bucket, or ending before it. */
  predicate OutOfBucket(bucket: SpanBucket, span: Span)
  {
    span.start < bucket.start || span.start > bucket.end || span.end < bucket.start
  }

  /**
   * SpanBucket.Validate over the bucket's spans: the first span out of the
   * bucket, or None when every span lies within it.
   */
  function Validate(bucket: SpanBucket, spans: seq<Span>): (err: Option<Span>)
    ensures err.None? <==> forall k :: 0 <= k < |spans| ==> !OutOfBucket(bucket, spans[k])
    ensures err.Some? ==>
      exists k :: 0 <= k < |spans| && spans[k] == err.value && OutOfBucket(bucket, spans[k]) &&
        (forall m :: 0 <= m < k ==> !OutOfBucket(bucket, spans[m]))
  {
    if spans == [] then None
    else if OutOfBucket(bucket, spans[0]) then Some(spans[0])
    else
      var rest := Validate(bucket, spans[1..]);
      assert forall k :: 1 <= k < |spans| ==> spans[k] == spans[1..][k - 1];
      rest
  }

  /** The position range a trail shows, and whether reaching it invalidated every image. */
  datatype Extent = Extent(minPos: int, maxPos: int, reset: bool)

  /**
   * How Trail.Span adjusts the position range for a span at `pos`: the first
   * span of an empty trail fixes the range at `pos`; a position outside the
   * range widens the one bound it passes. Any change resets all images.
   */
  function NewExtent(noBuckets: bool, minPos: int, maxPos: int, pos: int): (e: Extent)
    ensures e.reset <==> noBuckets || pos < minPos || maxPos < pos
    ensures noBuckets ==> e.minPos == pos && e.maxPos == pos
    ensures !noBuckets && minPos <= maxPos ==>
      e.minPos == Min(minPos, pos) && e.maxPos == Max(maxPos, pos)
    ensures minPos <= maxPos || noBuckets ==> e.minPos <= pos <= e.maxPos
  {
    if noBuckets then Extent(pos, pos, true)
    else if pos < minPos then Extent(pos, maxPos, true)
    else if pos > maxPos then Extent(minPos, pos, true)
    else Extent(minPos, maxPos, false)
  }

  // ---------------------------------------------------------------------
  // Sub-lanes: spans on the same lane that visibly overlap share its width.
  // ---------------------------------------------------------------------

  /** One span as getCached hands it to drawSpan: its slice `subindex` of `subindices`. */
  datatype SpanDraw = SpanDraw(span: Span, subindex: int, subindices: int)

  /** `b` is a visual overlap partner of `a`: same lane, overlapping by more than the slack. */
  predicate Partners(a: Span, b: Span)
  {
    a.pos == b.pos && a.InVisualRange(b.start, b.end)
  }

  /** Some other span of the list is a partner of span `i`. */
  ghost predicate Overlapped(spans: seq<Span>, i: int)
    requires 0 <= i < |spans|
  {
    exists k :: 0 <= k < |spans| && k != i && Partners(spans[i], spans[k])
  }

  /** The ids of overlapped spans on lane `pos` among the first `n` spans. */
  ghost function IdsUpTo(spans: seq<Span>, n: nat, pos: int): set<int>
    requires n <= |spans|
  {
    set k | 0 <= k < n && spans[k].pos == pos && Overlapped(spans, k) :: spans[k].id
  }

  /** The overlapped spans among the first `n`. */
  ghost function OverlappedUpTo(spans: seq<Span>, n: nat): set<nat>
    requires n <= |spans|
  {
    set k | 0 <= k < n && Overlapped(spans, k)
  }

  lemma OverlappedUpToStep(spans: seq<Span>, n: nat)
    requires n < |spans|
    ensures OverlappedUpTo(spans, n + 1) == OverlappedUpTo(spans, n) + (if Overlapped(spans, n) then {n} else {})
  {
  }

  /** The ids that share lane `pos`: those of its overlapped spans. */
  ghost function OverlapIds(spans: seq<Span>, pos: int): set<int>
  {
    IdsUpTo(spans, |spans|, pos)
  }

  /** The number of members of `ids` below `x`: x's place in ascending order. */
  ghost function Rank(x: int, ids: set<int>): nat
  {
    |set y | y in ids && y < x|
  }

  /**
   * The sub-lane layout getCached draws: a span with no partner takes the
   * whole lane; an overlapped span takes the slice given by its id's rank
   * among the lane's overlapped ids, out of as many slices as there are ids.
   */
  ghost function Layout(spans: seq<Span>): (r: seq<SpanDraw>)
    ensures |r| == |spans|
  {
    seq(|spans|, i requires 0 <= i < |spans| => LayoutAt(spans, i))
  }

  /** How span `i` is drawn: its rank among the overlapped ids of its lane, or alone. */
  ghost function LayoutAt(spans: seq<Span>, i: nat): SpanDraw
    requires i < |spans|
  {
    if Overlapped(spans, i) then
      SpanDraw(spans[i], Rank(spans[i].id, OverlapIds(spans, spans[i].pos)), |OverlapIds(spans, spans[i].pos)|)
    else
      SpanDraw(spans[i], 0, 1)
  }

  /** The indices of the spans on lane `pos` among the first `n`, in order. */
  ghost function Lane(spans: seq<Span>, n: nat, pos: int): seq<nat>
    requires n <= |spans|
  {
    if n == 0 then []
    else Lane(spans, n - 1, pos) + (if spans[n - 1].pos == pos then [n - 1] else [])
  }

  /** A lane lists exactly the indices of the spans on it. */
  lemma {:induction false} LaneMembers(spans: seq<Span>, n: nat, pos: int)
    requires n <= |spans|
    ensures forall m :: 0 <= m < |Lane(spans, n, pos)| ==> Lane(spans, n, pos)[m] < n
    ensures forall k :: k in Lane(spans, n, pos) <==> 0 <= k < n && spans[k].pos == pos
  {
    if n > 0 {
      LaneMembers(spans, n - 1, pos);
    }
  }

  /** The byPos grouping of getCached: each lane's spans, in order. */
  method GroupByPos(spans: seq<Span>) returns (byPos: map<int, seq<nat>>)
    ensures forall k :: 0 <= k < |spans| ==> spans[k].pos in byPos
    ensures forall p :: p in byPos ==> byPos[p] == Lane(spans, |spans|, p)
  {
    byPos := map[];
    var i := 0;
    while i < |spans|
      invariant 0 <= i <= |spans|
      invariant forall k :: 0 <= k < i ==> spans[k].pos in byPos
      invariant forall p :: p in byPos ==> byPos[p] == Lane(spans, i, p)
      invariant forall p :: p !in byPos ==> Lane(spans, i, p) == []
    {
      var pos := spans[i].pos;
      var lane := if pos in byPos then byPos[pos] else [];
      byPos := byPos[pos := lane + [i]];
      assert forall p :: Lane(spans, i + 1, p) == Lane(spans, i, p) + (if spans[i].pos == p then [i] else []);
      i := i + 1;
    }
  }

  lemma IdsUpToStep(spans: seq<Span>, n: nat, pos: int)
    requires n < |spans|
    ensures IdsUpTo(spans, n + 1, pos) ==
      IdsUpTo(spans, n, pos) + (if spans[n].pos == pos && Overlapped(spans, n) then {spans[n].id} else {})
  {
  }

  /** The inner loop of getCached's overlap pass: does any other span of the lane overlap span `i`? */
  method HasPartner(spans: seq<Span>, i: nat, lane: seq<nat>) returns (found: bool)
    requires i < |spans|
    requires lane == Lane(spans, |spans|, spans[i].pos)
    ensures found <==> Overlapped(spans, i)
  {
    LaneMembers(spans, |spans|, spans[i].pos);
    var span := spans[i];
    found := false;
    var j := 0;
    while j < |lane| && !found
      invariant 0 <= j <= |lane|
      invariant found <==> exists m :: 0 <= m < j && lane[m] != i && Partners(span, spans[lane[m]])
    {
      var other := lane[j];
      if other != i && span.InVisualRange(spans[other].start, spans[other].end) {
        found := true;
      }
      j := j + 1;
    }
  }

  /**
   * The overlap pass of getCached: which spans have a partner on their lane,
   * and, per lane, the set of their ids (each mapped to 0 until ranked).
   */
  method FindOverlaps(spans: seq<Span>, byPos: map<int, seq<nat>>)
    returns (subindexMap: map<int, map<int, int>>, overlaps: set<nat>)
    requires forall k :: 0 <= k < |spans| ==> spans[k].pos in byPos
    requires forall p :: p in byPos ==> byPos[p] == Lane(spans, |spans|, p)
    ensures overlaps == OverlappedUpTo(spans, |spans|)
    ensures forall p :: p in subindexMap <==> OverlapIds(spans, p) != {}
    ensures forall p :: p in subindexMap ==> subindexMap[p].Keys == OverlapIds(spans, p)
  {
    subindexMap, overlaps := map[], {};
    var i: nat := 0;
    while i < |spans|
      invariant i <= |spans|
      invariant overlaps == OverlappedUpTo(spans, i)
      invariant IdMapUpTo(spans, i, subindexMap)
    {
      var span := spans[i];
      var found := HasPartner(spans, i, byPos[span.pos]);
      ghost var before := subindexMap;
      if found {
        subindexMap := AddId(subindexMap, span.pos, span.id);
        overlaps := overlaps + {i};
      }
      OverlapMapStep(spans, i, before, subindexMap, found);
      OverlappedUpToStep(spans, i);
      i := i + 1;
    }
  }

  /** subindexMap[pos][id] = 0, creating the lane's map when missing. */
  function AddId(m: map<int, map<int, int>>, pos: int, id: int): (r: map<int, map<int, int>>)
    ensures r.Keys == m.Keys + {pos}
    ensures r[pos].Keys == (if pos in m then m[pos].Keys else {}) + {id}
    ensures forall p :: p in m && p != pos ==> r[p] == m[p]
  {
    var idMap := if pos in m then m[pos] else map[];
    m[pos := idMap[id := 0]]
  }

  /** The overlap map after the first `n` spans: a lane per lane with overlapped ids, keyed by those ids. */
  ghost predicate IdMapUpTo(spans: seq<Span>, n: nat, m: map<int, map<int, int>>)
    requires n <= |spans|
  {
    && (forall p :: p in m <==> IdsUpTo(spans, n, p) != {})
    && (forall p :: p in m ==> m[p].Keys == IdsUpTo(spans, n, p))
  }

  lemma OverlapMapStep(spans: seq<Span>, i: nat, before: map<int, map<int, int>>,
                       after: map<int, map<int, int>>, found: bool)
    requires i < |spans|
    requires found <==> Overlapped(spans, i)
    requires IdMapUpTo(spans, i, before)
    requires after == if found then AddId(before, spans[i].pos, spans[i].id) else before
    ensures IdMapUpTo(spans, i + 1, after)
  {
    forall p
      ensures p in after <==> IdsUpTo(spans, i + 1, p) != {}
      ensures p in after ==> after[p].Keys == IdsUpTo(spans, i + 1, p)
    {
      OverlapLaneStep(spans, i, before, after, found, p);
    }
  }

  /** OverlapMapStep on one lane `p`. */
  lemma OverlapLaneStep(spans: seq<Span>, i: nat, before: map<int, map<int, int>>,
                        after: map<int, map<int, int>>, found: bool, p: int)
    requires i < |spans|
    requires found <==> Overlapped(spans, i)
    requires p in before <==> IdsUpTo(spans, i, p) != {}
    requires p in before ==> before[p].Keys == IdsUpTo(spans, i, p)
    requires after == if found then AddId(before, spans[i].pos, spans[i].id) else before
    ensures p in after <==> IdsUpTo(spans, i + 1, p) != {}
    ensures p in after ==> after[p].Keys == IdsUpTo(spans, i + 1, p)
  {
    IdsUpToStep(spans, i, p);
  }

  /** Numbering the sorted ids by position gives each id its rank. */
  lemma RankedByIndex(sorted: seq<int>, keys: set<int>, ranked: map<int, int>)
    requires Increasing(sorted) && (forall x :: x in sorted <==> x in keys) && ranked.Keys == keys
    requires forall k :: 0 <= k < |sorted| ==> sorted[k] in ranked && ranked[sorted[k]] == k
    ensures forall id :: id in ranked ==> ranked[id] == Rank(id, keys)
  {
    forall id | id in ranked ensures ranked[id] == Rank(id, keys) {
      RankOfIndex(sorted, keys, id);
    }
  }

  /** sort.Ints on a lane's id list: its ids in increasing order, each once. */
  method SortIds(ids: seq<int>, keys: set<int>) returns (sorted: seq<int>)
    requires Distinct(ids) && forall x :: x in ids <==> x in keys
    ensures Increasing(sorted) && forall x :: x in sorted <==> x in keys
    ensures forall k :: 0 <= k < |sorted| ==> sorted[k] in keys
  {
    sorted := SortInts(ids);
    SortDistinctIncreasing(ids);
    forall x ensures x in sorted <==> x in keys {
      assert x in sorted <==> x in multiset(sorted);
      assert x in ids <==> x in multiset(ids);
    }
    assert forall k :: 0 <= k < |sorted| ==> sorted[k] in sorted;
  }

  method RankLane(idMap: map<int, int>) returns (ranked: map<int, int>)
    ensures ranked.Keys == idMap.Keys
    ensures forall id :: id in ranked ==> ranked[id] == Rank(id, idMap.Keys)
  {
    var ids := LaneIds(idMap);
    var sorted := SortIds(ids, idMap.Keys);
    ranked := idMap;
    var i := 0;
    while i < |sorted|
      invariant 0 <= i <= |sorted|
      invariant ranked.Keys == idMap.Keys
      invariant forall k :: 0 <= k < i ==> ranked[sorted[k]] == k
    {
      ranked := ranked[sorted[i] := i];
      i := i + 1;
    }
    RankedByIndex(sorted, idMap.Keys, ranked);
  }

  /** The ids of one lane's map, in map order. */
  method LaneIds(idMap: map<int, int>) returns (ids: seq<int>)
    ensures Distinct(ids) && forall x :: x in ids <==> x in idMap.Keys
  {
    ids := [];
    var keys := idMap.Keys;
    while keys != {}
      invariant keys <= idMap.Keys
      invariant Distinct(ids)
      invariant forall x :: x in ids <==> x in idMap.Keys && x !in keys
      decreases keys
    {
      var id := Pick(keys);
      ids := ids + [id];
      keys := keys - {id};
    }
  }

  /** In the sorted list of a lane's ids, each id sits at its rank. */
  lemma RankOfIndex(sorted: seq<int>, ids: set<int>, id: int)
    requires Increasing(sorted) && (forall x :: x in sorted <==> x in ids) && id in ids
    ensures exists k :: 0 <= k < |sorted| && sorted[k] == id && k == Rank(id, ids)
  {
    var k :| 0 <= k < |sorted| && sorted[k] == id;
    IndexIsRank(sorted, k);
    assert (set y | y in sorted && y < id) == (set y | y in ids && y < id);
  }

  /** Every lane of the overlap map ranked. */
  method RankLanes(subindexMap: map<int, map<int, int>>) returns (ranked: map<int, map<int, int>>)
    ensures ranked.Keys == subindexMap.Keys
    ensures forall p :: p in ranked ==> ranked[p].Keys == subindexMap[p].Keys
    ensures forall p, id :: p in ranked && id in ranked[p] ==> ranked[p][id] == Rank(id, subindexMap[p].Keys)
  {
    ranked := subindexMap;
    var lanes := subindexMap.Keys;
    while lanes != {}
      invariant lanes <= subindexMap.Keys
      invariant ranked.Keys == subindexMap.Keys
      invariant forall p :: p in ranked ==> ranked[p].Keys == subindexMap[p].Keys
      invariant forall p, id :: p in ranked && p !in lanes && id in ranked[p] ==>
        ranked[p][id] == Rank(id, subindexMap[p].Keys)
      decreases lanes
    {
      var p := Pick(lanes);
      var idMap := RankLane(subindexMap[p]);
      ranked := ranked[p := idMap];
      lanes := lanes - {p};
    }
  }

  /** getCached's sub-lane computation over the spans of one image. */
  method SubLanes(spans: seq<Span>) returns (draws: seq<SpanDraw>)
    ensures draws == Layout(spans)
  {
    var byPos := GroupByPos(spans);
    var subindexMap, overlaps := FindOverlaps(spans, byPos);
    var ranked := RankLanes(subindexMap);
    draws := [];
    var i := 0;
    while i < |spans|
      invariant 0 <= i <= |spans|
      invariant draws == Layout(spans)[..i]
    {
      var span := spans[i];
      var subindex, subindices := 0, 1;
      DrawAt(spans, ranked, overlaps, i);
      if i in overlaps {
        var idMap := ranked[span.pos];
        subindex := idMap[span.id];
        subindices := |idMap|;
      }
      draws := draws + [SpanDraw(span, subindex, subindices)];
      i := i + 1;
    }
  }

  /** How getCached's ranked overlap maps give span `i` its slice. */
  lemma DrawAt(spans: seq<Span>, ranked: map<int, map<int, int>>, overlaps: set<nat>, i: nat)
    requires i < |spans|
    requires overlaps == OverlappedUpTo(spans, |spans|)
    requires forall p :: p in ranked ==> ranked[p].Keys == OverlapIds(spans, p)
    requires forall p :: p in ranked <==> OverlapIds(spans, p) != {}
    requires forall p, id :: p in ranked && id in ranked[p] ==> ranked[p][id] == Rank(id, OverlapIds(spans, p))
    ensures i in overlaps ==> spans[i].pos in ranked && spans[i].id in ranked[spans[i].pos]
    ensures Layout(spans)[i] ==
      if i in overlaps then SpanDraw(spans[i], ranked[spans[i].pos][spans[i].id], |ranked[spans[i].pos]|)
      else SpanDraw(spans[i], 0, 1)
  {
    if i in overlaps {
      assert spans[i].id in OverlapIds(spans, spans[i].pos);
      assert |ranked[spans[i].pos]| == |ranked[spans[i].pos].Keys|;
    }
  }

  lemma RankBelowCard(x: int, ids: set<int>)
    requires x in ids
    ensures Rank(x, ids) < |ids|
  {
    var below := set y | y in ids && y < x;
    assert below <= ids - {x};
    assert |ids - {x}| == |ids| - 1;
    SubsetCard(below, ids - {x});
  }

  lemma SubsetCard(a: set<int>, b: set<int>)
    requires a <= b
    ensures |a| <= |b|
  {
    assert b == a + (b - a);
  }

  /** Ranks follow the order of the ids: a smaller member has a smaller rank. */
  lemma RankMonotone(x: int, y: int, ids: set<int>)
    requires x in ids && x < y
    ensures Rank(x, ids) < Rank(y, ids)
  {
    var below := set z | z in ids && z < x;
    var belowY := set z | z in ids && z < y;
    assert below + {x} <= belowY;
    assert x !in below;
    SubsetCard(below + {x}, belowY);
  }

  /** Every span is drawn within its lane: a slice index below the number of slices. */
  lemma {:induction false} LayoutWithinLane(spans: seq<Span>, i: nat)
    requires i < |spans|
    ensures 0 <= Layout(spans)[i].subindex < Layout(spans)[i].subindices
    ensures Layout(spans)[i].span == spans[i]
  {
    if Overlapped(spans, i) {
      assert spans[i].id in OverlapIds(spans, spans[i].pos);
      RankBelowCard(spans[i].id, OverlapIds(spans, spans[i].pos));
    }
  }

  /**
   * Two overlapped spans on one lane are cut into the same number of slices,
   * and they take the same slice exactly when they carry the same id.
   */
  lemma {:induction false} LayoutSeparatesIds(spans: seq<Span>, i: nat, j: nat)
    requires i < |spans| && j < |spans|
    requires Overlapped(spans, i) && Overlapped(spans, j) && spans[i].pos == spans[j].pos
    ensures Layout(spans)[i].subindices == Layout(spans)[j].subindices
    ensures Layout(spans)[i].subindex == Layout(spans)[j].subindex <==> spans[i].id == spans[j].id
  {
    var ids := OverlapIds(spans, spans[i].pos);
    assert spans[i].id in ids && spans[j].id in ids;
    if spans[i].id < spans[j].id {
      RankMonotone(spans[i].id, spans[j].id, ids);
    } else if spans[j].id < spans[i].id {
      RankMonotone(spans[j].id, spans[i].id, ids);
    }
  }

  /** A span with no partner on its lane is drawn across the whole lane. */
  lemma LayoutAlone(spans: seq<Span>, i: nat)
    requires i < |spans|
    requires forall k :: 0 <= k < |spans| && k != i ==> !Partners(spans[i], spans[k])
    ensures Layout(spans)[i] == SpanDraw(spans[i], 0, 1)
  {
  }

  /**
   * Sharing is decided per lane, not per pair: a span overlapped only by a
   * span of its own instrument still gets half the lane when two spans of
   * another instrument overlap each other elsewhere on it.
   */
  lemma SameInstrumentShares()
    ensures var spans := [Span(1, 0, 0, 100 * Millisecond), Span(1, 0, 0, 100 * Millisecond),
                          Span(2, 0, 200 * Millisecond, 300 * Millisecond), Span(2, 0, 200 * Millisecond, 300 * Millisecond)];
      && !Partners(spans[0], spans[2]) && !Partners(spans[0], spans[3])
      && Layout(spans)[0] == SpanDraw(spans[0], 0, 2)
  {
    var spans := [Span(1, 0, 0, 100 * Millisecond), Span(1, 0, 0, 100 * Millisecond),
                  Span(2, 0, 200 * Millisecond, 300 * Millisecond), Span(2, 0, 200 * Millisecond, 300 * Millisecond)];
    assert Partners(spans[0], spans[1]) && Partners(spans[1], spans[0]);
    assert Partners(spans[2], spans[3]) && Partners(spans[3], spans[2]);
    assert Overlapped(spans, 0) && Overlapped(spans, 1) && Overlapped(spans, 2) && Overlapped(spans, 3);
    var ids := OverlapIds(spans, 0);
    assert 1 in ids by { assert spans[0].id == 1; }
    assert 2 in ids by { assert spans[2].id == 2; }
    assert ids == {1, 2};
    assert (set y | y in ids && y < 1) == {};
  }

  /** Overlapping by more than the slack is symmetric, so partners come in pairs. */
  lemma PartnersSymmetric(a: Span, b: Span)
    ensures Partners(a, b) <==> Partners(b, a)
  {
  }

  // Order independence: getCached collects spans in map order, which varies.

  /** Span `s` has a partner in the multiset, counting a second copy of itself. */
  ghost predicate OverlappedIn(ms: multiset<Span>, s: Span)
  {
    (exists t :: t in ms && t != s && Partners(s, t)) || (ms[s] >= 2 && Partners(s, s))
  }

  lemma TwoOccurrences(a: seq<Span>, i: nat, k: nat)
    requires i < |a| && k < |a| && i != k && a[i] == a[k]
    ensures multiset(a)[a[i]] >= 2
  {
    var lo, hi := if i < k then i else k, if i < k then k else i;
    assert a == a[..lo] + [a[lo]] + a[lo + 1..hi] + [a[hi]] + a[hi + 1..];
    assert multiset(a) == multiset(a[..lo]) + multiset{a[lo]} + multiset(a[lo + 1..hi]) + multiset{a[hi]} + multiset(a[hi + 1..]);
  }

  lemma SecondOccurrence(a: seq<Span>, i: nat) returns (k: nat)
    requires i < |a| && multiset(a)[a[i]] >= 2
    ensures k < |a| && k != i && a[k] == a[i]
  {
    var rest := a[..i] + a[i + 1..];
    assert a == a[..i] + [a[i]] + a[i + 1..];
    assert multiset(rest)[a[i]] >= 1;
    assert a[i] in multiset(rest);
    var m :| 0 <= m < |rest| && rest[m] == a[i];
    k := if m < i then m else m + 1;
    assert a[k] == rest[m];
  }

  lemma OverlappedByValue(a: seq<Span>, i: nat)
    requires i < |a|
    ensures Overlapped(a, i) <==> OverlappedIn(multiset(a), a[i])
  {
    if Overlapped(a, i) {
      var k :| 0 <= k < |a| && k != i && Partners(a[i], a[k]);
      if a[k] == a[i] {
        TwoOccurrences(a, i, k);
      } else {
        assert a[k] in multiset(a);
      }
    }
    if OverlappedIn(multiset(a), a[i]) {
      if multiset(a)[a[i]] >= 2 && Partners(a[i], a[i]) {
        var k := SecondOccurrence(a, i);
        assert k != i && Partners(a[i], a[k]);
      } else {
        var t :| t in multiset(a) && t != a[i] && Partners(a[i], t);
        assert t in a;
        var k :| 0 <= k < |a| && a[k] == t;
        assert k != i && Partners(a[i], a[k]);
      }
    }
  }

  lemma OverlapIdsByValue(a: seq<Span>, pos: int)
    ensures OverlapIds(a, pos) == set s | s in multiset(a) && s.pos == pos && OverlappedIn(multiset(a), s) :: s.id
  {
    var byValue := set s | s in multiset(a) && s.pos == pos && OverlappedIn(multiset(a), s) :: s.id;
    forall x | x in OverlapIds(a, pos) ensures x in byValue {
      var k :| 0 <= k < |a| && a[k].pos == pos && Overlapped(a, k) && a[k].id == x;
      OverlappedByValue(a, k);
      assert a[k] in multiset(a);
    }
    forall x | x in byValue ensures x in OverlapIds(a, pos) {
      var s :| s in multiset(a) && s.pos == pos && OverlappedIn(multiset(a), s) && s.id == x;
      assert s in a;
      var k :| 0 <= k < |a| && a[k] == s;
      OverlappedByValue(a, k);
    }
  }

  /**
   * The layout does not depend on the order the spans were collected in:
   * the same span in two orderings of the same spans gets the same slice.
   */
  lemma LayoutOrderIndependent(a: seq<Span>, b: seq<Span>, i: nat, j: nat)
    requires multiset(a) == multiset(b)
    requires i < |a| && j < |b| && a[i] == b[j]
    ensures Layout(a)[i] == Layout(b)[j]
  {
    OverlappedByValue(a, i);
    OverlappedByValue(b, j);
    OverlapIdsByValue(a, a[i].pos);
    OverlapIdsByValue(b, b[j].pos);
  }

  // ---------------------------------------------------------------------
  // Trail state: the spans and buckets, and the image cache.
  // ---------------------------------------------------------------------

  /** The spans a trail has seen (by identity) and its buckets by start time. */
  datatype Store = Store(arena: seq<Span>, buckets: map<Time, SpanBucket>)

  /**
   * Every bucket sits under its own start, refers only to existing spans,
   * and covers them: none starts before the bucket or ends after its end.
   */
  ghost predicate StoreValid(store: Store)
  {
    && (forall t :: t in store.buckets ==>
          store.buckets[t].start == t && RefsIn(store.buckets[t].spans, |store.arena|))
    && (forall t, k :: t in store.buckets && 0 <= k < |store.buckets[t].spans| ==>
          Covered(store.buckets[t], store.arena, store.buckets[t].spans[k]))
  }

  ghost predicate Covered(bucket: SpanBucket, arena: seq<Span>, ref: SpanRef)
  {
    ref < |arena| && bucket.start <= arena[ref].start && arena[ref].end <= bucket.end
  }

  /**
   * The image cache: one image per bucket start that has been drawn, whether
   * it is up to date, the background grid, and the pool of images released
   * by cleanup. `nextImage` is the supply of fresh images ebiten.NewImage hands out.
   */
  datatype Cache = Cache(cached: map<Time, Image>, cachedReady: map<Time, bool>,
                         grid: Option<Image>, gridReady: bool, unused: seq<Image>, nextImage: nat)
  {
    /** cachedReady[t] as Go reads it: a missing key is false. */
    predicate Ready(t: Time)
    {
      t in cachedReady && cachedReady[t]
    }

    /** redrawBucket: the image of bucket t must be redrawn. */
    function RedrawBucket(t: Time): (c: Cache)
      ensures !c.Ready(t)
      ensures forall u :: u != t ==> (c.Ready(u) <==> Ready(u))
      ensures c.cached == cached && c.grid == grid && c.gridReady == gridReady && c.unused == unused
    {
      this.(cachedReady := cachedReady[t := false])
    }

    /** redrawAll: every image and the grid must be redrawn; the images themselves are kept. */
    function RedrawAll(): (c: Cache)
      ensures forall u :: !c.Ready(u)
      ensures !c.gridReady
      ensures c.cached == cached && c.grid == grid && c.unused == unused && c.nextImage == nextImage
    {
      this.(cachedReady := map[], gridReady := false)
    }

    /** resetAll: every image is dropped (and disposed later), then everything must be redrawn. */
    function ResetAll(): (c: Cache)
      ensures c.cached == map[] && c.cachedReady == map[] && c.grid == None && !c.gridReady && c.unused == []
      ensures c.nextImage == nextImage
    {
      this.(cached := map[], grid := None, unused := []).RedrawAll()
    }

    /** The images the cache holds: those resetAll hands over for disposal. */
    ghost function Live(): set<Image>
    {
      cached.Values + (if grid.Some? then {grid.value} else {}) + (set k | 0 <= k < |unused| :: unused[k])
    }
  }

  /**
   * No image serves two purposes: cached images are pairwise distinct, the
   * pool holds no image twice, and the grid, the cached images and the pool
   * are disjoint. Every image held was handed out by ebiten.NewImage and has
   * not been given to a deferred Dispose; a ready grid exists.
   */
  ghost predicate PoolDiscipline(c: Cache, disposed: set<Image>)
  {
    && (forall t1, t2 :: t1 in c.cached && t2 in c.cached && t1 != t2 ==> c.cached[t1] != c.cached[t2])
    && Distinct(c.unused)
    && (forall t, k :: t in c.cached && 0 <= k < |c.unused| ==> c.cached[t] != c.unused[k])
    && (c.grid.Some? ==> c.grid.value !in c.cached.Values && c.grid.value !in c.unused)
    && (c.gridReady ==> c.grid.Some?)
    && (forall img :: img in c.Live() ==> img.token < c.nextImage && img !in disposed)
    && (forall img :: img in disposed ==> img.token < c.nextImage)
  }

  datatype Allocation = Allocation(image: Image, cache: Cache)

  /** allocateImage: reuse the image most recently released into the pool, else create one. */
  function Allocate(c: Cache): (a: Allocation)
    ensures |c.unused| > 0 ==> a.image == c.unused[|c.unused| - 1] && a.cache.unused == c.unused[..|c.unused| - 1]
    ensures |c.unused| == 0 ==> a.image == Image(c.nextImage) && a.cache.nextImage == c.nextImage + 1
    ensures a.cache.cached == c.cached && a.cache.cachedReady == c.cachedReady
    ensures a.cache.grid == c.grid && a.cache.gridReady == c.gridReady
  {
    if |c.unused| > 0 then
      Allocation(c.unused[|c.unused| - 1], c.(unused := c.unused[..|c.unused| - 1]))
    else
      Allocation(Image(c.nextImage), c.(nextImage := c.nextImage + 1))
  }

  /** The pool is a stack: an image released and then allocated comes straight back. */
  lemma AllocateAfterRelease(c: Cache, img: Image)
    ensures Allocate(c.(unused := c.unused + [img])) == Allocation(img, c)
  {
    assert (c.unused + [img])[..|c.unused|] == c.unused;
  }

  /** An allocated image is held by no one else, and the cache keeps its discipline. */
  lemma {:induction false} AllocateFresh(c: Cache, disposed: set<Image>)
    requires PoolDiscipline(c, disposed)
    ensures Allocate(c).image !in Allocate(c).cache.Live()
    ensures Allocate(c).image !in disposed
    ensures Allocate(c).image.token < Allocate(c).cache.nextImage
    ensures PoolDiscipline(Allocate(c).cache, disposed)
  {
    var a := Allocate(c);
    if |c.unused| > 0 {
      var n := |c.unused| - 1;
      assert c.unused == a.cache.unused + [a.image];
      assert a.image in c.Live();
      assert a.cache.Live() <= c.Live();
      assert a.image !in a.cache.unused by {
        forall k | 0 <= k < n ensures a.cache.unused[k] != a.image {
          assert a.cache.unused[k] == c.unused[k];
        }
      }
      assert a.image !in c.cached.Values by {
        forall t | t in c.cached ensures c.cached[t] != a.image {
          assert c.cached[t] != c.unused[n];
        }
      }
    } else {
      assert a.cache.Live() == c.Live();
    }
  }

  /** Dropping every image keeps the discipline once they are all handed to Dispose. */
  lemma ResetAllDiscipline(c: Cache, disposed: set<Image>)
    requires PoolDiscipline(c, disposed)
    ensures PoolDiscipline(c.ResetAll(), disposed + c.Live())
    ensures c.ResetAll().Live() == {}
  {
  }

  /** Invalidating a bucket or everything moves no image. */
  lemma RedrawDiscipline(c: Cache, disposed: set<Image>, t: Time)
    requires PoolDiscipline(c, disposed)
    ensures PoolDiscipline(c.RedrawBucket(t), disposed)
    ensures PoolDiscipline(c.RedrawAll(), disposed)
  {
    assert c.RedrawBucket(t).Live() == c.Live();
    assert c.RedrawAll().Live() == c.Live();
  }

  /** Marking a bucket drawn moves no image. */
  lemma ReadyDiscipline(c: Cache, disposed: set<Image>, t: Time)
    requires PoolDiscipline(c, disposed)
    ensures PoolDiscipline(c.(cachedReady := c.cachedReady[t := true]), disposed)
  {
    assert c.(cachedReady := c.cachedReady[t := true]).Live() == c.Live();
  }

  // --- Span ---

  /**
   * trail.buckets after Span adds the span `ref` ending at `end` to the
   * bucket starting at `bucketTime`: a missing bucket is created spanning up
   * to `end`; an existing one is extended to `end` if that is later.
   */
  function InsertSpan(buckets: map<Time, SpanBucket>, bucketTime: Time, ref: SpanRef, end: Time)
    : (r: map<Time, SpanBucket>)
    ensures r.Keys == buckets.Keys + {bucketTime}
    ensures forall t :: t in buckets && t != bucketTime ==> r[t] == buckets[t]
    ensures r[bucketTime].start == if bucketTime in buckets then buckets[bucketTime].start else bucketTime
    ensures r[bucketTime].spans == (if bucketTime in buckets then buckets[bucketTime].spans else []) + [ref]
    ensures r[bucketTime].end == if bucketTime in buckets then Max(buckets[bucketTime].end, end) else end
  {
    if bucketTime !in buckets then
      buckets[bucketTime := SpanBucket(bucketTime, end, [ref])]
    else
      var b := buckets[bucketTime];
      buckets[bucketTime := b.(end := Max(b.end, end), spans := b.spans + [ref])]
  }

  /** The span Trail.Span records: the wrapped id, the lane, and [now, now + d]. */
  function NewSpan(id: int, pos: int, now: Time, d: Duration): Span
  {
    Span(StoredId(id), pos, now, now + d)
  }

  /** The state of a trail as the class holds it. */
  datatype TrailState = TrailState(store: Store, minPos: int, maxPos: int, active: seq<SpanRef>,
                                   cache: Cache, gridSteps: int)

  /** The extent change Span makes for a span at `pos`. */
  function SpanExtent(s: TrailState, pos: int): Extent
  {
    NewExtent(|s.store.buckets| == 0, s.minPos, s.maxPos, pos)
  }

  /**
   * Trail.Span at time `now`: the span {StoredId(id), pos, now, now+d} is
   * added to the bucket of `now` and to the active list; the extent may
   * reset all images; the bucket's image is invalidated.
   */
  function SpanStep(s: TrailState, bucketSize: Duration, id: int, pos: int, d: Duration, now: Time): TrailState
    requires bucketSize > 0
  {
    var bucketTime := Truncate(now, bucketSize);
    var e := SpanExtent(s, pos);
    var span := NewSpan(id, pos, now, d);
    var ref := |s.store.arena|;
    var cache := if e.reset then s.cache.ResetAll() else s.cache;
    TrailState(Store(s.store.arena + [span], InsertSpan(s.store.buckets, bucketTime, ref, span.end)),
               e.minPos, e.maxPos, s.active + [ref], cache.RedrawBucket(bucketTime), s.gridSteps)
  }

  /** The images Span hands to the deferred Dispose: all of them when the extent changes. */
  ghost function SpanDisposes(s: TrailState, pos: int): set<Image>
  {
    if SpanExtent(s, pos).reset then s.cache.Live() else {}
  }

  /** A valid trail state: buckets, active list and extent consistent, images disciplined. */
  ghost predicate StateValid(s: TrailState, disposed: set<Image>)
  {
    StoreValid(s.store) && RefsIn(s.active, |s.store.arena|) && s.minPos <= s.maxPos
      && PoolDiscipline(s.cache, disposed)
  }

  /**
   * Span adds exactly one span, a fresh one, to the bucket of `now` and the
   * active list; every other bucket is as it was and the trail stays valid.
   * The span passes its bucket's Validate test unless it ends before the
   * bucket starts or starts after the bucket's end, which a non-negative
   * duration rules out.
   */
  lemma {:induction false} SpanStepAddsOne(s: TrailState, disposed: set<Image>, bucketSize: Duration,
                                           id: int, pos: int, d: Duration, now: Time)
    requires StateValid(s, disposed) && bucketSize > 0
    ensures var r := SpanStep(s, bucketSize, id, pos, d, now);
      var bt := Truncate(now, bucketSize);
      var ref := |s.store.arena|;
      && r.store.arena == s.store.arena + [Span(StoredId(id), pos, now, now + d)]
      && r.active == s.active + [ref]
      && r.store.buckets.Keys == s.store.buckets.Keys + {bt}
      && (forall t :: t in s.store.buckets && t != bt ==> r.store.buckets[t] == s.store.buckets[t])
      && ref !in (if bt in s.store.buckets then s.store.buckets[bt].spans else [])
      && r.store.buckets[bt].spans == (if bt in s.store.buckets then s.store.buckets[bt].spans else []) + [ref]
      && (OutOfBucket(r.store.buckets[bt], r.store.arena[ref]) <==> now + d < bt || r.store.buckets[bt].end < now)
      && (d >= 0 ==> !OutOfBucket(r.store.buckets[bt], r.store.arena[ref]))
      && r.minPos <= pos <= r.maxPos
      && StateValid(r, disposed + SpanDisposes(s, pos))
  {
    SpanStepValid(s, disposed, bucketSize, id, pos, d, now);
    InsertSpanValid(s.store, Truncate(now, bucketSize), NewSpan(id, pos, now, d));
  }

  /**
   * A negative duration that opens a new bucket leaves that bucket ending
   * before its span starts, so its Validate test fails and the next render
   * of any bucket stops fatally.
   */
  lemma NegativeSpanInvalid(s: TrailState, bucketSize: Duration, id: int, pos: int, d: Duration, now: Time)
    requires StoreValid(s.store) && bucketSize > 0 && d < 0 && Truncate(now, bucketSize) !in s.store.buckets
    ensures var r := SpanStep(s, bucketSize, id, pos, d, now);
      var b := r.store.buckets[Truncate(now, bucketSize)];
      RefsIn(b.spans, |r.store.arena|) && Validate(b, Deref(r.store.arena, b.spans)).Some?
  {
    var r := SpanStep(s, bucketSize, id, pos, d, now);
    var b := r.store.buckets[Truncate(now, bucketSize)];
    assert b.spans == [|s.store.arena|];
    assert Deref(r.store.arena, b.spans)[0] == NewSpan(id, pos, now, d);
  }

  /** Span keeps a trail valid, with the images it drops handed to Dispose. */
  lemma SpanStepValid(s: TrailState, disposed: set<Image>, bucketSize: Duration,
                      id: int, pos: int, d: Duration, now: Time)
    requires StateValid(s, disposed) && bucketSize > 0
    ensures StateValid(SpanStep(s, bucketSize, id, pos, d, now), disposed + SpanDisposes(s, pos))
  {
    var bt := Truncate(now, bucketSize);
    if SpanExtent(s, pos).reset {
      ResetAllDiscipline(s.cache, disposed);
      RedrawDiscipline(s.cache.ResetAll(), disposed + s.cache.Live(), bt);
    } else {
      RedrawDiscipline(s.cache, disposed, bt);
    }
    InsertSpanValid(s.store, bt, NewSpan(id, pos, now, d));
  }

  /** Adding a span that starts in bucket `bt` to it keeps every bucket covering its spans. */
  lemma InsertSpanValid(store: Store, bt: Time, span: Span)
    requires StoreValid(store) && bt <= span.start
    ensures var r := Store(store.arena + [span], InsertSpan(store.buckets, bt, |store.arena|, span.end));
      StoreValid(r) && Covered(r.buckets[bt], r.arena, |store.arena|)
  {
    var r := Store(store.arena + [span], InsertSpan(store.buckets, bt, |store.arena|, span.end));
    forall t | t in r.buckets
      ensures r.buckets[t].start == t && RefsIn(r.buckets[t].spans, |r.arena|)
      ensures forall k :: 0 <= k < |r.buckets[t].spans| ==> Covered(r.buckets[t], r.arena, r.buckets[t].spans[k])
    {
      InsertSpanBucket(store, bt, span, t);
    }
  }

  /** InsertSpanValid for one bucket `t` of the new store. */
  lemma InsertSpanBucket(store: Store, bt: Time, span: Span, t: Time)
    requires StoreValid(store) && bt <= span.start
    requires t in InsertSpan(store.buckets, bt, |store.arena|, span.end)
    ensures var r := Store(store.arena + [span], InsertSpan(store.buckets, bt, |store.arena|, span.end));
      && r.buckets[t].start == t && RefsIn(r.buckets[t].spans, |r.arena|)
      && forall k :: 0 <= k < |r.buckets[t].spans| ==> Covered(r.buckets[t], r.arena, r.buckets[t].spans[k])
  {
    var r := Store(store.arena + [span], InsertSpan(store.buckets, bt, |store.arena|, span.end));
    if t != bt {
      assert r.buckets[t] == store.buckets[t];
      forall k | 0 <= k < |r.buckets[t].spans| ensures Covered(r.buckets[t], r.arena, r.buckets[t].spans[k]) {
        assert Covered(store.buckets[t], store.arena, store.buckets[t].spans[k]);
      }
    } else if bt in store.buckets {
      forall k | 0 <= k < |r.buckets[t].spans| ensures Covered(r.buckets[t], r.arena, r.buckets[t].spans[k]) {
        if k < |store.buckets[bt].spans| {
          assert r.buckets[bt].spans[k] == store.buckets[bt].spans[k];
          assert Covered(store.buckets[bt], store.arena, store.buckets[bt].spans[k]);
        }
      }
    }
  }

  /**
   * The lane extent rule: a span on a lane within the current range, in a
   * trail that has buckets, changes neither the range nor any image but the
   * invalidated bucket; otherwise every image is dropped.
   */
  lemma SpanStepExtent(s: TrailState, bucketSize: Duration, id: int, pos: int, d: Duration, now: Time)
    requires bucketSize > 0 && s.minPos <= s.maxPos
    ensures var r := SpanStep(s, bucketSize, id, pos, d, now);
      var bt := Truncate(now, bucketSize);
      if |s.store.buckets| > 0 && s.minPos <= pos <= s.maxPos then
        r.minPos == s.minPos && r.maxPos == s.maxPos && r.cache == s.cache.RedrawBucket(bt)
      else
        && r.cache.cached == map[] && r.cache.unused == [] && r.cache.grid == None && !r.cache.gridReady
        && r.cache.cachedReady == map[bt := false]
        && (if |s.store.buckets| == 0 then r.minPos == pos == r.maxPos
            else r.minPos == Min(s.minPos, pos) && r.maxPos == Max(s.maxPos, pos))
  {
  }

  // --- Stop ---

  /** The span Stop looks for: same id and lane, still running after `now`. */
  predicate Matches(span: Span, id: int, pos: int, now: Time)
  {
    span.id == id && span.pos == pos && span.end > now
  }

  /** The first matching span of a bucket's list. */
  function FirstMatch(spans: seq<Span>, id: int, pos: int, now: Time): (k: Option<nat>)
    ensures k.Some? ==> k.value < |spans| && Matches(spans[k.value], id, pos, now)
    ensures k.Some? ==> forall j :: 0 <= j < k.value ==> !Matches(spans[j], id, pos, now)
    ensures k.None? ==> forall j :: 0 <= j < |spans| ==> !Matches(spans[j], id, pos, now)
  {
    if spans == [] then None
    else if Matches(spans[0], id, pos, now) then Some(0)
    else match FirstMatch(spans[1..], id, pos, now)
      case None => None
      case Some(j) => Some(j + 1)
  }

  /** Bucket `t` is one Stop may act on: it ends no earlier than `now` and holds a match. */
  ghost predicate StopCandidate(store: Store, t: Time, id: int, pos: int, now: Time)
    requires StoreValid(store)
  {
    t in store.buckets && !(store.buckets[t].end < now)
      && FirstMatch(Deref(store.arena, store.buckets[t].spans), id, pos, now).Some?
  }

  /** Stop acting on bucket `t`: its first match ends at `now`, and the bucket's end is recomputed. */
  function StopAt(store: Store, t: Time, id: int, pos: int, now: Time): Store
    requires StoreValid(store) && StopCandidate(store, t, id, pos, now)
  {
    var b := store.buckets[t];
    var ref := b.spans[FirstMatch(Deref(store.arena, b.spans), id, pos, now).value];
    var arena := store.arena[ref := store.arena[ref].(end := now)];
    Store(arena, store.buckets[t := b.(end := LatestEnd(Deref(arena, b.spans)))])
  }

  /** Trail.Stop acting on bucket `t`; the image invalidated is that of `now`'s bucket. */
  function StopStep(s: TrailState, bucketSize: Duration, t: Time, id: int, pos: int, now: Time): TrailState
    requires bucketSize > 0 && StoreValid(s.store) && StopCandidate(s.store, t, id, pos, now)
  {
    s.(store := StopAt(s.store, t, id, pos, now), cache := s.cache.RedrawBucket(Truncate(now, bucketSize)))
  }

  /**
   * Stop shortens exactly one span, a match in bucket `t`, to end at `now`;
   * every other span and every other bucket is unchanged; bucket `t` keeps
   * its spans and now ends at the latest of their ends.
   */
  lemma {:induction false} StopShortensOne(store: Store, t: Time, id: int, pos: int, now: Time)
    requires StoreValid(store) && StopCandidate(store, t, id, pos, now)
    ensures var r := StopAt(store, t, id, pos, now);
      && |r.arena| == |store.arena|
      && (exists ref :: ref in store.buckets[t].spans && Matches(store.arena[ref], id, pos, now)
            && r.arena[ref] == store.arena[ref].(end := now)
            && forall other :: 0 <= other < |r.arena| && other != ref ==> r.arena[other] == store.arena[other])
      && r.buckets.Keys == store.buckets.Keys
      && (forall u :: u in store.buckets && u != t ==> r.buckets[u] == store.buckets[u])
      && r.buckets[t].spans == store.buckets[t].spans
      && r.buckets[t].end == LatestEnd(Deref(r.arena, r.buckets[t].spans))
      && StoreValid(r)
  {
    var r := StopAt(store, t, id, pos, now);
    var b := store.buckets[t];
    var k := FirstMatch(Deref(store.arena, b.spans), id, pos, now).value;
    var ref := b.spans[k];
    assert ref in b.spans;
    forall u, j | u in r.buckets && 0 <= j < |r.buckets[u].spans|
      ensures Covered(r.buckets[u], r.arena, r.buckets[u].spans[j])
    {
      var x := r.buckets[u].spans[j];
      assert Covered(store.buckets[u], store.arena, x);
      if u == t {
        assert Deref(r.arena, b.spans)[j] == r.arena[x];
      }
    }
  }

  /** Stop keeps the trail valid. */
  lemma StopStepValid(s: TrailState, disposed: set<Image>, bucketSize: Duration, t: Time, id: int, pos: int, now: Time)
    requires StateValid(s, disposed) && bucketSize > 0 && StopCandidate(s.store, t, id, pos, now)
    ensures StateValid(StopStep(s, bucketSize, t, id, pos, now), disposed)
  {
    StopShortensOne(s.store, t, id, pos, now);
    RedrawDiscipline(s.cache, disposed, Truncate(now, bucketSize));
  }

  /** The first span of a bucket Stop would shorten, as an index into its list. */
  method FindMatch(arena: seq<Span>, bucket: SpanBucket, id: int, pos: int, now: Time) returns (found: Option<nat>)
    requires RefsIn(bucket.spans, |arena|)
    ensures found == FirstMatch(Deref(arena, bucket.spans), id, pos, now)
  {
    ghost var spans := Deref(arena, bucket.spans);
    var i := 0;
    while i < |bucket.spans|
      invariant 0 <= i <= |bucket.spans|
      invariant forall j :: 0 <= j < i ==> !Matches(spans[j], id, pos, now)
    {
      var span := arena[bucket.spans[i]];
      if span.id == id && span.pos == pos && span.end > now {
        return Some(i);
      }
      i := i + 1;
    }
    return None;
  }

  /** Stop's search: a bucket that may be acted on and the index of its first match, if any. */
  method FindStop(store: Store, id: int, pos: int, now: Time) returns (hit: Option<Time>, at: nat)
    requires StoreValid(store)
    ensures hit.None? ==> forall t :: !StopCandidate(store, t, id, pos, now)
    ensures hit.Some? ==>
      && StopCandidate(store, hit.value, id, pos, now)
      && FirstMatch(Deref(store.arena, store.buckets[hit.value].spans), id, pos, now) == Some(at)
  {
    var keys := store.buckets.Keys;
    hit, at := None, 0;
    while keys != {}
      invariant keys <= store.buckets.Keys
      invariant forall t :: t in store.buckets && t !in keys ==> !StopCandidate(store, t, id, pos, now)
      decreases keys
    {
      var t := Pick(keys);
      keys := keys - {t};
      var bucket := store.buckets[t];
      if bucket.end < now {
        continue;
      }
      var found := FindMatch(store.arena, bucket, id, pos, now);
      if found.Some? {
        return Some(t), found.value;
      }
    }
  }

  // --- ActivePos ---

  /** The span covers the instant `now`. */
  predicate Covers(span: Span, now: Time)
  {
    span.InRange(now, now)
  }

  /** Pruning one more reference of a list. */
  lemma PruneStep(arena: seq<Span>, refs: seq<SpanRef>, j: nat, now: Time)
    requires RefsIn(refs, |arena|) && j < |refs|
    ensures Prune(arena, refs[..j + 1], now) ==
      if Covers(arena[refs[j]], now) then Prune(arena, refs[..j], now) + [refs[j]] else Prune(arena, refs[..j], now)
  {
    assert refs[..j + 1][..j] == refs[..j];
  }

  /**
   * ActivePos's loop after looking at refs[..j]: `kept` holds what pruning
   * keeps of them, and the list is `kept` followed by the part not yet seen.
   */
  ghost predicate PruneAt(arena: seq<Span>, refs: seq<SpanRef>, now: Time, j: nat,
                          list: seq<SpanRef>, kept: seq<SpanRef>)
  {
    && RefsIn(refs, |arena|) && j <= |refs|
    && kept == Prune(arena, refs[..j], now)
    && list == kept + refs[j..]
  }

  /**
   * One step of ActivePos's loop, looking at refs[j] in the list: a span
   * covering `now` is stepped over, any other is spliced out.
   */
  lemma PruneLoopStep(arena: seq<Span>, refs: seq<SpanRef>, now: Time, j: nat,
                      list: seq<SpanRef>, kept: seq<SpanRef>)
    requires PruneAt(arena, refs, now, j, list, kept) && j < |refs|
    ensures |kept| < |list| && list[|kept|] == refs[j] && refs[j] < |arena|
    ensures Covers(arena[refs[j]], now) ==> PruneAt(arena, refs, now, j + 1, list, kept + [refs[j]])
    ensures !Covers(arena[refs[j]], now) ==>
      PruneAt(arena, refs, now, j + 1, list[..|kept|] + list[|kept| + 1..], kept)
  {
    PruneStep(arena, refs, j, now);
    SpliceStep(kept, refs[j..]);
    assert refs[j..][1..] == refs[j + 1..];
  }

  /** ActivePos's activeMap `seen` and list `found`: each lane of the kept spans, once. */
  ghost predicate LanesFound(arena: seq<Span>, kept: seq<SpanRef>, seen: set<int>, found: seq<int>)
  {
    RefsIn(kept, |arena|) && Distinct(found) && (forall p :: p in found <==> p in seen) && seen == Lanes(arena, kept)
  }

  /** Keeping one more span adds its lane, unless it was already seen. */
  lemma LanesFoundStep(arena: seq<Span>, kept: seq<SpanRef>, r: SpanRef, seen: set<int>, found: seq<int>)
    requires LanesFound(arena, kept, seen, found) && r < |arena|
    ensures var pos := arena[r].pos;
      if pos in seen then LanesFound(arena, kept + [r], seen, found)
      else LanesFound(arena, kept + [r], seen + {pos}, found + [pos])
  {
    LanesAppend(arena, kept, r);
    if arena[r].pos !in seen {
      DistinctAppend(found, arena[r].pos);
    }
  }

  /** ActivePos's loop ends when the unseen part is empty: the list is pruned. */
  lemma PruneDone(arena: seq<Span>, refs: seq<SpanRef>, now: Time, j: nat,
                  list: seq<SpanRef>, kept: seq<SpanRef>)
    requires PruneAt(arena, refs, now, j, list, kept) && |list| <= |kept|
    ensures list == kept == Prune(arena, refs, now)
  {
    assert refs[..j] == refs;
  }

  /** Removing, or stepping over, the first element after a prefix. */
  lemma SpliceStep<T>(p: seq<T>, rest: seq<T>)
    requires |rest| > 0
    ensures (p + rest)[..|p|] + (p + rest)[|p| + 1..] == p + rest[1..]
    ensures p + rest == (p + [rest[0]]) + rest[1..]
    ensures (p + rest)[|p|] == rest[0]
  {
    assert (p + rest)[|p| + 1..] == rest[1..];
  }

  /** The active list with every span not covering `now` removed, order kept. */
  function Prune(arena: seq<Span>, refs: seq<SpanRef>, now: Time): (r: seq<SpanRef>)
    requires RefsIn(refs, |arena|)
    ensures RefsIn(r, |arena|) && |r| <= |refs|
  {
    if refs == [] then []
    else
      var last := refs[|refs| - 1];
      var init := Prune(arena, refs[..|refs| - 1], now);
      if Covers(arena[last], now) then init + [last] else init
  }

  /** Pruning keeps exactly the references whose spans cover `now`. */
  lemma {:induction false} PruneMembers(arena: seq<Span>, refs: seq<SpanRef>, now: Time)
    requires RefsIn(refs, |arena|)
    ensures forall x :: x in Prune(arena, refs, now) <==> x in refs && x < |arena| && Covers(arena[x], now)
  {
    if refs != [] {
      var last := refs[|refs| - 1];
      PruneMembers(arena, refs[..|refs| - 1], now);
      assert refs == refs[..|refs| - 1] + [last];
    }
  }

  /** Pruning distributes over concatenation: survivors keep their relative order. */
  lemma {:induction false} PruneAppend(arena: seq<Span>, a: seq<SpanRef>, b: seq<SpanRef>, now: Time)
    requires RefsIn(a, |arena|) && RefsIn(b, |arena|)
    ensures RefsIn(a + b, |arena|)
    ensures Prune(arena, a + b, now) == Prune(arena, a, now) + Prune(arena, b, now)
  {
    if b != [] {
      var b' := b[..|b| - 1];
      assert (a + b)[..|a + b| - 1] == a + b';
      PruneAppend(arena, a, b', now);
    } else {
      assert a + b == a;
    }
  }

  /** Pruning twice at the same instant removes nothing more. */
  lemma {:induction false} PruneIdempotent(arena: seq<Span>, refs: seq<SpanRef>, now: Time)
    requires RefsIn(refs, |arena|)
    ensures Prune(arena, Prune(arena, refs, now), now) == Prune(arena, refs, now)
  {
    if refs != [] {
      var init := refs[..|refs| - 1];
      var last := refs[|refs| - 1];
      PruneIdempotent(arena, init, now);
      if Covers(arena[last], now) {
        PruneAppend(arena, Prune(arena, init, now), [last], now);
        assert Prune(arena, [last], now) == [last] by {
          assert [last][..0] == [];
        }
      }
    }
  }

  /** The lanes the referenced spans lie on. */
  ghost function Lanes(arena: seq<Span>, refs: seq<SpanRef>): set<int>
    requires RefsIn(refs, |arena|)
  {
    set k | 0 <= k < |refs| :: arena[refs[k]].pos
  }

  lemma LanesAppend(arena: seq<Span>, refs: seq<SpanRef>, r: SpanRef)
    requires RefsIn(refs, |arena|) && r < |arena|
    ensures Lanes(arena, refs + [r]) == Lanes(arena, refs) + {arena[r].pos}
  {
    var s := refs + [r];
    assert arena[s[|refs|]].pos == arena[r].pos;
    forall p | p in Lanes(arena, refs) ensures p in Lanes(arena, s) {
      var k :| 0 <= k < |refs| && arena[refs[k]].pos == p;
      assert s[k] == refs[k];
    }
  }

  /** `lanes` holds exactly the lanes of the spans a list refers to. */
  ghost predicate LanesOf(arena: seq<Span>, refs: seq<SpanRef>, lanes: seq<int>)
    requires RefsIn(refs, |arena|)
  {
    forall p :: p in lanes <==> exists k :: 0 <= k < |refs| && arena[refs[k]].pos == p
  }

  // --- cleanup ---

  /** The buckets cleanup keeps: those ending no earlier than `limit`. */
  function Unexpired(buckets: map<Time, SpanBucket>, limit: Time): (r: map<Time, SpanBucket>)
    ensures forall t :: t in r <==> t in buckets && !(buckets[t].end < limit)
    ensures forall t :: t in r ==> r[t] == buckets[t]
  {
    map t | t in buckets && !(buckets[t].end < limit) :: buckets[t]
  }

  /** Dropping buckets keeps a store valid. */
  lemma UnexpiredValid(store: Store, limit: Time)
    requires StoreValid(store)
    ensures StoreValid(Store(store.arena, Unexpired(store.buckets, limit)))
  {
  }

  /** The bucket image at `t` covers only time before `limit`. */
  predicate ImageExpired(t: Time, bucketSize: Duration, limit: Time)
  {
    t + bucketSize < limit
  }

  ghost function Elements<T>(s: seq<T>): set<T>
  {
    set k | 0 <= k < |s| :: s[k]
  }

  /**
   * cleanup moving the images of the buckets `freed`, in that order, from
   * `cached` to the end of the pool; the ready flags are left as they were.
   */
  function Release(c: Cache, freed: seq<Time>): (r: Cache)
    requires Distinct(freed) && forall k :: 0 <= k < |freed| ==> freed[k] in c.cached
    ensures r.cached.Keys == c.cached.Keys - Elements(freed)
    ensures r.cachedReady == c.cachedReady && r.grid == c.grid && r.gridReady == c.gridReady
    ensures r.nextImage == c.nextImage
  {
    if freed == [] then c
    else
      var n := |freed| - 1;
      var before := Release(c, freed[..n]);
      assert freed[n] !in Elements(freed[..n]);
      assert Elements(freed) == Elements(freed[..n]) + {freed[n]};
      ReleaseOne(before, freed[n])
  }

  /**
   * Release moves exactly the images of `freed`: every other bucket keeps
   * its image, and the pool grows by the freed images in order.
   */
  lemma {:induction false} ReleaseMoves(c: Cache, freed: seq<Time>)
    requires Distinct(freed) && forall k :: 0 <= k < |freed| ==> freed[k] in c.cached
    ensures var r := Release(c, freed);
      && (forall t :: t in r.cached ==> r.cached[t] == c.cached[t])
      && r.unused == c.unused + seq(|freed|, k requires 0 <= k < |freed| => c.cached[freed[k]])
  {
    if freed != [] {
      var n := |freed| - 1;
      ReleaseMoves(c, freed[..n]);
    }
  }

  /** Release one name longer: one more step of cleanup's loop. */
  lemma ReleaseStep(c: Cache, freed: seq<Time>, k: nat)
    requires Distinct(freed) && forall m :: 0 <= m < |freed| ==> freed[m] in c.cached
    requires k < |freed|
    ensures Distinct(freed[..k]) && Distinct(freed[..k + 1])
    ensures freed[k] in Release(c, freed[..k]).cached
    ensures Release(c, freed[..k + 1]) == ReleaseOne(Release(c, freed[..k]), freed[k])
  {
    assert freed[..k + 1][..k] == freed[..k];
  }

  /** One step of cleanup's loop: the image of bucket `t` goes to the end of the pool. */
  function ReleaseOne(c: Cache, t: Time): Cache
    requires t in c.cached
  {
    c.(unused := c.unused + [c.cached[t]], cached := c.cached - {t})
  }

  lemma ReleaseOneDiscipline(c: Cache, disposed: set<Image>, t: Time)
    requires PoolDiscipline(c, disposed) && t in c.cached
    ensures PoolDiscipline(ReleaseOne(c, t), disposed)
    ensures ReleaseOne(c, t).Live() == c.Live()
  {
    var r := ReleaseOne(c, t);
    var img := c.cached[t];
    assert img !in c.unused by {
      forall k | 0 <= k < |c.unused| ensures c.unused[k] != img {
      }
    }
    assert Elements(r.unused) == Elements(c.unused) + {img} by {
      assert r.unused == c.unused + [img];
      forall x | x in Elements(r.unused) ensures x in Elements(c.unused) + {img} {
        var k :| 0 <= k < |r.unused| && r.unused[k] == x;
        if k < |c.unused| {
          assert x == c.unused[k];
        }
      }
      forall x | x in Elements(c.unused) ensures x in Elements(r.unused) {
        var k :| 0 <= k < |c.unused| && c.unused[k] == x;
        assert r.unused[k] == x;
      }
      assert r.unused[|c.unused|] == img;
    }
    assert r.cached.Values == c.cached.Values - {img} by {
      forall x | x in c.cached.Values && x != img ensures x in r.cached.Values {
        var u := KeyOf(c.cached, x);
        assert r.cached[u] == x;
      }
      forall x | x in r.cached.Values ensures x in c.cached.Values && x != img {
        var u := KeyOf(r.cached, x);
        assert c.cached[u] == x;
      }
    }
    assert Distinct(r.unused) by {
      assert r.unused == c.unused + [img];
    }
  }

  /** Releasing images into the pool holds no image twice and drops none. */
  lemma {:induction false} ReleaseDiscipline(c: Cache, disposed: set<Image>, freed: seq<Time>)
    requires PoolDiscipline(c, disposed)
    requires Distinct(freed) && forall k :: 0 <= k < |freed| ==> freed[k] in c.cached
    ensures PoolDiscipline(Release(c, freed), disposed)
    ensures Release(c, freed).Live() == c.Live()
  {
    if freed != [] {
      var n := |freed| - 1;
      assert Distinct(freed[..n]);
      ReleaseDiscipline(c, disposed, freed[..n]);
      ReleaseOneDiscipline(Release(c, freed[..n]), disposed, freed[n]);
    }
  }

  /** cleanup's effect on the trail: the expired buckets gone and the images of `freed` pooled. */
  ghost function CleanupStep(s: TrailState, limit: Time, freed: seq<Time>): TrailState
    requires Distinct(freed) && forall k :: 0 <= k < |freed| ==> freed[k] in s.cache.cached
  {
    s.(store := s.store.(buckets := Unexpired(s.store.buckets, limit)), cache := Release(s.cache, freed))
  }

  /** cleanup keeps the trail valid. */
  lemma CleanupValid(s: TrailState, disposed: set<Image>, limit: Time, freed: seq<Time>)
    requires StateValid(s, disposed)
    requires Distinct(freed) && forall k :: 0 <= k < |freed| ==> freed[k] in s.cache.cached
    ensures StateValid(CleanupStep(s, limit, freed), disposed)
  {
    UnexpiredValid(s.store, limit);
    ReleaseDiscipline(s.cache, disposed, freed);
  }

  /** cleanup's first scan: the buckets that end before `limit`, in map order. */
  method ExpiredBuckets(buckets: map<Time, SpanBucket>, limit: Time) returns (remove: seq<Time>)
    ensures Enumerates(remove, set t | t in buckets && buckets[t].end < limit)
  {
    remove := [];
    var keys := buckets.Keys;
    while keys != {}
      invariant keys <= buckets.Keys && Distinct(remove)
      invariant forall t :: t in remove <==> t in buckets && t !in keys && buckets[t].end < limit
      decreases keys
    {
      var t := Pick(keys);
      keys := keys - {t};
      if buckets[t].end < limit {
        DistinctAppend(remove, t);
        remove := remove + [t];
      }
    }
    ghost var expired := set t | t in buckets && buckets[t].end < limit;
    assert forall t :: t in remove <==> t in expired;
  }

  /** cleanup's first phase: the bucket map once the buckets ending before `limit` are deleted. */
  method UnexpiredBuckets(buckets: map<Time, SpanBucket>, limit: Time) returns (kept: map<Time, SpanBucket>)
    ensures kept == Unexpired(buckets, limit)
  {
    var removeBuckets := ExpiredBuckets(buckets, limit);
    ghost var expired := set t | t in buckets && buckets[t].end < limit;
    assert forall t :: t in removeBuckets <==> t in expired;
    ghost var u := Unexpired(buckets, limit);
    kept := buckets;
    var k := 0;
    while k < |removeBuckets|
      invariant 0 <= k <= |removeBuckets|
      invariant forall t :: t in kept <==> t in buckets && t !in removeBuckets[..k]
      invariant forall t :: t in kept ==> kept[t] == buckets[t]
    {
      assert removeBuckets[..k + 1] == removeBuckets[..k] + [removeBuckets[k]];
      kept := kept - {removeBuckets[k]};
      k := k + 1;
    }
    assert removeBuckets[..k] == removeBuckets;
    forall t ensures t in kept <==> t in u {
      if t in u {
        assert t in buckets;
      }
    }
    assert kept.Keys == u.Keys;
    assert forall t :: t in kept ==> kept[t] == u[t];
    assert kept == u;
  }

  /** cleanup's second scan: the buckets whose image lies wholly before `limit`, in map order. */
  method ExpiredImages(cached: map<Time, Image>, bucketSize: Duration, limit: Time) returns (free: seq<Time>)
    ensures Enumerates(free, set t | t in cached && ImageExpired(t, bucketSize, limit))
    ensures forall k :: 0 <= k < |free| ==> free[k] in cached
  {
    free := [];
    var keys := cached.Keys;
    while keys != {}
      invariant keys <= cached.Keys && Distinct(free)
      invariant forall t :: t in free <==> t in cached && t !in keys && ImageExpired(t, bucketSize, limit)
      decreases keys
    {
      var t := Pick(keys);
      keys := keys - {t};
      if ImageExpired(t, bucketSize, limit) {
        DistinctAppend(free, t);
        free := free + [t];
      }
    }
    ghost var expired := set t | t in cached && ImageExpired(t, bucketSize, limit);
    assert forall t :: t in free <==> t in expired;
    assert forall k :: 0 <= k < |free| ==> free[k] in free;
  }

  /**
   * Releasing exactly the expired images keeps the unexpired ones in place
   * and appends exactly the expired ones to the pool.
   */
  lemma ReleaseExpiredSplits(c: Cache, bucketSize: Duration, limit: Time, free: seq<Time>)
    requires Enumerates(free, set t | t in c.cached && ImageExpired(t, bucketSize, limit))
    requires forall k :: 0 <= k < |free| ==> free[k] in c.cached
    ensures var r := Release(c, free);
      && (forall t :: t in r.cached <==> t in c.cached && !ImageExpired(t, bucketSize, limit))
      && (forall t :: t in r.cached ==> r.cached[t] == c.cached[t])
      && |c.unused| <= |r.unused| && r.unused[..|c.unused|] == c.unused
      && (forall i :: |c.unused| <= i < |r.unused| ==>
            exists t :: t in c.cached && ImageExpired(t, bucketSize, limit) && r.unused[i] == c.cached[t])
      && (forall t :: t in c.cached && ImageExpired(t, bucketSize, limit) ==> c.cached[t] in r.unused[|c.unused|..])
  {
    var r := Release(c, free);
    ReleaseMoves(c, free);
    var moved := seq(|free|, j requires 0 <= j < |free| => c.cached[free[j]]);
    assert r.unused == c.unused + moved;
    assert r.unused[|c.unused|..] == moved;
    forall t | t in c.cached && ImageExpired(t, bucketSize, limit)
      ensures c.cached[t] in r.unused[|c.unused|..]
    {
      assert t in set u | u in c.cached && ImageExpired(u, bucketSize, limit);
      assert t in free;
      var j :| 0 <= j < |free| && free[j] == t;
      assert moved[j] == c.cached[t];
    }
    forall i | |c.unused| <= i < |r.unused|
      ensures exists t :: t in c.cached && ImageExpired(t, bucketSize, limit) && r.unused[i] == c.cached[t]
    {
      assert r.unused[i] == moved[i - |c.unused|];
      assert free[i - |c.unused|] in free;
    }
    forall t ensures t in r.cached <==> t in c.cached && !ImageExpired(t, bucketSize, limit)
    {
      assert t in Elements(free) <==> t in free;
    }
  }

  /**
   * cleanup's second phase: the image map and pool once the images of the
   * buckets wholly before `limit` are moved to the pool, in the map order
   * `free`.
   */
  method ReleaseExpired(c: Cache, bucketSize: Duration, limit: Time)
    returns (images: map<Time, Image>, pool: seq<Image>, ghost free: seq<Time>)
    ensures Enumerates(free, set t | t in c.cached && ImageExpired(t, bucketSize, limit))
    ensures forall k :: 0 <= k < |free| ==> free[k] in c.cached
    ensures c.(cached := images, unused := pool) == Release(c, free)
    ensures forall t :: t in images <==> t in c.cached && !ImageExpired(t, bucketSize, limit)
    ensures forall t :: t in images ==> images[t] == c.cached[t]
    ensures |c.unused| <= |pool| && pool[..|c.unused|] == c.unused
    ensures forall i :: |c.unused| <= i < |pool| ==>
      exists t :: t in c.cached && ImageExpired(t, bucketSize, limit) && pool[i] == c.cached[t]
    ensures forall t :: t in c.cached && ImageExpired(t, bucketSize, limit) ==> c.cached[t] in pool[|c.unused|..]
  {
    var freeCached := ExpiredImages(c.cached, bucketSize, limit);
    images, pool := c.cached, c.unused;
    var k := 0;
    while k < |freeCached|
      invariant 0 <= k <= |freeCached|
      invariant c.(cached := images, unused := pool) == Release(c, freeCached[..k])
    {
      var t := freeCached[k];
      ReleaseStep(c, freeCached, k);
      pool := pool + [images[t]];
      images := images - {t};
      k := k + 1;
    }
    assert freeCached[..k] == freeCached;
    free := freeCached;
    ReleaseExpiredSplits(c, bucketSize, limit, free);
  }

  // --- getCached ---

  /** getCached's `if cached[t] == nil { cached[t] = allocateImage() }`. */
  function PrepareImage(c: Cache, t: Time): Cache
  {
    if t in c.cached then c
    else
      var a := Allocate(c);
      a.cache.(cached := a.cache.cached[t := a.image])
  }

  /** getGrid's bookkeeping: allocate the grid if there is none, and mark it drawn. */
  function PrepareGrid(c: Cache): Cache
  {
    if c.gridReady then c
    else if c.grid.Some? then c.(gridReady := true)
    else
      var a := Allocate(c);
      a.cache.(grid := Some(a.image), gridReady := true)
  }

  /** The cache once getCached has an image for bucket `t` and a drawn grid, before drawing spans. */
  function Prepare(c: Cache, t: Time): Cache
  {
    PrepareGrid(PrepareImage(c, t))
  }

  /**
   * Preparing bucket `t` gives it an image and a drawn grid, takes images
   * only from the pool or fresh, and leaves every other bucket's image and
   * ready flag alone.
   */
  lemma {:induction false} PrepareDiscipline(c: Cache, disposed: set<Image>, t: Time)
    requires PoolDiscipline(c, disposed)
    ensures var r := Prepare(c, t);
      && t in r.cached && r.grid.Some? && r.gridReady
      && (t in c.cached ==> r.cached[t] == c.cached[t])
      && (forall u :: u != t ==> (u in r.cached <==> u in c.cached))
      && (forall u :: u != t && u in c.cached ==> r.cached[u] == c.cached[u])
      && r.cachedReady == c.cachedReady
      && PoolDiscipline(r, disposed)
  {
    PrepareImageDiscipline(c, disposed, t);
    PrepareGridDiscipline(PrepareImage(c, t), disposed);
  }

  lemma PrepareImageDiscipline(c: Cache, disposed: set<Image>, t: Time)
    requires PoolDiscipline(c, disposed)
    ensures var r := PrepareImage(c, t);
      && t in r.cached && (t in c.cached ==> r.cached[t] == c.cached[t])
      && (forall u :: u != t ==> (u in r.cached <==> u in c.cached))
      && (forall u :: u != t && u in c.cached ==> r.cached[u] == c.cached[u])
      && r.cachedReady == c.cachedReady && r.grid == c.grid && r.gridReady == c.gridReady
      && PoolDiscipline(r, disposed)
  {
    var c1 := PrepareImage(c, t);
    if t !in c.cached {
      AllocateFresh(c, disposed);
      var a := Allocate(c);
      assert c1.cached.Values == a.cache.cached.Values + {a.image} by {
        forall x | x in c1.cached.Values ensures x in a.cache.cached.Values + {a.image} {
          var u := KeyOf(c1.cached, x);
          if u != t {
            assert a.cache.cached[u] == x;
          }
        }
        forall x | x in a.cache.cached.Values ensures x in c1.cached.Values {
          var u := KeyOf(a.cache.cached, x);
          assert c1.cached[u] == x;
        }
        assert c1.cached[t] == a.image;
      }
      assert c1.Live() == a.cache.Live() + {a.image};
      assert forall u :: u in a.cache.cached ==> a.cache.cached[u] != a.image;
    }
  }

  lemma PrepareGridDiscipline(c: Cache, disposed: set<Image>)
    requires PoolDiscipline(c, disposed)
    ensures var r := PrepareGrid(c);
      && r.grid.Some? && r.gridReady && r.cached == c.cached && r.cachedReady == c.cachedReady
      && (c.grid.Some? ==> r.grid == c.grid)
      && PoolDiscipline(r, disposed)
  {
    if !c.gridReady && c.grid.None? {
      AllocateFresh(c, disposed);
      var a := Allocate(c);
      assert PrepareGrid(c).Live() == a.cache.Live() + {a.image};
    }
  }

  /** A bucket's spans that meet [from, to], in list order. */
  function InRangeSpans(spans: seq<Span>, from: Time, to: Time): seq<Span>
  {
    if spans == [] then []
    else
      var last := spans[|spans| - 1];
      InRangeSpans(spans[..|spans| - 1], from, to) + (if last.InRange(from, to) then [last] else [])
  }

  /** The span filter keeps exactly the spans meeting [from, to]. */
  lemma {:induction false} InRangeSpansMembers(spans: seq<Span>, from: Time, to: Time)
    ensures forall x :: x in InRangeSpans(spans, from, to) <==> x in spans && x.InRange(from, to)
  {
    if spans != [] {
      var last := spans[|spans| - 1];
      InRangeSpansMembers(spans[..|spans| - 1], from, to);
      assert spans == spans[..|spans| - 1] + [last];
    }
  }

  /** The spans bucket `u` contributes to the image of [from, to]. */
  function BucketWindow(store: Store, u: Time, from: Time, to: Time): seq<Span>
    requires StoreValid(store) && u in store.buckets
  {
    var b := store.buckets[u];
    if b.InRange(from, to) then InRangeSpans(Deref(store.arena, b.spans), from, to) else []
  }

  /** `order` lists buckets of the store, none twice. */
  ghost predicate Visits(store: Store, order: seq<Time>)
  {
    Distinct(order) && forall k :: 0 <= k < |order| ==> order[k] in store.buckets
  }

  /** Some bucket holds a span outside it: getCached ends in log.Fatalf. */
  ghost predicate Rejects(store: Store)
    requires StoreValid(store)
  {
    exists u :: u in store.buckets && Validate(store.buckets[u], Deref(store.arena, store.buckets[u].spans)).Some?
  }

  /** The spans getCached collects, visiting the buckets in `order`. */
  function WindowSpans(store: Store, order: seq<Time>, from: Time, to: Time): seq<Span>
    requires StoreValid(store) && forall k :: 0 <= k < |order| ==> order[k] in store.buckets
  {
    if order == [] then []
    else
      WindowSpans(store, order[..|order| - 1], from, to) + BucketWindow(store, order[|order| - 1], from, to)
  }

  /** A span of some bucket, as found through the bucket's list. */
  ghost predicate InStore(store: Store, span: Span, u: Time)
    requires StoreValid(store)
  {
    u in store.buckets && span in Deref(store.arena, store.buckets[u].spans)
  }

  /**
   * The bucket test in getCached only saves work: visiting the buckets in
   * any order, the image of [from, to] gets exactly the spans of the visited
   * buckets that meet [from, to].
   */
  lemma {:induction false} WindowSpansExact(store: Store, order: seq<Time>, from: Time, to: Time)
    requires StoreValid(store) && forall k :: 0 <= k < |order| ==> order[k] in store.buckets
    ensures forall x :: x in WindowSpans(store, order, from, to) <==>
      x.InRange(from, to) && exists k :: 0 <= k < |order| && InStore(store, x, order[k])
  {
    if order != [] {
      var n := |order| - 1;
      var u := order[n];
      WindowSpansExact(store, order[..n], from, to);
      var b := store.buckets[u];
      var spans := Deref(store.arena, b.spans);
      InRangeSpansMembers(spans, from, to);
      forall x | x in spans && x.InRange(from, to) ensures b.InRange(from, to) {
        var j :| 0 <= j < |spans| && spans[j] == x;
        assert Covered(b, store.arena, b.spans[j]);
      }
      forall x ensures x in WindowSpans(store, order, from, to) <==>
        x.InRange(from, to) && exists k :: 0 <= k < |order| && InStore(store, x, order[k])
      {
        if x.InRange(from, to) && InStore(store, x, u) {
          assert x in BucketWindow(store, u, from, to);
        }
        if exists k :: 0 <= k < n && InStore(store, x, order[..n][k]) {
          var k :| 0 <= k < n && InStore(store, x, order[..n][k]);
          assert InStore(store, x, order[k]);
        }
        if exists k :: 0 <= k < |order| && InStore(store, x, order[k]) {
          var k :| 0 <= k < |order| && InStore(store, x, order[k]);
          if k < n {
            assert order[..n][k] == order[k];
          }
        }
      }
    }
  }

  /** Visiting the buckets of `a` and then those of `b` collects the two windows one after the other. */
  lemma {:induction false} WindowSpansAppend(store: Store, a: seq<Time>, b: seq<Time>, from: Time, to: Time)
    requires StoreValid(store)
    requires forall k :: 0 <= k < |a| ==> a[k] in store.buckets
    requires forall k :: 0 <= k < |b| ==> b[k] in store.buckets
    ensures forall k :: 0 <= k < |a + b| ==> (a + b)[k] in store.buckets
    ensures WindowSpans(store, a + b, from, to) == WindowSpans(store, a, from, to) + WindowSpans(store, b, from, to)
  {
    assert forall k :: 0 <= k < |a + b| ==> (a + b)[k] in store.buckets by {
      forall k | 0 <= k < |a + b| ensures (a + b)[k] in store.buckets {
        if k >= |a| { assert (a + b)[k] == b[k - |a|]; }
      }
    }
    if b != [] {
      var n := |b| - 1;
      assert (a + b)[..|a + b| - 1] == a + b[..n];
      assert (a + b)[|a + b| - 1] == b[n];
      WindowSpansAppend(store, a, b[..n], from, to);
    } else {
      assert a + b == a;
    }
  }

  /** Cutting the visit order at `j` splits the window around the spans of bucket `order[j]`. */
  lemma WindowSpansSplit(store: Store, order: seq<Time>, j: nat, front: seq<Time>, back: seq<Time>, from: Time, to: Time)
    requires StoreValid(store) && j < |order| && front == order[..j] && back == order[j + 1..]
    requires forall k :: 0 <= k < |order| ==> order[k] in store.buckets
    ensures forall k :: 0 <= k < |front| ==> front[k] in store.buckets
    ensures forall k :: 0 <= k < |back| ==> back[k] in store.buckets
    ensures WindowSpans(store, order, from, to)
      == WindowSpans(store, front, from, to) + BucketWindow(store, order[j], from, to) + WindowSpans(store, back, from, to)
  {
    var x := order[j];
    assert order == front + [x] + back;
    assert forall k :: 0 <= k < |front| ==> front[k] == order[k];
    assert forall k :: 0 <= k < |back| ==> back[k] == order[j + 1 + k];
    WindowSpansAppend(store, front, [x], from, to);
    WindowSpansAppend(store, front + [x], back, from, to);
    assert WindowSpans(store, [x], from, to) == BucketWindow(store, x, from, to) by {
      assert [x][..0] == [];
    }
  }

  /** Putting bucket `order[j]` back at its place in a reordering of the rest keeps the multiset of spans. */
  lemma WindowSpansReinsert(store: Store, order: seq<Time>, j: nat, rest: seq<Time>, p: seq<Time>, from: Time, to: Time)
    requires StoreValid(store) && j < |order| && rest == order[..j] + order[j + 1..]
    requires forall k :: 0 <= k < |order| ==> order[k] in store.buckets
    requires forall k :: 0 <= k < |rest| ==> rest[k] in store.buckets
    requires forall k :: 0 <= k < |p| ==> p[k] in store.buckets
    requires multiset(WindowSpans(store, p, from, to)) == multiset(WindowSpans(store, rest, from, to))
    ensures multiset(WindowSpans(store, p, from, to) + BucketWindow(store, order[j], from, to))
      == multiset(WindowSpans(store, order, from, to))
  {
    WindowSpansSplit(store, order, j, order[..j], order[j + 1..], from, to);
    WindowSpansAppend(store, order[..j], order[j + 1..], from, to);
    MultisetMove(WindowSpans(store, p, from, to), WindowSpans(store, order[..j], from, to),
      BucketWindow(store, order[j], from, to), WindowSpans(store, order[j + 1..], from, to));
  }

  /** Visiting the same buckets in another order collects the same spans, as a multiset. */
  lemma {:induction false} WindowSpansPermute(store: Store, o1: seq<Time>, o2: seq<Time>, from: Time, to: Time)
    requires StoreValid(store)
    requires forall k :: 0 <= k < |o1| ==> o1[k] in store.buckets
    requires forall k :: 0 <= k < |o2| ==> o2[k] in store.buckets
    requires multiset(o1) == multiset(o2)
    ensures multiset(WindowSpans(store, o1, from, to)) == multiset(WindowSpans(store, o2, from, to))
  {
    if o1 != [] {
      var n := |o1| - 1;
      var x, p := o1[n], o1[..n];
      assert o1 == p + [x];
      assert x in multiset(o2);
      var j :| 0 <= j < |o2| && o2[j] == x;
      var rest := o2[..j] + o2[j + 1..];
      MultisetRemove(o2, j, p);
      WindowSpansSplit(store, o2, j, o2[..j], o2[j + 1..], from, to);
      WindowSpansAppend(store, o2[..j], o2[j + 1..], from, to);
      WindowSpansPermute(store, p, rest, from, to);
      WindowSpansReinsert(store, o2, j, rest, p, from, to);
    }
  }

  /** Two visits of all the buckets, in any two map orders, collect the same spans. */
  lemma WindowSpansVisitOrder(store: Store, o1: seq<Time>, o2: seq<Time>, from: Time, to: Time)
    requires StoreValid(store)
    requires Enumerates(o1, store.buckets.Keys) && Enumerates(o2, store.buckets.Keys)
    ensures (forall k :: 0 <= k < |o1| ==> o1[k] in store.buckets) && (forall k :: 0 <= k < |o2| ==> o2[k] in store.buckets)
    ensures multiset(WindowSpans(store, o1, from, to)) == multiset(WindowSpans(store, o2, from, to))
  {
    assert forall k :: 0 <= k < |o1| ==> o1[k] in o1;
    assert forall k :: 0 <= k < |o2| ==> o2[k] in o2;
    EnumerationsPermute(o1, o2, store.buckets.Keys);
    WindowSpansPermute(store, o1, o2, from, to);
  }

  /** Whatever map order getCached visits the buckets in, each span gets the same sub-lane draw. */
  lemma LayoutVisitOrder(store: Store, o1: seq<Time>, o2: seq<Time>, from: Time, to: Time, i: nat, j: nat)
    requires StoreValid(store)
    requires Enumerates(o1, store.buckets.Keys) && Enumerates(o2, store.buckets.Keys)
    ensures (forall k :: 0 <= k < |o1| ==> o1[k] in store.buckets) && (forall k :: 0 <= k < |o2| ==> o2[k] in store.buckets)
    ensures (i < |WindowSpans(store, o1, from, to)| && j < |WindowSpans(store, o2, from, to)|
             && WindowSpans(store, o1, from, to)[i] == WindowSpans(store, o2, from, to)[j]) ==>
      Layout(WindowSpans(store, o1, from, to))[i] == Layout(WindowSpans(store, o2, from, to))[j]
  {
    WindowSpansVisitOrder(store, o1, o2, from, to);
    var w1, w2 := WindowSpans(store, o1, from, to), WindowSpans(store, o2, from, to);
    if i < |w1| && j < |w2| && w1[i] == w2[j] {
      LayoutOrderIndependent(w1, w2, i, j);
    }
  }

  /** A bucket whose spans all run forwards (start not after end) passes Validate. */
  lemma ValidBucketPasses(store: Store, u: Time)
    requires StoreValid(store) && u in store.buckets
    requires forall k :: 0 <= k < |store.buckets[u].spans| ==>
      store.arena[store.buckets[u].spans[k]].start <= store.arena[store.buckets[u].spans[k]].end
    ensures Validate(store.buckets[u], Deref(store.arena, store.buckets[u].spans)).None?
  {
    var b := store.buckets[u];
    forall k | 0 <= k < |b.spans| ensures !OutOfBucket(b, Deref(store.arena, b.spans)[k]) {
      assert Covered(b, store.arena, b.spans[k]);
    }
  }

  // --- drawSpan's pixel checks ---

  /** drawSpan's "too short" threshold, in rows. */
  const TooShort: real := 0.000001

  /** A span that does not run forward: it ends at or before its start. */
  predicate Degenerate(span: Span)
  {
    span.end <= span.start
  }

  /**
   * The part of `span` inside the window [from, to] is empty or a single
   * instant: the earlier of its end and `to` is not after the later of its
   * start and `from`. Every degenerate span is hidden (DegenerateHidden);
   * so is a collected span that starts exactly at `to` or ends exactly at
   * `from`, the window edges InRange includes.
   */
  predicate Hidden(span: Span, from: Time, to: Time)
  {
    (if span.end < to then span.end else to) <= (if span.start > from then span.start else from)
  }

  /** Some span of the list is hidden in the window [from, to]. */
  ghost predicate HasHidden(spans: seq<Span>, from: Time, to: Time)
  {
    exists k :: 0 <= k < |spans| && Hidden(spans[k], from, to)
  }

  /** A degenerate span is hidden in every window. */
  lemma DegenerateHidden(span: Span, from: Time, to: Time)
    requires Degenerate(span)
    ensures Hidden(span, from, to)
  {
  }

  /**
   * The rows drawSpan computes for `span` in the image of the bucket ending
   * at `bucketEnd`, at `scale` rows per nanosecond, in an image `height`
   * rows tall: the top (from the start) clamped to the height, the bottom
   * (from the end) clamped at zero. Floats are modelled as reals.
   */
  function SpanRows(span: Span, bucketEnd: Time, scale: real, height: real): (real, real)
  {
    var top := (bucketEnd - span.start) as real * scale;
    var bottom := (bucketEnd - span.end) as real * scale;
    (if top < height then top else height, if bottom > 0.0 then bottom else 0.0)
  }

  /** drawSpan's four log.Fatalf checks, on the rows of a span. */
  predicate RowsRejected(rows: (real, real), height: real)
  {
    rows.0 < 0.0 || rows.1 > height || rows.1 > rows.0 || rows.0 - rows.1 < TooShort
  }

  /** `a <= b` scaled by a positive factor stays `a * c <= b * c`. */
  lemma ScaleMonotone(a: real, b: real, c: real)
    requires a <= b && c > 0.0
    ensures a * c <= b * c
  {
    assert (b - a) * c >= 0.0;
  }

  /** A degenerate span fails one of drawSpan's checks, whatever the scale and the image height. */
  lemma DegenerateRejected(span: Span, bucketEnd: Time, scale: real, height: real)
    requires Degenerate(span) && scale > 0.0 && height >= 0.0
    ensures RowsRejected(SpanRows(span, bucketEnd, scale, height), height)
  {
    ScaleMonotone((bucketEnd - span.start) as real, (bucketEnd - span.end) as real, scale);
  }

  /**
   * A collected span hidden in the window [from, to] fails one of drawSpan's
   * checks when it is drawn into that window's image, whatever the scale, as
   * long as the image is no taller than the window: its height is the
   * window's length in rows rounded down to an integer. A span starting at
   * `to` gets rows (0, 0) and is too short; a span ending at `from` gets a
   * bottom row of the window's full length, which lies below the image or
   * on its last row, next to a top row clamped to the same row.
   */
  lemma HiddenRejected(span: Span, from: Time, to: Time, scale: real, height: real)
    requires span.InRange(from, to) && Hidden(span, from, to)
    requires scale > 0.0 && 0.0 <= height <= (to - from) as real * scale
    ensures RowsRejected(SpanRows(span, to, scale, height), height)
  {
    if Degenerate(span) {
      DegenerateRejected(span, to, scale, height);
    } else if span.start == to {
      ScaleMonotone((to - span.end) as real, 0.0, scale);
    } else if span.end == from {
      ScaleMonotone((to - span.end) as real, (to - span.start) as real, scale);
    } else {
      // an empty window: the image has no rows at all
      assert from == to;
      ScaleMonotone((to - span.end) as real, 0.0, scale);
    }
  }

  /**
   * Conversely, a forward span whose rows lie inside the image and are at
   * least TooShort apart passes every check.
   */
  lemma ForwardAccepted(span: Span, bucketEnd: Time, scale: real, height: real)
    requires scale > 0.0
    requires 0.0 <= (bucketEnd - span.end) as real * scale
    requires (bucketEnd - span.start) as real * scale <= height
    requires (bucketEnd - span.start) as real * scale - (bucketEnd - span.end) as real * scale >= TooShort
    ensures !RowsRejected(SpanRows(span, bucketEnd, scale, height), height)
  {
  }

  /** Whatever order the buckets are visited in, the window holds a hidden span or it does not. */
  lemma HiddenVisitOrder(store: Store, o1: seq<Time>, o2: seq<Time>, from: Time, to: Time)
    requires StoreValid(store)
    requires Enumerates(o1, store.buckets.Keys) && Enumerates(o2, store.buckets.Keys)
    ensures (forall k :: 0 <= k < |o1| ==> o1[k] in store.buckets) && (forall k :: 0 <= k < |o2| ==> o2[k] in store.buckets)
    ensures HasHidden(WindowSpans(store, o1, from, to), from, to) <==> HasHidden(WindowSpans(store, o2, from, to), from, to)
  {
    WindowSpansVisitOrder(store, o1, o2, from, to);
    var w1, w2 := WindowSpans(store, o1, from, to), WindowSpans(store, o2, from, to);
    if HasHidden(w1, from, to) {
      var k :| 0 <= k < |w1| && Hidden(w1[k], from, to);
      assert w1[k] in multiset(w2);
      var j :| 0 <= j < |w2| && w2[j] == w1[k];
    }
    if HasHidden(w2, from, to) {
      var k :| 0 <= k < |w2| && Hidden(w2[k], from, to);
      assert w2[k] in multiset(w1);
      var j :| 0 <= j < |w1| && w1[j] == w2[k];
    }
  }

  /**
   * The drawing loop's checks on each span of the window [from, to]: whether
   * some span is hidden there and so ends in log.Fatalf (HiddenRejected).
   */
  method FindHidden(spans: seq<Span>, from: Time, to: Time) returns (found: bool)
    ensures found <==> HasHidden(spans, from, to)
  {
    found := false;
    var i := 0;
    while i < |spans| && !found
      invariant 0 <= i <= |spans|
      invariant found <==> exists k :: 0 <= k < i && Hidden(spans[k], from, to)
    {
      found := Hidden(spans[i], from, to);
      i := i + 1;
    }
  }

  /**
   * getCached's scan: every bucket is validated, and the spans meeting
   * [from, to] are gathered from the buckets that do, in the map order
   * `order` the buckets were visited in.
   */
  method CollectSpans(store: Store, from: Time, to: Time) returns (spans: seq<Span>, fatal: bool, ghost order: seq<Time>)
    requires StoreValid(store)
    ensures Visits(store, order) && (fatal <==> Rejects(store))
    ensures !fatal ==> Enumerates(order, store.buckets.Keys) && spans == WindowSpans(store, order, from, to)
  {
    spans := [];
    var keys := store.buckets.Keys;
    order := [];
    while keys != {}
      invariant keys <= store.buckets.Keys && Distinct(order)
      invariant forall k :: 0 <= k < |order| ==> order[k] in store.buckets
      invariant forall u :: u in order <==> u in store.buckets && u !in keys
      invariant spans == WindowSpans(store, order, from, to)
      invariant forall u :: u in order ==> Validate(store.buckets[u], Deref(store.arena, store.buckets[u].spans)).None?
      decreases keys
    {
      var u := Pick(keys);
      keys := keys - {u};
      assert (order + [u])[..|order|] == order;
      DistinctAppend(order, u);
      order := order + [u];
      var bucket := store.buckets[u];
      if Validate(bucket, Deref(store.arena, bucket.spans)).Some? {
        return spans, true, order;
      }
      if !bucket.InRange(from, to) {
        continue;
      }
      var found := SpansInRange(store.arena, bucket, from, to);
      spans := spans + found;
    }
    fatal := false;
  }

  /** getCached's inner loop: the spans of one bucket meeting [from, to], in the bucket's order. */
  method SpansInRange(arena: seq<Span>, bucket: SpanBucket, from: Time, to: Time) returns (found: seq<Span>)
    requires RefsIn(bucket.spans, |arena|)
    ensures found == InRangeSpans(Deref(arena, bucket.spans), from, to)
  {
    ghost var bucketSpans := Deref(arena, bucket.spans);
    found := [];
    var i := 0;
    while i < |bucket.spans|
      invariant 0 <= i <= |bucket.spans|
      invariant found == InRangeSpans(bucketSpans[..i], from, to)
    {
      var span := arena[bucket.spans[i]];
      assert bucketSpans[..i + 1][..i] == bucketSpans[..i];
      if span.InRange(from, to) {
        found := found + [span];
      }
      i := i + 1;
    }
    assert bucketSpans[..i] == bucketSpans;
  }

  datatype Frame = Frame(bucketTime: Time, image: Option<Image>)

  function Lookup(m: map<Time, Image>, t: Time): Option<Image>
  {
    if t in m then Some(m[t]) else None
  }

  /** Frames newest first, from the bucket at `first`, one bucket size apart. */
  ghost predicate Walk(frames: seq<Frame>, first: Time, step: Duration)
  {
    && (|frames| > 0 ==> frames[0].bucketTime == first)
    && (forall k :: 0 < k < |frames| ==> frames[k].bucketTime == frames[k - 1].bucketTime - step)
  }

  /** The bucket the walk visits after `frames`. */
  function NextTime(frames: seq<Frame>, first: Time, step: Duration): Time
  {
    if |frames| == 0 then first else frames[|frames| - 1].bucketTime - step
  }

  /** Every frame shows its bucket's current image, and that bucket is ready. */
  ghost predicate FramesCurrent(c: Cache, frames: seq<Frame>)
  {
    forall k :: 0 <= k < |frames| ==>
      c.Ready(frames[k].bucketTime) && frames[k].image == Lookup(c.cached, frames[k].bucketTime)
  }

  /** Extending the walk by the bucket it visits next; every earlier frame is newer. */
  lemma WalkStep(frames: seq<Frame>, first: Time, step: Duration, image: Option<Image>)
    requires Walk(frames, first, step) && step > 0
    ensures var t := NextTime(frames, first, step);
      && Walk(frames + [Frame(t, image)], first, step)
      && NextTime(frames + [Frame(t, image)], first, step) == t - step
      && forall k :: 0 <= k < |frames| ==> frames[k].bucketTime > t
  {
    var t := NextTime(frames, first, step);
    if frames != [] {
      WalkNewer(frames, first, step, |frames| - 1);
    }
  }

  /** In a walk, each frame is newer than every later one. */
  lemma {:induction false} WalkNewer(frames: seq<Frame>, first: Time, step: Duration, n: nat)
    requires Walk(frames, first, step) && step > 0 && n < |frames|
    ensures forall k :: 0 <= k < n ==> frames[k].bucketTime > frames[n].bucketTime
  {
    if n > 0 {
      WalkNewer(frames, first, step, n - 1);
    }
  }

  /** Rendering a bucket older than every frame keeps the frames current and adds its own. */
  lemma FramesSurvive(c: Cache, disposed: set<Image>, frames: seq<Frame>, t: Time)
    requires PoolDiscipline(c, disposed) && FramesCurrent(c, frames)
    requires forall k :: 0 <= k < |frames| ==> frames[k].bucketTime > t
    ensures var r := Rendered(c, t);
      FramesCurrent(r, frames + [Frame(t, Lookup(r.cached, t))])
  {
    RenderedFrame(c, disposed, t);
  }

  /** The cache once getCached(t) has returned without a fatal error. */
  function Rendered(c: Cache, t: Time): Cache
  {
    if c.Ready(t) then c else Prepare(c, t).(cachedReady := c.cachedReady[t := true])
  }

  /**
   * getCached(t) leaves bucket t ready, with an image unless it was
   * already ready, and every other bucket's image and ready flag alone.
   */
  lemma RenderedFrame(c: Cache, disposed: set<Image>, t: Time)
    requires PoolDiscipline(c, disposed)
    ensures var r := Rendered(c, t);
      && PoolDiscipline(r, disposed) && PoolDiscipline(Prepare(c, t), disposed) && r.Ready(t)
      && (!c.Ready(t) ==> Lookup(r.cached, t).Some?)
      && (forall u :: u != t ==> Lookup(r.cached, u) == Lookup(c.cached, u) && (r.Ready(u) <==> c.Ready(u)))
  {
    PrepareDiscipline(c, disposed, t);
    var p := Prepare(c, t);
    if !c.Ready(t) {
      ReadyDiscipline(p, disposed, t);
      var r := p.(cachedReady := c.cachedReady[t := true]);
      assert Rendered(c, t) == r;
      forall u | u != t
        ensures Lookup(r.cached, u) == Lookup(c.cached, u) && (r.Ready(u) <==> c.Ready(u))
      {
        assert u in r.cached <==> u in c.cached;
      }
    }
  }

  // ---------------------------------------------------------------------
  // The trail object. Each method runs under the trail's mutex in Go, so
  // each is one atomic step here; `now` stands for time.Now().
  // ---------------------------------------------------------------------

  class Trail {
    const bucketSize: Duration
    const length: Duration

    /** Every span ever recorded, indexed by SpanRef; Go's heap of *Span. */
    var arena: seq<Span>
    var buckets: map<Time, SpanBucket>
    var minPos: int
    var maxPos: int
    var active: seq<SpanRef>

    var cached: map<Time, Image>
    var cachedReady: map<Time, bool>
    var grid: Option<Image>
    var gridReady: bool
    var unused: seq<Image>
    var gridSteps: int

    /** The token ebiten.NewImage hands out next. */
    var nextImage: nat
    /** Images given to the deferred Dispose goroutines of resetAll. */
    ghost var disposed: set<Image>

    function StoreOf(): Store
      reads this
    {
      Store(arena, buckets)
    }

    function CacheOf(): Cache
      reads this
    {
      Cache(cached, cachedReady, grid, gridReady, unused, nextImage)
    }

    ghost function State(): TrailState
      reads this
    {
      TrailState(StoreOf(), minPos, maxPos, active, CacheOf(), gridSteps)
    }

    ghost predicate Valid()
      reads this
    {
      bucketSize > 0 && StateValid(State(), disposed)
    }

    /** NewTrail: no buckets, an empty cache, lanes 0..0, four grid steps. */
    constructor (bucketSize: Duration, length: Duration)
      requires bucketSize > 0
      ensures Valid() && this.bucketSize == bucketSize && this.length == length
      ensures State() == TrailState(Store([], map[]), 0, 0, [], Cache(map[], map[], None, false, [], 0), DefaultGridSteps)
      ensures disposed == {}
    {
      this.bucketSize := bucketSize;
      this.length := length;
      arena, buckets := [], map[];
      minPos, maxPos, active := 0, 0, [];
      cached, cachedReady, grid, gridReady, unused := map[], map[], None, false, [];
      gridSteps := DefaultGridSteps;
      nextImage := 0;
      disposed := {};
    }

    method RedrawBucket(bucketTime: Time)
      modifies this
      ensures State() == old(State()).(cache := old(CacheOf()).RedrawBucket(bucketTime))
      ensures disposed == old(disposed)
    {
      cachedReady := cachedReady[bucketTime := false];
    }

    method RedrawAll()
      modifies this
      ensures State() == old(State()).(cache := old(CacheOf()).RedrawAll())
      ensures disposed == old(disposed)
    {
      cachedReady := map[];
      gridReady := false;
    }

    method ResetAll()
      modifies this
      ensures State() == old(State()).(cache := old(CacheOf()).ResetAll())
      ensures disposed == old(disposed) + old(CacheOf().Live())
    {
      disposed := disposed + CacheOf().Live();
      cached := map[];
      grid := None;
      unused := [];
      RedrawAll();
    }

    method AllocateImage() returns (image: Image)
      modifies this
      ensures image == Allocate(old(CacheOf())).image
      ensures State() == old(State()).(cache := Allocate(old(CacheOf())).cache)
      ensures disposed == old(disposed)
    {
      if |unused| > 0 {
        image := unused[|unused| - 1];
        unused := unused[..|unused| - 1];
        return;
      }
      image := Image(nextImage);
      nextImage := nextImage + 1;
    }

    method Span(id: int, pos: int, d: Duration, now: Time)
      requires Valid()
      modifies this
      ensures Valid()
      ensures State() == SpanStep(old(State()), bucketSize, id, pos, d, now)
      ensures disposed == old(disposed) + SpanDisposes(old(State()), pos)
    {
      SpanStepValid(State(), disposed, bucketSize, id, pos, d, now);
      var bucketTime := Truncate(now, bucketSize);
      Extend(pos);
      var span := NewSpan(id, pos, now, d);
      Record(bucketTime, span);
    }

    /** Span's first step: widen [minPos, maxPos] to `pos`, dropping every image when it changes. */
    method Extend(pos: int)
      modifies this
      ensures var e := SpanExtent(old(State()), pos);
        State() == old(State()).(minPos := e.minPos, maxPos := e.maxPos,
                                 cache := if e.reset then old(CacheOf()).ResetAll() else old(CacheOf()))
      ensures disposed == old(disposed) + SpanDisposes(old(State()), pos)
    {
      if |buckets| == 0 {
        minPos := pos;
        maxPos := pos;
        ResetAll();
      } else if pos < minPos {
        minPos := pos;
        ResetAll();
      } else if pos > maxPos {
        maxPos := pos;
        ResetAll();
      }
    }

    /** Span's second step: the span joins the arena, its bucket (made if missing) and the active list. */
    method Record(bucketTime: Time, span: Span)
      modifies this
      ensures State() == old(State()).(
        store := Store(old(arena) + [span], InsertSpan(old(buckets), bucketTime, |old(arena)|, span.end)),
        active := old(active) + [|old(arena)|],
        cache := old(CacheOf()).RedrawBucket(bucketTime))
      ensures disposed == old(disposed)
    {
      var ref := |arena|;
      // The bucket is a pointer in Go: the one the map holds is updated in place.
      var bucket: SpanBucket;
      if bucketTime !in buckets {
        bucket := SpanBucket(bucketTime, span.end, []);
      } else {
        bucket := buckets[bucketTime];
        if span.end > bucket.end {
          bucket := bucket.(end := span.end);
        }
      }
      bucket := bucket.(spans := bucket.spans + [ref]);
      assert buckets[bucketTime := bucket] == InsertSpan(buckets, bucketTime, ref, span.end);
      arena := arena + [span];
      buckets := buckets[bucketTime := bucket];
      RedrawBucket(bucketTime);
      active := active + [ref];
    }

    /**
     * Stop: the bucket acted on, if any. Buckets are visited in map order,
     * so which one is unspecified when several hold a match.
     */
    method Stop(id: int, pos: int, now: Time) returns (ghost stopped: Option<Time>)
      requires Valid()
      modifies this
      ensures Valid()
      ensures stopped.None? ==>
        (forall t :: !StopCandidate(old(StoreOf()), t, id, pos, now)) && State() == old(State())
      ensures stopped.Some? ==>
        StopCandidate(old(StoreOf()), stopped.value, id, pos, now)
          && State() == StopStep(old(State()), bucketSize, stopped.value, id, pos, now)
      ensures disposed == old(disposed)
    {
      var hit, at := FindStop(StoreOf(), id, pos, now);
      if hit.None? {
        return None;
      }
      ShortenAt(hit.value, at, id, pos, now);
      return hit;
    }

    /** Stop acting on bucket `t`, whose first match is at index `at`. */
    method ShortenAt(t: Time, at: nat, id: int, pos: int, now: Time)
      requires Valid() && StopCandidate(StoreOf(), t, id, pos, now)
      requires FirstMatch(Deref(arena, buckets[t].spans), id, pos, now) == Some(at)
      modifies this
      ensures Valid()
      ensures State() == StopStep(old(State()), bucketSize, t, id, pos, now)
      ensures disposed == old(disposed)
    {
      var store := StoreOf();
      StopStepValid(State(), disposed, bucketSize, t, id, pos, now);
      var bucket := buckets[t];
      var ref := bucket.spans[at];
      arena := arena[ref := arena[ref].(end := now)];
      // Go defers UpdateEnd to the end of Stop; nothing reads the bucket in between.
      RedrawBucket(Truncate(now, bucketSize));
      var updated := UpdateEnd(bucket, arena);
      buckets := buckets[t := updated];
      assert StoreOf() == StopAt(store, t, id, pos, now);
    }

    method SetGridSteps(steps: int)
      requires Valid()
      modifies this
      ensures Valid()
      ensures State() == old(State()).(gridSteps := steps, cache := old(CacheOf()).RedrawAll())
      ensures disposed == old(disposed)
    {
      RedrawDiscipline(CacheOf(), disposed, 0);
      gridSteps := steps;
      RedrawAll();
    }

    /**
     * ActivePos: drop from the active list every span not covering `now`,
     * in place, and return the lanes of the rest, ascending, each once.
     */
    method ActivePos(now: Time) returns (lanes: seq<int>)
      requires Valid()
      modifies this
      ensures Valid()
      ensures State() == old(State()).(active := Prune(old(arena), old(active), now))
      ensures disposed == old(disposed)
      ensures Increasing(lanes)
      ensures LanesOf(arena, active, lanes)
    {
      var list, found := PruneActive(now);
      active := list;
      lanes := SortInts(found);
      SortDistinctIncreasing(found);
      forall p ensures p in lanes <==> p in Lanes(arena, list) {
        assert p in lanes <==> p in multiset(lanes);
        assert p in found <==> p in multiset(found);
      }
    }

    /**
     * ActivePos's loop: the active list without the spans not covering
     * `now`, and the lanes of those kept, each once, in first-seen order.
     */
    method PruneActive(now: Time) returns (list: seq<SpanRef>, found: seq<int>)
      requires RefsIn(active, |arena|)
      ensures list == Prune(arena, active, now)
      ensures Distinct(found) && forall p :: p in found <==> p in Lanes(arena, list)
    {
      list := active;
      var seen: set<int> := {};
      found := [];
      var i := 0;
      ghost var j := 0;
      ghost var kept: seq<SpanRef> := [];
      while i < |list|
        invariant PruneAt(arena, active, now, j, list, kept) && i == |kept|
        invariant LanesFound(arena, kept, seen, found)
        decreases |list| - i
      {
        PruneLoopStep(arena, active, now, j, list, kept);
        var span := arena[list[i]];
        if !Covers(span, now) {
          list := list[..i] + list[i + 1..];
        } else {
          LanesFoundStep(arena, kept, list[i], seen, found);
          if span.pos !in seen {
            seen := seen + {span.pos};
            found := found + [span.pos];
          }
          kept := kept + [list[i]];
          i := i + 1;
        }
        j := j + 1;
      }
      PruneDone(arena, active, now, j, list, kept);
    }

    /**
     * cleanup at time `now`: the buckets ending before now - length go; the
     * images of buckets wholly before it move to the pool, in the order
     * `freed` (map order).
     */
    method Cleanup(now: Time) returns (ghost freed: seq<Time>)
      requires Valid()
      modifies this
      ensures Valid()
      ensures Enumerates(freed, set t | t in old(cached) && ImageExpired(t, bucketSize, now - length))
      ensures forall k :: 0 <= k < |freed| ==> freed[k] in old(cached)
      ensures State() == CleanupStep(old(State()), now - length, freed)
      ensures disposed == old(disposed)
    {
      var limit := now - length;
      var kept := UnexpiredBuckets(buckets, limit);
      var images, pool;
      images, pool, freed := ReleaseExpired(CacheOf(), bucketSize, limit);
      CleanupValid(State(), disposed, limit, freed);
      buckets, cached, unused := kept, images, pool;
    }

    /** getGrid's bookkeeping: the grid image, allocated and marked drawn if it was not. */
    method GetGrid() returns (image: Image)
      requires Valid()
      modifies this
      ensures Valid()
      ensures State() == old(State()).(cache := PrepareGrid(old(CacheOf())))
      ensures disposed == old(disposed)
      ensures grid == Some(image)
    {
      PrepareGridDiscipline(CacheOf(), disposed);
      if !gridReady {
        if grid.None? {
          var img := AllocateImage();
          grid := Some(img);
        }
        gridReady := true;
      }
      image := grid.value;
    }

    /**
     * getCached for the bucket image at `t`: nothing to do when it is ready;
     * otherwise the bucket's image and the grid are prepared and Render
     * draws it.
     */
    method GetCached(t: Time) returns (image: Option<Image>, draws: seq<SpanDraw>, fatal: bool, ghost order: seq<Time>)
      requires Valid()
      modifies this
      ensures Valid()
      ensures StoreOf() == old(StoreOf()) && active == old(active) && minPos == old(minPos) && maxPos == old(maxPos)
      ensures gridSteps == old(gridSteps) && disposed == old(disposed)
      ensures image == Lookup(cached, t)
      ensures !fatal ==> CacheOf() == Rendered(old(CacheOf()), t)
      ensures old(CacheOf().Ready(t)) ==> !fatal && draws == []
      ensures !old(CacheOf().Ready(t)) ==>
        && Visits(StoreOf(), order) && (Rejects(StoreOf()) ==> fatal)
        && (!Rejects(StoreOf()) ==>
              Enumerates(order, buckets.Keys) && (fatal <==> HasHidden(WindowSpans(StoreOf(), order, t, t + bucketSize), t, t + bucketSize)))
        && (fatal ==> CacheOf() == Prepare(old(CacheOf()), t))
        && (!fatal ==>
              Enumerates(order, buckets.Keys) && draws == Layout(WindowSpans(StoreOf(), order, t, t + bucketSize)))
    {
      if t in cachedReady && cachedReady[t] {
        return Lookup(cached, t), [], false, [];
      }
      ghost var c := CacheOf();
      RenderedFrame(c, disposed, t);
      PrepareBucket(t);
      image, draws, fatal, order := Render(t);
    }

    /**
     * getCached for a bucket that is not ready, once its image and the grid
     * are prepared: every bucket is validated (a failure is log.Fatalf,
     * reported as `fatal`), and the spans meeting [t, t + bucketSize] are
     * laid out in their sub-lanes; `order` is the map order the buckets were
     * visited in. A span hidden in that window, degenerate or touching
     * one of its edges, fails drawSpan's checks (HiddenRejected), which is
     * `fatal` too.
     */
    method Render(t: Time) returns (image: Option<Image>, draws: seq<SpanDraw>, fatal: bool, ghost order: seq<Time>)
      requires Valid()
      modifies this
      ensures Valid()
      ensures StoreOf() == old(StoreOf()) && active == old(active) && minPos == old(minPos) && maxPos == old(maxPos)
      ensures gridSteps == old(gridSteps) && disposed == old(disposed)
      ensures image == Lookup(cached, t)
      ensures Visits(StoreOf(), order) && (Rejects(StoreOf()) ==> fatal)
      ensures !Rejects(StoreOf()) ==>
        Enumerates(order, buckets.Keys) && (fatal <==> HasHidden(WindowSpans(StoreOf(), order, t, t + bucketSize), t, t + bucketSize))
      ensures fatal ==> CacheOf() == old(CacheOf())
      ensures !fatal ==> CacheOf() == old(CacheOf()).(cachedReady := old(cachedReady)[t := true])
      ensures !fatal ==> Enumerates(order, buckets.Keys) && draws == Layout(WindowSpans(StoreOf(), order, t, t + bucketSize))
    {
      var spans: seq<Span>;
      spans, fatal, order := CollectSpans(StoreOf(), t, t + bucketSize);
      if fatal {
        return Lookup(cached, t), [], true, order;
      }
      draws, fatal := DrawWindow(t, spans);
      image := Lookup(cached, t);
    }

    /**
     * getCached's drawing loop over the collected spans of bucket `t`: a span
     * hidden in the window fails drawSpan's checks, and otherwise the spans
     * are laid out in their sub-lanes and the bucket is marked as drawn.
     */
    method DrawWindow(t: Time, spans: seq<Span>) returns (draws: seq<SpanDraw>, fatal: bool)
      requires Valid()
      modifies this
      ensures Valid() && disposed == old(disposed)
      ensures fatal <==> HasHidden(spans, t, t + bucketSize)
      ensures fatal ==> State() == old(State())
      ensures !fatal ==> State() == old(State()).(cache := old(CacheOf()).(cachedReady := old(cachedReady)[t := true]))
      ensures !fatal ==> draws == Layout(spans)
    {
      fatal := FindHidden(spans, t, t + bucketSize);
      if fatal {
        return [], true;
      }
      MarkReady(t);
      draws := SubLanes(spans);
    }

    /** getCached's last step: bucket `t` is marked as drawn. */
    method MarkReady(t: Time)
      requires Valid()
      modifies this
      ensures Valid()
      ensures State() == old(State()).(cache := old(CacheOf()).(cachedReady := old(cachedReady)[t := true]))
      ensures disposed == old(disposed)
    {
      ReadyDiscipline(CacheOf(), disposed, t);
      cachedReady := cachedReady[t := true];
    }

    /** getCached's preparation: an image for bucket `t`, and the grid drawn. */
    method PrepareBucket(t: Time)
      requires Valid()
      modifies this
      ensures Valid()
      ensures State() == old(State()).(cache := Prepare(old(CacheOf()), t))
      ensures disposed == old(disposed)
    {
      PrepareImageDiscipline(CacheOf(), disposed, t);
      if t !in cached {
        var image := AllocateImage();
        cached := cached[t := image];
      }
      var _ := GetGrid();
    }

    /**
     * Draw's bucket walk at time `now`: the image of every bucket from the
     * one holding `now` back to the first that starts at or before
     * now - length, newest first, each made ready before it is used.
     */
    method Draw(now: Time) returns (frames: seq<Frame>, fatal: bool)
      requires Valid()
      modifies this
      ensures Valid()
      ensures StoreOf() == old(StoreOf()) && active == old(active) && minPos == old(minPos) && maxPos == old(maxPos)
      ensures gridSteps == old(gridSteps) && disposed == old(disposed)
      ensures Walk(frames, Truncate(now, bucketSize), bucketSize)
      ensures forall k :: 0 <= k < |frames| ==> frames[k].bucketTime > now - length
      ensures !fatal ==> NextTime(frames, Truncate(now, bucketSize), bucketSize) <= now - length
      ensures !fatal ==> FramesCurrent(CacheOf(), frames)
    {
      ghost var first := Truncate(now, bucketSize);
      var bucketTime := Truncate(now, bucketSize);
      var trailEnd := now - length;
      frames := [];
      fatal := false;
      while bucketTime > trailEnd
        invariant Valid()
        invariant StoreOf() == old(StoreOf()) && active == old(active) && minPos == old(minPos) && maxPos == old(maxPos)
        invariant gridSteps == old(gridSteps) && disposed == old(disposed)
        invariant Walk(frames, first, bucketSize) && bucketTime == NextTime(frames, first, bucketSize)
        invariant forall k :: 0 <= k < |frames| ==> frames[k].bucketTime > trailEnd
        invariant FramesCurrent(CacheOf(), frames)
        decreases bucketTime - trailEnd
      {
        ghost var before := CacheOf();
        var image: Option<Image>;
        var draws: seq<SpanDraw>;
        var failed: bool;
        ghost var order: seq<Time>;
        image, draws, failed, order := GetCached(bucketTime);
        if failed {
          fatal := true;
          return;
        }
        WalkStep(frames, first, bucketSize, image);
        FramesSurvive(before, disposed, frames, bucketTime);
        frames := frames + [Frame(bucketTime, image)];
        bucketTime := bucketTime - bucketSize;
      }
    }
  }
}
