/**
 * track.go: the older twin of the trail. The same spans and buckets, with
 * buckets of one second and no active list; getCached takes images from
 * the pool itself and the grid is always a fresh image.
 */
module Track {
  import opened Prelude
  import opened Trail

  /** A track's buckets always span one second. */
  const BucketSize: Duration := Second

  /** The state of a track as the class holds it. */
  datatype TrackState = TrackState(store: Store, minPos: int, maxPos: int, cache: Cache, gridSteps: int)

  /** The trail state with the same buckets, extent and cache, and an empty active list. */
  function AsTrail(s: TrackState): TrailState
  {
    TrailState(s.store, s.minPos, s.maxPos, [], s.cache, s.gridSteps)
  }

  /** The track part of a trail state: everything but the active list. */
  function OfTrail(s: TrailState): TrackState
  {
    TrackState(s.store, s.minPos, s.maxPos, s.cache, s.gridSteps)
  }

  /** A valid track state: buckets covering their spans, a proper extent, images disciplined. */
  ghost predicate TrackValid(s: TrackState, disposed: set<Image>)
  {
    StoreValid(s.store) && s.minPos <= s.maxPos && PoolDiscipline(s.cache, disposed)
  }

  lemma AsTrailValid(s: TrackState, disposed: set<Image>)
    ensures TrackValid(s, disposed) <==> StateValid(AsTrail(s), disposed)
  {
  }

  // --- Span ---

  /**
   * Track.Span at time `now`: the extent rule of trail.go, then the span
   * {StoredId(id), pos, now, now+d} joins the bucket of `now`, whose image
   * is invalidated.
   */
  function TrackSpanStep(s: TrackState, id: int, pos: int, d: Duration, now: Time): TrackState
  {
    var bucketTime := Truncate(now, BucketSize);
    var e := NewExtent(|s.store.buckets| == 0, s.minPos, s.maxPos, pos);
    var span := NewSpan(id, pos, now, d);
    var cache := if e.reset then s.cache.ResetAll() else s.cache;
    TrackState(Store(s.store.arena + [span], InsertSpan(s.store.buckets, bucketTime, |s.store.arena|, span.end)),
               e.minPos, e.maxPos, cache.RedrawBucket(bucketTime), s.gridSteps)
  }

  /** track.go's Span is trail.go's Span with one-second buckets, less the active list. */
  lemma SpanAsTrail(s: TrackState, id: int, pos: int, d: Duration, now: Time)
    ensures TrackSpanStep(s, id, pos, d, now) == OfTrail(SpanStep(AsTrail(s), BucketSize, id, pos, d, now))
  {
  }

  /** Span keeps a track valid, with the images it drops handed to Dispose. */
  lemma TrackSpanValid(s: TrackState, disposed: set<Image>, id: int, pos: int, d: Duration, now: Time)
    requires TrackValid(s, disposed)
    ensures TrackValid(TrackSpanStep(s, id, pos, d, now), disposed + SpanDisposes(AsTrail(s), pos))
  {
    SpanStepValid(AsTrail(s), disposed, BucketSize, id, pos, d, now);
    SpanAsTrail(s, id, pos, d, now);
  }

  /**
   * The extent rule of Track.Span: with no buckets the extent becomes
   * [pos, pos]; a lane outside [minPos, maxPos] widens that one bound; both
   * drop every image. A lane within the extent of a non-empty track changes
   * neither the extent nor any image but the invalidated bucket's flag.
   */
  lemma TrackSpanExtent(s: TrackState, id: int, pos: int, d: Duration, now: Time)
    requires s.minPos <= s.maxPos
    ensures var r := TrackSpanStep(s, id, pos, d, now);
      var bt := Truncate(now, BucketSize);
      && (|s.store.buckets| == 0 ==> r.minPos == pos == r.maxPos)
      && (|s.store.buckets| > 0 && pos < s.minPos ==> r.minPos == pos && r.maxPos == s.maxPos)
      && (|s.store.buckets| > 0 && pos > s.maxPos ==> r.minPos == s.minPos && r.maxPos == pos)
      && (if |s.store.buckets| > 0 && s.minPos <= pos <= s.maxPos then
            r.minPos == s.minPos && r.maxPos == s.maxPos && r.cache == s.cache.RedrawBucket(bt)
          else
            && r.cache.cached == map[] && r.cache.unused == [] && r.cache.grid == None && !r.cache.gridReady
            && r.cache.cachedReady == map[bt := false])
  {
  }

  /**
   * Span adds exactly one span to the bucket of `now`, creating the bucket
   * (starting at its bucket time and ending with the span) or raising its
   * end; every other bucket is unchanged.
   */
  lemma TrackSpanAddsOne(s: TrackState, id: int, pos: int, d: Duration, now: Time)
    ensures var r := TrackSpanStep(s, id, pos, d, now);
      var bt := Truncate(now, BucketSize);
      var ref := |s.store.arena|;
      && r.store.arena == s.store.arena + [Span(StoredId(id), pos, now, now + d)]
      && r.store.buckets.Keys == s.store.buckets.Keys + {bt}
      && (forall t :: t in s.store.buckets && t != bt ==> r.store.buckets[t] == s.store.buckets[t])
      && r.store.buckets[bt].spans == (if bt in s.store.buckets then s.store.buckets[bt].spans else []) + [ref]
      && (bt !in s.store.buckets ==> r.store.buckets[bt].start == bt && r.store.buckets[bt].end == now + d)
      && (bt in s.store.buckets ==> r.store.buckets[bt].end == Max(s.store.buckets[bt].end, now + d))
      && !r.cache.Ready(bt)
  {
  }

  // --- Stop ---

  /** Track.Stop acting on bucket `t`; the image invalidated is that of `now`'s bucket. */
  function TrackStopStep(s: TrackState, t: Time, id: int, pos: int, now: Time): TrackState
    requires StoreValid(s.store) && StopCandidate(s.store, t, id, pos, now)
  {
    s.(store := StopAt(s.store, t, id, pos, now), cache := s.cache.RedrawBucket(Truncate(now, BucketSize)))
  }

  /** track.go's Stop is trail.go's Stop with one-second buckets. */
  lemma StopAsTrail(s: TrackState, t: Time, id: int, pos: int, now: Time)
    requires StoreValid(s.store) && StopCandidate(s.store, t, id, pos, now)
    ensures TrackStopStep(s, t, id, pos, now) == OfTrail(StopStep(AsTrail(s), BucketSize, t, id, pos, now))
  {
  }

  lemma TrackStopValid(s: TrackState, disposed: set<Image>, t: Time, id: int, pos: int, now: Time)
    requires TrackValid(s, disposed) && StopCandidate(s.store, t, id, pos, now)
    ensures TrackValid(TrackStopStep(s, t, id, pos, now), disposed)
  {
    StopStepValid(AsTrail(s), disposed, BucketSize, t, id, pos, now);
    StopAsTrail(s, t, id, pos, now);
  }

  // --- cleanup ---

  /** cleanup's effect on the track: the expired buckets gone and the images of `freed` pooled. */
  ghost function TrackCleanupStep(s: TrackState, limit: Time, freed: seq<Time>): TrackState
    requires Distinct(freed) && forall k :: 0 <= k < |freed| ==> freed[k] in s.cache.cached
  {
    s.(store := s.store.(buckets := Unexpired(s.store.buckets, limit)), cache := Release(s.cache, freed))
  }

  lemma CleanupAsTrail(s: TrackState, limit: Time, freed: seq<Time>)
    requires Distinct(freed) && forall k :: 0 <= k < |freed| ==> freed[k] in s.cache.cached
    ensures TrackCleanupStep(s, limit, freed) == OfTrail(CleanupStep(AsTrail(s), limit, freed))
  {
  }

  lemma TrackCleanupValid(s: TrackState, disposed: set<Image>, limit: Time, freed: seq<Time>)
    requires TrackValid(s, disposed)
    requires Distinct(freed) && forall k :: 0 <= k < |freed| ==> freed[k] in s.cache.cached
    ensures TrackValid(TrackCleanupStep(s, limit, freed), disposed)
  {
    CleanupValid(AsTrail(s), disposed, limit, freed);
    CleanupAsTrail(s, limit, freed);
  }

  // --- getGrid and getCached ---

  /** Track.getGrid's bookkeeping: a missing grid is a fresh ebiten.NewImage, never from the pool. */
  function FreshGrid(c: Cache): (r: Cache)
    ensures r.gridReady && (c.gridReady ==> r == c) && (!c.gridReady ==> r.grid.Some?)
    ensures r.cached == c.cached && r.cachedReady == c.cachedReady && r.unused == c.unused
    ensures c.grid.Some? ==> r.grid == c.grid && r.nextImage == c.nextImage
    ensures !c.gridReady && c.grid.None? ==> r.grid == Some(Image(c.nextImage)) && r.nextImage == c.nextImage + 1
  {
    if c.gridReady then c
    else if c.grid.Some? then c.(gridReady := true)
    else c.(grid := Some(Image(c.nextImage)), nextImage := c.nextImage + 1, gridReady := true)
  }

  /** A fresh grid is held by no one else: the cache keeps its discipline. */
  lemma FreshGridDiscipline(c: Cache, disposed: set<Image>)
    requires PoolDiscipline(c, disposed)
    ensures PoolDiscipline(FreshGrid(c), disposed)
  {
    if !c.gridReady && c.grid.None? {
      var img := Image(c.nextImage);
      var r := FreshGrid(c);
      assert img !in c.Live();
      assert img !in c.cached.Values;
      assert img !in c.unused by {
        assert forall k :: 0 <= k < |c.unused| ==> c.unused[k] in c.Live();
      }
      assert r.Live() == c.Live() + {img};
    }
  }

  /** The cache once Track.getCached has an image for bucket `t` and a drawn grid. */
  function TrackPrepare(c: Cache, t: Time): Cache
  {
    FreshGrid(PrepareImage(c, t))
  }

  /** The cache once Track.getCached(t) has returned without a fatal error. */
  function TrackRendered(c: Cache, t: Time): Cache
  {
    if c.Ready(t) then c else TrackPrepare(c, t).(cachedReady := c.cachedReady[t := true])
  }

  /**
   * getCached(t) leaves bucket t ready and holding an image unless it was
   * ready before; a missing image is the pool's last one when the pool is
   * not empty; every other bucket's image and flag are left alone.
   */
  lemma TrackRenderedFrame(c: Cache, disposed: set<Image>, t: Time)
    requires PoolDiscipline(c, disposed)
    ensures var r := TrackRendered(c, t);
      && PoolDiscipline(r, disposed) && PoolDiscipline(TrackPrepare(c, t), disposed) && r.Ready(t)
      && (!c.Ready(t) ==> t in r.cached)
      && (!c.Ready(t) && t !in c.cached && |c.unused| > 0 ==>
            r.cached[t] == c.unused[|c.unused| - 1] && r.unused == c.unused[..|c.unused| - 1])
      && (forall u :: u != t ==> Lookup(r.cached, u) == Lookup(c.cached, u) && (r.Ready(u) <==> c.Ready(u)))
  {
    PrepareImageDiscipline(c, disposed, t);
    FreshGridDiscipline(PrepareImage(c, t), disposed);
    if !c.Ready(t) {
      ReadyDiscipline(TrackPrepare(c, t), disposed, t);
    }
  }

  // ---------------------------------------------------------------------
  // The track object. Each method runs under the track's mutex in Go, so
  // each is one atomic step here; `now` stands for time.Now().
  // ---------------------------------------------------------------------

  class Track {
    const length: Duration

    /** Every span ever recorded, indexed by SpanRef; Go's heap of *Span. */
    var arena: seq<Span>
    var buckets: map<Time, SpanBucket>
    var minPos: int
    var maxPos: int
    var cached: map<Time, Image>
    var cachedReady: map<Time, bool>
    var grid: Option<Image>
    var gridReady: bool
    var unused: seq<Image>
    var gridSteps: int
    /** The token the next ebiten.NewImage returns. */
    var nextImage: nat
    /** The images handed to a deferred Dispose. */
    ghost var disposed: set<Image>

    function StoreOf(): Store
      reads this
    {
      Store(arena, buckets)
    }

    function CacheOf(): Cache
      reads this
    {
      Cache(cached, cachedReady, grid, gridReady, unused, nextImage)
    }

    ghost function State(): TrackState
      reads this
    {
      TrackState(StoreOf(), minPos, maxPos, CacheOf(), gridSteps)
    }

    ghost predicate Valid()
      reads this
    {
      TrackValid(State(), disposed)
    }

    /** NewTrack: no buckets, an empty cache, lanes 0..0, four grid steps. */
    constructor (length: Duration)
      ensures Valid() && this.length == length
      ensures State() == TrackState(Store([], map[]), 0, 0, Cache(map[], map[], None, false, [], 0), DefaultGridSteps)
      ensures disposed == {}
    {
      this.length := length;
      arena, buckets := [], map[];
      minPos, maxPos := 0, 0;
      cached, cachedReady, grid, gridReady, unused := map[], map[], None, false, [];
      gridSteps := DefaultGridSteps;
      nextImage := 0;
      disposed := {};
    }

    method RedrawBucket(bucketTime: Time)
      modifies this
      ensures State() == old(State()).(cache := old(CacheOf()).RedrawBucket(bucketTime))
      ensures disposed == old(disposed)
    {
      cachedReady := cachedReady[bucketTime := false];
    }

    method RedrawAll()
      modifies this
      ensures State() == old(State()).(cache := old(CacheOf()).RedrawAll())
      ensures disposed == old(disposed)
    {
      cachedReady := map[];
      gridReady := false;
    }

    method ResetAll()
      modifies this
      ensures State() == old(State()).(cache := old(CacheOf()).ResetAll())
      ensures disposed == old(disposed) + old(CacheOf().Live())
    {
      disposed := disposed + CacheOf().Live();
      cached := map[];
      grid := None;
      unused := [];
      RedrawAll();
    }

    /** ebiten.NewImage: a fresh image. */
    method NewImage() returns (image: Image)
      modifies this
      ensures image == Image(old(nextImage))
      ensures State() == old(State()).(cache := old(CacheOf()).(nextImage := old(nextImage) + 1))
      ensures disposed == old(disposed)
    {
      image := Image(nextImage);
      nextImage := nextImage + 1;
    }

    method Span(id: int, pos: int, d: Duration, now: Time)
      requires Valid()
      modifies this
      ensures Valid()
      ensures State() == TrackSpanStep(old(State()), id, pos, d, now)
      ensures disposed == old(disposed) + SpanDisposes(AsTrail(old(State())), pos)
    {
      TrackSpanValid(State(), disposed, id, pos, d, now);
      var bucketTime := Truncate(now, BucketSize);
      Extend(pos);
      var span := NewSpan(id, pos, now, d);
      Record(bucketTime, span);
    }

    /** Span's first step: widen [minPos, maxPos] to `pos`, dropping every image when it changes. */
    method Extend(pos: int)
      modifies this
      ensures var e := NewExtent(|old(buckets)| == 0, old(minPos), old(maxPos), pos);
        State() == old(State()).(minPos := e.minPos, maxPos := e.maxPos,
                                 cache := if e.reset then old(CacheOf()).ResetAll() else old(CacheOf()))
      ensures disposed == old(disposed) + SpanDisposes(AsTrail(old(State())), pos)
    {
      if |buckets| == 0 {
        minPos := pos;
        maxPos := pos;
        ResetAll();
      } else if pos < minPos {
        minPos := pos;
        ResetAll();
      } else if pos > maxPos {
        maxPos := pos;
        ResetAll();
      }
    }

    /** Span's second step: the span joins the arena and its bucket (made if missing), whose image is invalidated. */
    method Record(bucketTime: Time, span: Span)
      modifies this
      ensures State() == old(State()).(
        store := Store(old(arena) + [span], InsertSpan(old(buckets), bucketTime, |old(arena)|, span.end)),
        cache := old(CacheOf()).RedrawBucket(bucketTime))
      ensures disposed == old(disposed)
    {
      var ref := |arena|;
      var bucket: SpanBucket;
      if bucketTime !in buckets {
        bucket := SpanBucket(bucketTime, span.end, []);
      } else {
        bucket := buckets[bucketTime];
        if span.end > bucket.end {
          bucket := bucket.(end := span.end);
        }
      }
      RedrawBucket(bucketTime);
      bucket := bucket.(spans := bucket.spans + [ref]);
      assert buckets[bucketTime := bucket] == InsertSpan(buckets, bucketTime, ref, span.end);
      arena := arena + [span];
      buckets := buckets[bucketTime := bucket];
    }

    /**
     * Stop: the bucket acted on, if any. Buckets are visited in map order,
     * so which one is unspecified when several hold a match.
     */
    method Stop(id: int, pos: int, now: Time) returns (ghost stopped: Option<Time>)
      requires Valid()
      modifies this
      ensures Valid()
      ensures stopped.None? ==>
        (forall t :: !StopCandidate(old(StoreOf()), t, id, pos, now)) && State() == old(State())
      ensures stopped.Some? ==>
        StopCandidate(old(StoreOf()), stopped.value, id, pos, now)
          && State() == TrackStopStep(old(State()), stopped.value, id, pos, now)
      ensures disposed == old(disposed)
    {
      var hit, at := FindStop(StoreOf(), id, pos, now);
      if hit.None? {
        return None;
      }
      ShortenAt(hit.value, at, id, pos, now);
      return hit;
    }

    /** Stop acting on bucket `t`, whose first match is at index `at`. */
    method ShortenAt(t: Time, at: nat, id: int, pos: int, now: Time)
      requires Valid() && StopCandidate(StoreOf(), t, id, pos, now)
      requires FirstMatch(Deref(arena, buckets[t].spans), id, pos, now) == Some(at)
      modifies this
      ensures Valid()
      ensures State() == TrackStopStep(old(State()), t, id, pos, now)
      ensures disposed == old(disposed)
    {
      ghost var store := StoreOf();
      TrackStopValid(State(), disposed, t, id, pos, now);
      var bucket := buckets[t];
      var ref := bucket.spans[at];
      arena := arena[ref := arena[ref].(end := now)];
      RedrawBucket(Truncate(now, BucketSize));
      // Go defers UpdateEnd to the end of Stop; nothing reads the bucket in between.
      var updated := UpdateEnd(bucket, arena);
      buckets := buckets[t := updated];
      assert StoreOf() == StopAt(store, t, id, pos, now);
    }

    method SetGridSteps(steps: int)
      requires Valid()
      modifies this
      ensures Valid()
      ensures State() == old(State()).(gridSteps := steps, cache := old(CacheOf()).RedrawAll())
      ensures disposed == old(disposed)
    {
      RedrawDiscipline(CacheOf(), disposed, 0);
      gridSteps := steps;
      RedrawAll();
    }

    /**
     * cleanup at time `now`: the buckets ending before now - length go; the
     * images of buckets wholly before it move to the pool, in the order
     * `freed` (map order).
     */
    method Cleanup(now: Time) returns (ghost freed: seq<Time>)
      requires Valid()
      modifies this
      ensures Valid()
      ensures Enumerates(freed, set t | t in old(cached) && ImageExpired(t, BucketSize, now - length))
      ensures forall k :: 0 <= k < |freed| ==> freed[k] in old(cached)
      ensures State() == TrackCleanupStep(old(State()), now - length, freed)
      ensures disposed == old(disposed)
    {
      var limit := now - length;
      var kept := UnexpiredBuckets(buckets, limit);
      var images, pool;
      images, pool, freed := ReleaseExpired(CacheOf(), BucketSize, limit);
      TrackCleanupValid(State(), disposed, limit, freed);
      buckets, cached, unused := kept, images, pool;
    }

    /** getGrid's bookkeeping: the grid image, created and marked drawn if it was not. */
    method GetGrid() returns (image: Image)
      requires Valid()
      modifies this
      ensures Valid()
      ensures State() == old(State()).(cache := FreshGrid(old(CacheOf())))
      ensures disposed == old(disposed)
      ensures grid == Some(image)
    {
      FreshGridDiscipline(CacheOf(), disposed);
      if !gridReady {
        if grid.None? {
          var img := NewImage();
          grid := Some(img);
        }
        gridReady := true;
      }
      image := grid.value;
    }

    /**
     * getCached for the bucket image at `t`: when it is not ready, an image
     * is found (the pool's last, else a fresh one), the grid is drawn in,
     * every bucket is validated (a failure is log.Fatalf, reported as
     * `fatal`) and `spans` are the spans drawn, those meeting
     * [t, t + BucketSize], visiting the buckets in map order `order`. A
     * span hidden in that window, degenerate or touching one of its edges,
     * fails the inline pixel checks (HiddenRejected), which is `fatal` too.
     */
    method GetCached(t: Time) returns (image: Option<Image>, spans: seq<Span>, fatal: bool, ghost order: seq<Time>)
      requires Valid()
      modifies this
      ensures Valid()
      ensures StoreOf() == old(StoreOf()) && minPos == old(minPos) && maxPos == old(maxPos)
      ensures gridSteps == old(gridSteps) && disposed == old(disposed)
      ensures image == Lookup(cached, t)
      ensures !fatal ==> CacheOf() == TrackRendered(old(CacheOf()), t)
      ensures old(CacheOf().Ready(t)) ==> !fatal && spans == []
      ensures !old(CacheOf().Ready(t)) ==>
        && Visits(StoreOf(), order) && (Rejects(StoreOf()) ==> fatal)
        && (!Rejects(StoreOf()) ==>
              Enumerates(order, buckets.Keys) && (fatal <==> HasHidden(WindowSpans(StoreOf(), order, t, t + BucketSize), t, t + BucketSize)))
        && (fatal ==> CacheOf() == TrackPrepare(old(CacheOf()), t))
        && (!fatal ==> Enumerates(order, buckets.Keys) && spans == WindowSpans(StoreOf(), order, t, t + BucketSize))
    {
      if t in cachedReady && cachedReady[t] {
        return Lookup(cached, t), [], false, [];
      }
      TrackRenderedFrame(CacheOf(), disposed, t);
      PrepareBucket(t);
      spans, fatal, order := CollectSpans(StoreOf(), t, t + BucketSize);
      if fatal {
        return Lookup(cached, t), [], true, order;
      }
      fatal := FindHidden(spans, t, t + BucketSize);
      if fatal {
        return Lookup(cached, t), [], true, order;
      }
      MarkReady(t);
      image := Lookup(cached, t);
    }

    /** getCached's preparation: an image for bucket `t`, and the grid. */
    method PrepareBucket(t: Time)
      requires Valid()
      modifies this
      ensures Valid()
      ensures State() == old(State()).(cache := TrackPrepare(old(CacheOf()), t))
      ensures disposed == old(disposed)
    {
      PrepareImageDiscipline(CacheOf(), disposed, t);
      if t !in cached {
        var image: Image;
        if |unused| > 0 {
          image := unused[|unused| - 1];
          unused := unused[..|unused| - 1];
        } else {
          image := NewImage();
        }
        cached := cached[t := image];
      }
      var _ := GetGrid();
    }

    /** getCached's last step: bucket `t` is marked as drawn. */
    method MarkReady(t: Time)
      requires Valid()
      modifies this
      ensures Valid()
      ensures State() == old(State()).(cache := old(CacheOf()).(cachedReady := old(cachedReady)[t := true]))
      ensures disposed == old(disposed)
    {
      ReadyDiscipline(CacheOf(), disposed, t);
      cachedReady := cachedReady[t := true];
    }
  }
}
