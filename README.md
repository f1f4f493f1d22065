# trosces, modelled in Dafny

trosces is a live music visualiser. Live-coding software sends it OSC
messages (`/play`, `/drum`, `/layer`, `/sync`). The messages become
coloured spans on scrolling trails: keyboard notes, drum hits and longer
layers. A header above each trail shows the piano keys or drum pads and
lights up the lanes that are sounding now.

This project models the core of that program and proves properties of it:

- **Trail and Track** (`trail.go`, `track.go`) are the span stores. Spans
  go into time buckets, indexed by the truncated start time. The lane range
  `[minPos, maxPos]` grows as spans arrive. Stopping a note shortens the
  first matching span. Cleanup drops expired buckets and moves expired
  images to a reuse pool. Rendering one bucket takes an image from the pool
  (most recently freed first) or allocates a new one. It then collects the
  spans of that bucket's window and, in `trail.go`, splits overlapping
  spans of one lane into sub-lanes ranked by instrument id.
- **Header and Keyboard** (`header.go`, `keyboard.go`) hold the displayed
  range, the active and highlighted notes, and their cached images. They
  decide key colours and key shapes. They decide which draws the base and
  overlay images receive. The highlight list is delivered at most once
  after each change.
- **Note** (`note.go`, copied in `keyboard.go`) parses note names such as
  `c4`, `F#3` and `bb-1` into MIDI-style integers, with Go's 64-bit
  wrap-around written out.
- **Trosces** (`trosces.go`) interns instrument and variant names into
  dense ids. It builds the three tracks and turns each play call into a
  span on the right trail. Each play call keeps the mapper and trail it
  touches valid and leaves the other tracks unchanged.
- **Osc** (`osc.go`) checks each handler's arguments. A message is either
  refused at its first bad argument or yields exactly one visualiser
  command.

Modelling choices:

- Times are integer nanoseconds since the zero time.
- `time.Now()` is a `now` parameter.
- The program's `*Span` pointers are indices (`SpanRef`) into an arena
  sequence. Stopping a note through one pointer changes what every bucket
  sees, and the arena models that.
- An `ebiten.Image` is an opaque token. Allocation draws from a counter.
- Images handed back by `Dispose` are a ghost set. Every pool lemma checks
  that an image is never alive in two places and never used after disposal.
- Drawing itself is left out. Render methods return the list of draws
  (spans with sub-lane indices, or coloured key shapes) that the source
  would paint.

## Model

| member | source | states |
|---|---|---|
| Prelude.Truncate | trail.go:160-163 | `now.Truncate(bucketSize)` is the latest multiple of the bucket size that is not after `now`, and `now` lies within one bucket of it |
| Prelude.GoRem | note.go:12 | Go's `%` truncates toward zero: with `GoQuo` the truncated quotient, `a == GoQuo(a, b) * b + GoRem(a, b)`; a non-negative dividend gives a remainder in `[0, abs(b))`, a negative one a remainder in `(-abs(b), 0]` |
| Prelude.InsertSorted | trail.go:552-563 | inserting into a sorted list (one step of `sort.Ints`) keeps it sorted and is a permutation of the list plus the new element |
| Prelude.SortInts | trail.go:552-563 | `sort.Ints` yields a sorted permutation of its input |
| Prelude.SortDistinctIncreasing | trail.go:552-563 | sorting ids that are pairwise distinct gives a strictly increasing list |
| Prelude.InsertFreshIncreasing | trail.go:552-563 | inserting a fresh element into a strictly increasing list keeps it strictly increasing |
| Prelude.IncreasingUnique | trail.go:552-563 | two strictly increasing lists with the same members are equal, so the sorted id order of a lane does not depend on map iteration order |
| Prelude.IndexIsRank | trail.go:556-562 | in a strictly increasing list, an element's index is the number of members below it, so the sub-lane index of an id is its rank |
| Prelude.DistinctCard | trail.go:552-563 | a duplicate-free list has as many elements as its set of members |
| Trail.StoredId | trail.go:165-168 | an instrument id below the palette size (7) is kept; a larger one is reduced into `[0, 7)` modulo 7 |
| Trail.Span.InRange | trail.go:30-38 | a span meets the closed window `[from, to]` unless it ends before `from` or starts after `to` |
| Trail.Span.InVisualRange | trail.go:40-48 | overlapping the window narrowed by 10ms at each end implies overlapping the window itself |
| Trail.SpanBucket.InRange | trail.go:73-81 | a bucket meets the closed window unless its end is before `from` or its start after `to` |
| Trail.Deref | trail.go:67-71 | following a bucket's span pointers gives the spans they point to, one per pointer, in order |
| Trail.LatestEnd | trail.go:83-91 | a bucket's end is the latest end among its spans, and never before the zero time |
| Trail.UpdateEnd | trail.go:83-91 | `UpdateEnd` sets the bucket's end to the latest end of the spans it points to and changes nothing else |
| Trail.Validate | trail.go:93-100 | no error iff every span starts within `[bucket.start, bucket.end]` and does not end before `bucket.start`; otherwise the error names the first span that does not |
| Trail.NewExtent | trail.go:173-183 | the lane range is reset iff there are no buckets or the position falls outside it; otherwise it widens to the minimum and maximum with the new position, which it always covers |
| Trail.Layout | trail.go:526-576 | one sub-lane draw per collected span |
| Trail.LaneMembers | trail.go:526-530 | `byPos[pos]` lists exactly the indices of the spans at `pos`, in collection order |
| Trail.GroupByPos | trail.go:526-530 | the grouping loop gives every lane exactly its own span indices, in order |
| Trail.HasPartner | trail.go:533-546 | the inner scan finds a partner iff some other span of the same lane overlaps the span by more than the slack, whatever its id |
| Trail.FindOverlaps | trail.go:531-551 | `overlaps` is exactly the set of overlapped spans; `subindexMap` has a lane iff that lane has overlapped ids, keyed by exactly those ids |
| Trail.AddId | trail.go:538-544 | entering an id for a lane adds the lane if it is missing, adds the id to it and leaves every other lane as it was |
| Trail.OverlapMapStep | trail.go:531-551 | one step of the overlap loop keeps the id map equal to the overlapped ids of the spans seen so far |
| Trail.OverlapLaneStep | trail.go:531-551 | the same step seen from one lane: the lane is present iff it has overlapped ids so far, and keyed by exactly those ids |
| Trail.RankLane | trail.go:552-563 | ranking a lane gives each of its ids its rank among the lane's ids, and only those ids |
| Trail.LaneIds | trail.go:553-555 | the id list of a lane contains each of its ids exactly once |
| Trail.RankOfIndex | trail.go:556-562 | an id's position in the sorted id list is its rank |
| Trail.SortIds | trail.go:559 | sorting a lane's id list yields its ids in strictly increasing order, each exactly once |
| Trail.RankedByIndex | trail.go:560-562 | numbering the sorted ids by their position gives every id of the lane its rank |
| Trail.RankLanes | trail.go:552-563 | every lane with overlaps has each of its ids mapped to the id's rank within the lane |
| Trail.SubLanes | trail.go:526-576 | the sub-lane pass of `getCached` yields exactly `Layout` of the collected spans |
| Trail.DrawAt | trail.go:565-576 | an overlapped span is drawn at its id's rank, with as many sub-lanes as its lane has ids; any other span is drawn alone (index 0 of 1) |
| Trail.RankBelowCard | trail.go:556-562 | a rank is below the number of ids in the lane |
| Trail.RankMonotone | trail.go:556-562 | a smaller id gets a smaller rank |
| Trail.LayoutWithinLane | trail.go:565-576 | every draw keeps its span and has a sub-lane index within `[0, subindices)` |
| Trail.LayoutSeparatesIds | trail.go:531-576 | two overlapped spans of one lane share a sub-lane count, and share a sub-lane iff they have the same id |
| Trail.LayoutAlone | trail.go:565-576 | a span that no other span of its lane overlaps takes the whole lane |
| Trail.SameInstrumentShares | trail.go:531-576 | sharing is decided per lane: two overlapping spans of instrument 1 at 0-100ms, on a lane where two spans of instrument 2 overlap at 200-300ms, are drawn in slice 0 of 2 though nothing of instrument 2 overlaps them |
| Trail.PartnersSymmetric | trail.go:538-542 | the overlap test between two spans is symmetric |
| Trail.OverlappedByValue | trail.go:531-551 | whether a span is overlapped depends only on the multiset of collected spans |
| Trail.OverlapIdsByValue | trail.go:531-551 | a lane's overlapped ids depend only on the multiset of collected spans |
| Trail.LayoutOrderIndependent | trail.go:531-576 | for any two collected lists with the same multiset of spans, the same span gets the same sub-lane draw in both |
| Trail.Cache.RedrawBucket | trail.go:297-299 | only the given bucket's image is marked not ready; the images, the grid and the pool are untouched |
| Trail.Cache.RedrawAll | trail.go:301-304 | no bucket image and not the grid is ready; the images themselves are kept |
| Trail.Cache.ResetAll | trail.go:306-332 | all bucket images, ready flags, the grid and the pool are dropped; the allocation counter is kept |
| Trail.Allocate | trail.go:334-350 | the most recently freed image is reused when the pool is not empty (and removed from it); otherwise a new image is made |
| Trail.AllocateAfterRelease | trail.go:334-350 | an image just put back in the pool is the next one handed out, and the cache is restored to what it was |
| Trail.AllocateFresh | trail.go:334-350 | the allocated image is neither in use elsewhere nor disposed, and the pool discipline still holds |
| Trail.ResetAllDiscipline | trail.go:306-332 | disposing every live image on reset leaves no live image and keeps the pool discipline |
| Trail.RedrawDiscipline | trail.go:297-304 | marking buckets or the grid for redraw keeps the pool discipline |
| Trail.ReadyDiscipline | trail.go:582 | marking a bucket ready keeps the pool discipline |
| Trail.InsertSpan | trail.go:193-210 | the span's bucket is created with the bucket time as start and the span's end, or its end is raised to the span's end; the span pointer is appended; other buckets are unchanged |
| Trail.SpanStep | trail.go:160-211 | the state `Span` leaves: the extent rule, the span appended to the arena, the active list and bucket `Truncate(now)`, and that bucket's image invalidated (after a reset, every image); `SpanStepAddsOne`, `SpanStepValid` and `SpanStepExtent` state its properties |
| Trail.SpanStepAddsOne | trail.go:160-211 | for any duration, `Span` appends exactly one span `(id mod 7, pos, now, now+d)` to the store and to the active list, files it in bucket `Truncate(now)` and nowhere else, inside that bucket's lane range, and keeps the state valid; the span falls outside its bucket iff it ends before the bucket starts or the bucket ended before `now`, so never when `d >= 0` |
| Trail.NegativeSpanInvalid | trail.go:160-211 | a negative duration `d` that opens a new bucket makes that bucket's end, `now + d`, lie before the start `now` of the span it holds, so the bucket fails `Validate` (trail.go:93-100) and `getCached` later stops fatally |
| Trail.SpanStepValid | trail.go:160-211 | `Span` keeps the trail state valid for any duration; the images it retires are exactly those a lane-range reset disposes |
| Trail.InsertSpanValid | trail.go:193-210 | filing a span that starts at or after its bucket time keeps every bucket's pointers in the arena and every span inside its bucket's window |
| Trail.InsertSpanBucket | trail.go:193-210 | after filing, every bucket starts at its key and covers each span it points to |
| Trail.SpanStepExtent | trail.go:173-208 | a position inside an existing range only marks the bucket for redraw; otherwise the range is reset (first span) or widened, and every image is dropped |
| Trail.FirstMatch | trail.go:222-229 | finds the first span with the same id and lane that is still sounding at `now`, or reports that none is |
| Trail.StopShortensOne | trail.go:214-233 | stopping ends exactly one matching span at `now`, changes no other span or bucket, recomputes that bucket's end and keeps the store valid |
| Trail.StopStep | trail.go:214-233 | the state `Stop` leaves when bucket `t` has not ended and holds a match: the first matching span of `t` ends at `now`, `t`'s end is recomputed, and `now`'s bucket image is invalidated; `StopShortensOne` and `StopStepValid` state its properties |
| Trail.StopStepValid | trail.go:214-233 | `Stop` keeps the trail state valid |
| Trail.FindMatch | trail.go:222-229 | the scan over a bucket's spans returns the first match, or none |
| Trail.FindStop | trail.go:214-233 | the search over buckets finds a bucket holding a match and its first match, or proves that no bucket holds one |
| Trail.PruneStep | trail.go:251-258 | pruning one more active span keeps it iff it covers `now` |
| Trail.PruneLoopStep | trail.go:251-258 | one step of the in-place removal loop either keeps the span or splices it out, preserving the loop's invariant |
| Trail.LanesFoundStep | trail.go:259-262 | the lane scan records a lane the first time one of its spans is seen |
| Trail.PruneDone | trail.go:251-258 | when the loop ends, the list is exactly `Prune` of the old active list |
| Trail.Prune | trail.go:251-258 | pruning keeps only pointers into the arena and never lengthens the list |
| Trail.PruneMembers | trail.go:251-258 | a span stays active iff it was active and covers `now` |
| Trail.PruneAppend | trail.go:251-258 | pruning distributes over concatenation, so the order of active spans is kept |
| Trail.PruneIdempotent | trail.go:251-258 | pruning twice at the same time is pruning once |
| Trail.LanesAppend | trail.go:259-262 | one more active span adds its lane to the active lanes |
| Trail.Unexpired | trail.go:363-372 | a bucket survives cleanup iff its end is not before `now - length`, and survivors are unchanged |
| Trail.UnexpiredValid | trail.go:363-372 | dropping buckets keeps the store valid |
| Trail.Release | trail.go:374-386 | releasing removes exactly the freed bucket times from the cache; ready flags, grid and counter are untouched |
| Trail.ReleaseMoves | trail.go:374-386 | the freed images go to the end of the pool in order, and the remaining images are unchanged |
| Trail.ReleaseStep | trail.go:380-385 | releasing one more bucket time is one pool move |
| Trail.ReleaseOneDiscipline | trail.go:380-385 | moving one image to the pool keeps the pool discipline and the set of live images |
| Trail.ReleaseDiscipline | trail.go:374-386 | releasing expired images keeps the pool discipline and the live images: nothing is lost or held twice |
| Trail.CleanupValid | trail.go:353-389 | cleanup keeps the trail state valid |
| Trail.ExpiredBuckets | trail.go:363-368 | the first loop collects exactly the buckets whose end is before `now - length`, each once |
| Trail.UnexpiredBuckets | trail.go:369-371 | deleting the collected buckets leaves exactly `Unexpired` |
| Trail.ExpiredImages | trail.go:374-379 | the image loop collects exactly the bucket times whose window ends before `now - length`, each once |
| Trail.ReleaseExpiredSplits | trail.go:374-386 | releasing exactly the expired images keeps every unexpired image where it was, keeps the old pool as a prefix, and appends every expired image and nothing else |
| Trail.ReleaseExpired | trail.go:374-386 | the image loop leaves exactly the unexpired images in the map, unchanged, and the old pool followed by exactly the expired images, as `Release` of the collected bucket times |
| Trail.PrepareDiscipline | trail.go:499-503 | preparing a bucket gives it an image (kept if it had one), gives the grid an image, touches no other bucket and keeps the pool discipline |
| Trail.PrepareImageDiscipline | trail.go:499-503 | taking the bucket's image from the pool or allocating it keeps every other bucket's image and the pool discipline |
| Trail.PrepareGridDiscipline | trail.go:392-448 | `getGrid` keeps an existing grid image, allocates one otherwise, and marks it ready |
| Trail.InRangeSpansMembers | trail.go:511-520 | a collected span is a bucket span that overlaps the window, and every such span is collected |
| Trail.WindowSpansExact | trail.go:505-525 | over all buckets, exactly the stored spans that overlap the window are collected |
| Trail.ValidBucketPasses | trail.go:505-510 | in a valid store, a bucket whose spans do not end before they start passes `Validate` |
| Trail.CollectSpans | trail.go:505-525 | the collection loop either stops fatally iff some bucket fails `Validate`, or visits every bucket once and collects exactly `WindowSpans` |
| Trail.WindowSpansAppend | trail.go:505-525 | visiting the buckets of one list and then another collects the two windows one after the other |
| Trail.WindowSpansPermute | trail.go:505-525 | visiting the same buckets in another order collects the same multiset of spans |
| Trail.WindowSpansVisitOrder | trail.go:505-525 | any two orders in which `for _, bucket := range t.buckets` may visit every bucket collect the same multiset of spans |
| Trail.LayoutVisitOrder | trail.go:505-576 | whatever order Go's map iteration visits the buckets in, each collected span gets the same sub-lane draw, so `GetCached`'s draws do not depend on the iteration order |
| Trail.DegenerateRejected | trail.go:467-478 | a span that ends at or before its start fails one of drawSpan's four `log.Fatalf` checks, whatever the row scale and image height |
| Trail.ForwardAccepted | trail.go:467-478 | a forward span whose rows lie inside the image and are at least 1e-6 apart passes all four checks |
| Trail.HiddenRejected | trail.go:460-478 | a collected span whose part inside the window `[from, to]` is empty or a single instant (degenerate, starting exactly at `to`, or ending exactly at `from`) fails one of drawSpan's four `log.Fatalf` checks, whatever the row scale, for any image no taller than the window (trail.go:346-349 rounds its height down) |
| Trail.HiddenVisitOrder | trail.go:505-525 | whatever order the buckets are visited in, the collected window holds a hidden span or it does not |
| Trail.FindHidden | trail.go:564-576 | the drawing loop meets a span hidden in the window iff the collected list holds one |
| Trail.Trail.DrawWindow | trail.go:564-582 | fatal iff a collected span is hidden in the bucket's window, and then nothing changes; otherwise the draws are `Layout` of the spans and the bucket is marked ready, nothing else changing |
| Trail.SpansInRange | trail.go:511-520 | the inner loop keeps exactly the bucket's spans that overlap the window, in order |
| Trail.WalkStep | trail.go:281-292 | the draw loop steps one bucket back in time, so earlier frames are all newer |
| Trail.WalkNewer | trail.go:281-292 | the frames `Draw` produces are in strictly decreasing bucket time |
| Trail.FramesSurvive | trail.go:281-292 | rendering an older bucket does not change the image already drawn for a newer one |
| Trail.RenderedFrame | trail.go:494-585 | after `getCached`, the bucket is ready and has an image, the pool discipline holds, and every other bucket's image and ready flag are unchanged |
| Trail.Trail.constructor | trail.go:129-158 | `NewTrail` starts with no spans, no images, the one-lane range `[0, 0]` and 4 grid steps |
| Trail.Trail.RedrawBucket | trail.go:297-299 | the state changes only by the cache's `RedrawBucket` |
| Trail.Trail.RedrawAll | trail.go:301-304 | the state changes only by the cache's `RedrawAll` |
| Trail.Trail.ResetAll | trail.go:306-332 | the state changes only by the cache's `ResetAll`, and every live image is disposed |
| Trail.Trail.AllocateImage | trail.go:334-350 | returns `Allocate`'s image and changes the cache as `Allocate` does |
| Trail.Trail.Span | trail.go:160-211 | the new state is `SpanStep` of the old one, the trail stays valid, and exactly the images a reset retires are disposed |
| Trail.Trail.Extend | trail.go:173-183 | the lane range becomes `NewExtent`'s, resetting the cache exactly when it says so |
| Trail.Trail.Record | trail.go:185-210 | the span joins the arena, its bucket and the active list, and its bucket is marked for redraw |
| Trail.Trail.Stop | trail.go:214-233 | either no span matches and nothing changes, or the state is `StopStep` at the bucket holding the first match; the trail stays valid |
| Trail.Trail.ShortenAt | trail.go:224-229 | ends the first matching span at `now`, recomputes the bucket's end and marks the current bucket for redraw |
| Trail.Trail.SetGridSteps | trail.go:235-241 | stores the grid steps and marks everything for redraw |
| Trail.Trail.ActivePos | trail.go:243-267 | drops the spans that no longer cover `now` and returns the lanes of the rest, sorted with no duplicates |
| Trail.Trail.PruneActive | trail.go:251-264 | the in-place loop leaves exactly `Prune` of the active list and finds each active lane once |
| Trail.Trail.Cleanup | trail.go:353-389 | drops expired buckets and moves exactly the expired images to the pool, keeping the trail valid and disposing nothing |
| Trail.Trail.GetGrid | trail.go:392-448 | the grid has an image afterwards; the state changes only as `PrepareGrid` says |
| Trail.Trail.GetCached | trail.go:494-585 | returns the bucket's image; a ready bucket is returned as is; otherwise the spans of every bucket are collected in the visit order `order`; it is fatal if a bucket fails `Validate`, and otherwise fatal iff a collected span is hidden in the window `[t, t + bucketSize]` (`HiddenRejected`); without a fatal error the spans are laid out by `Layout` and the cache becomes `Rendered`; with `LayoutVisitOrder` and `HiddenVisitOrder`, any other visit order gives the same outcome and each span the same draw |
| Trail.Trail.Render | trail.go:505-582 | collects and lays out the prepared bucket's spans and marks it ready, unless a bucket fails `Validate` or, failing that, a collected span is hidden in the window `[t, t + bucketSize]` |
| Trail.Trail.MarkReady | trail.go:582 | sets only the bucket's ready flag |
| Trail.Trail.PrepareBucket | trail.go:499-503 | the cache becomes `Prepare` of the old cache |
| Trail.Trail.Draw | trail.go:270-293 | renders buckets from the current one back in time, each newer than `now - length`, until the trail's length is covered; the images of the drawn frames stay current |
| Track.AsTrailValid | track.go:91-115 | a track state is valid iff it is a valid trail state with no active list |
| Track.SpanAsTrail | track.go:148-198 | `Track.Span` is `Trail.Span` with one-second buckets, without the active list |
| Track.TrackSpanValid | track.go:148-198 | `Span` keeps the track state valid |
| Track.TrackSpanExtent | track.go:161-171 | the first span sets the lane range to its position; a lower or higher position widens it and drops every image; an inner position only marks its bucket for redraw |
| Track.TrackSpanAddsOne | track.go:173-197 | `Span` adds exactly one span to the arena and to bucket `Truncate(now)`, creating the bucket with the span's end or raising its end, and marks that bucket not ready |
| Track.StopAsTrail | track.go:200-219 | `Track.Stop` is `Trail.Stop` without the active list |
| Track.TrackStopValid | track.go:200-219 | `Stop` keeps the track state valid |
| Track.CleanupAsTrail | track.go:295-331 | `Track.cleanup` is `Trail.cleanup` without the active list |
| Track.TrackCleanupValid | track.go:295-331 | cleanup keeps the track state valid |
| Track.FreshGrid | track.go:334-393 | `getGrid` keeps a ready grid; otherwise it reuses the grid image or makes a new one, and it never touches the bucket images or the pool |
| Track.FreshGridDiscipline | track.go:334-393 | preparing the grid keeps the pool discipline |
| Track.TrackRenderedFrame | track.go:396-488 | after `getCached` the bucket is ready with an image; a missing image comes from the end of the pool when it is not empty; every other bucket is unchanged; the pool discipline holds |
| Track.Track.constructor | track.go:117-146 | `NewTrack` starts with no spans, no images and 4 grid steps |
| Track.Track.RedrawBucket | track.go:257-259 | the state changes only by the cache's `RedrawBucket` |
| Track.Track.RedrawAll | track.go:261-264 | the state changes only by the cache's `RedrawAll` |
| Track.Track.ResetAll | track.go:266-292 | the state changes only by the cache's `ResetAll`, disposing every live image |
| Track.Track.NewImage | track.go:411-415 | a new image takes the next token |
| Track.TrackSpanStep | track.go:148-198 | the state track.go's `Span` leaves: trail.go's rule with one-second buckets and no active list; `SpanAsTrail` and the lemmas after it state its properties |
| Track.TrackStopStep | track.go:200-219 | the state track.go's `Stop` leaves on a matching bucket `t`; `StopAsTrail` and `TrackStopValid` state its properties |
| Track.Track.Span | track.go:148-198 | the new state is `TrackSpanStep` of the old one and the track stays valid |
| Track.Track.Extend | track.go:161-171 | the lane range becomes `NewExtent`'s, resetting the cache exactly when it says so |
| Track.Track.Record | track.go:173-197 | the span joins the arena and its bucket, and the bucket is marked for redraw |
| Track.Track.Stop | track.go:200-219 | either no span matches and nothing changes, or the state is `TrackStopStep` at the bucket of the first match |
| Track.Track.ShortenAt | track.go:210-216 | ends the first matching span at `now` and recomputes the bucket's end |
| Track.Track.SetGridSteps | track.go:221-227 | stores the grid steps and marks everything for redraw |
| Track.Track.Cleanup | track.go:295-331 | drops expired buckets and moves exactly the expired images to the pool, keeping the track valid |
| Track.Track.GetGrid | track.go:334-393 | the grid has an image afterwards; the state changes only as `FreshGrid` says |
| Track.Track.GetCached | track.go:396-488 | returns the bucket's image; a ready bucket is returned as is; otherwise the spans overlapping its window are collected; it is fatal if a bucket fails `Validate`, and otherwise fatal iff a collected span is hidden in the window `[t, t + BucketSize]` (the inline checks of track.go:443-466 are drawSpan's, so `HiddenRejected` applies); without a fatal error the cache becomes `TrackRendered` |
| Track.Track.PrepareBucket | track.go:401-424 | the cache becomes `TrackPrepare` of the old cache |
| Track.Track.MarkReady | track.go:485 | sets only the bucket's ready flag |
| Note.Wrap64 | note.go:56 | Go's `int` arithmetic wraps modulo 2^64 and leaves values in the int64 range unchanged |
| Note.WhiteNonNegative | note.go:11-14 | for a non-negative note, whiteness depends only on its degree modulo 12 and repeats every octave |
| Note.WhiteNegative | note.go:11-14 | with Go's truncating `%`, a negative note is white only when it is a multiple of 12 |
| Note.IsWhite | note.go:11-14 | the key colour test: Go's truncating remainder by 12 is one of the seven white degrees; its properties are `WhiteNonNegative`, `WhiteNegative` and `WhiteOctaves` |
| Note.ToLower | note.go:27 | lower-casing maps any ASCII letter to a lower-case letter and keeps lower-case letters |
| Note.Atoi | note.go:52-55 | `strconv.Atoi` accepts exactly an optional sign followed by one or more digits whose value fits in int64, and returns that signed value |
| Note.ShowNat | note.go:52 | the decimal form of a natural number is a non-empty digit string |
| Note.ShowNatValue | note.go:52 | the decimal form reads back as the same number |
| Note.AtoiShow | note.go:52-55 | `Atoi` reads back every int64 written in decimal |
| Note.Natural | note.go:28-31 | only the degrees a to g have a natural note |
| Note.Accidental | note.go:38-49 | `s` and `#` raise by one, `f` and `b` lower by one, anything else is no accidental |
| Note.NewNote | note.go:16-59 | a name shorter than two characters, a non-letter degree, a letter outside a to g, or a second character that is neither a digit nor an accidental is refused with that error |
| Note.NewNoteDegree | note.go:32-56 | after a valid degree, a digit starts the octave at once; otherwise the accidental must be valid and the octave follows it |
| Note.NewNoteName | note.go:16-59 | the name of a degree, an accidental and an octave parses to the natural plus the shift plus 12 times the octave, wrapped as Go wraps it |
| Note.NewNoteNameExact | note.go:16-59 | when 12 times the octave fits in int64 with room for the degree, the parsed note is exactly natural + shift + 12·octave |
| Note.NewNoteAccepts | note.go:16-59 | every accepted name has a valid degree and either a digit octave or a valid accidental and octave, and its value is computed from those |
| Note.NewNoteSignNeedsAccidental | note.go:33-49 | a sign right after the degree is refused as an invalid accidental |
| Note.NewNoteNeedsOctave | note.go:52-55 | a degree and accidental without an octave is refused by `Atoi` |
| Note.AddOctave | note.go:52-56 | the octave step of `NewNote`: an octave that `Atoi` refuses is an error, otherwise twelve per octave are added in 64-bit wrapping arithmetic |
| Note.NaturalIsWhite | note.go:11-31 | a natural note in a non-negative octave is a white key |
| Note.WhiteOctaves | note.go:11-14 | a white degree stays white in every non-negative octave |
| Note.NaturalsWhite | note.go:11-31 | all seven naturals are white degrees within one octave |
| Note.HugeOctaveWraps | note.go:56 | `c768614336404564651` wraps to -9223372036854775804, which is not a white key |
| Note.WrapAbove | note.go:56 | a value just above the int64 maximum wraps down by 2^64 |
| Keyboard.RangeStep | keyboard.go:95-107 | `SetRange` stores both bounds and drops the cached image iff either bound changed |
| Keyboard.RangeStepIdempotent | keyboard.go:95-107 | setting the same range twice equals setting it once |
| Keyboard.RangeStepSame | keyboard.go:95-107 | setting the range the keyboard already has changes nothing |
| Keyboard.Keyboard.constructor | keyboard.go:83-93 | `NewKeyboard` starts at range [0, 0] with no image |
| Keyboard.Keyboard.SetRange | keyboard.go:95-107 | the state changes only as `RangeStep` says |
| Keyboard.Keyboard.GetCached | keyboard.go:109-117 | returns the cached image, making a new one only when there is none |
| Header.StepsValid | header.go:57-129 | every setter and highlight delivery keeps the header state valid |
| Header.RangeStep | header.go:57-73 | stores both bounds; a changed bound drops the base and overlay images; the same range changes nothing |
| Header.ActiveStep | header.go:75-95 | a different active list is stored and invalidates the overlay; the same list changes nothing |
| Header.HighlightStep | header.go:97-118 | a different highlight list is stored and invalidates the overlay and the delivery; the same list changes nothing |
| Header.Deliver | header.go:120-129 | the highlight is returned iff it was not delivered yet, and afterwards it counts as delivered |
| Header.DeliverOnce | header.go:97-129 | after a new highlight, the first read returns it and any later read returns nothing, even if the same list is set again |
| Header.SettersKeepDelivery | header.go:57-95 | setting the range or the active list does not re-deliver the highlight |
| Header.SettersIdempotent | header.go:57-118 | each setter called twice with the same value equals one call |
| Header.KeyColour | header.go:190-207 | a key is drawn in a white colour iff it is a white key; active wins over highlighted, which wins over plain |
| Header.DrawKey | header.go:142-210 | one key drawn: the note, its state colour from `KeyColour` and its outline from `KeyShape` |
| Header.DrawPad | header.go:212-231 | one drum pad drawn: the position, lit or plain, and the square pad outline |
| Header.KeyShape | header.go:150-189 | a white key has a notch on a side iff the neighbour there is black and it is not the range's edge on that side |
| Header.BlackBetweenWhites | header.go:150-151 | every black key above zero lies between two white keys |
| Header.NotchesOfEAndB | header.go:150-189 | inside the range, E and B have only a left notch and C and F only a right notch |
| Header.BaseDrawsNotes | header.go:245-251 | the base image draws each note of the range once, in order, as a plain key or a plain pad |
| Header.HighlightDraws | header.go:269-275 | a keyboard draws each highlighted note as a highlighted key, in order; pads draw no highlights |
| Header.ActiveDraws | header.go:277-283 | each active note is drawn once, in order, as an active key or an active pad |
| Header.TopmostOfNone | header.go:256-288 | a note never drawn has no topmost draw |
| Header.TopmostAppend | header.go:256-288 | later draws of other notes do not change a note's topmost draw |
| Header.TopmostSuffix | header.go:256-288 | a later draw of the same note covers every earlier one |
| Header.TopmostFound | header.go:256-288 | a note drawn only one way shows that draw |
| Header.OverlayShows | header.go:256-288 | in the overlay an active note shows as active, a highlighted keyboard note as highlighted, and any other note shows nothing |
| Header.ListChanged | header.go:79-89 | the comparison loop reports a change iff the stored and incoming lists differ |
| Header.DrawHighlights | header.go:269-275 | the highlight loop produces exactly `HighlightDraws` |
| Header.DrawActive | header.go:277-283 | the active loop produces exactly `ActiveDraws` |
| Header.DrawBase | header.go:245-251 | the base loop produces exactly `BaseDraws` over `[min, max]` |
| Header.Header.constructor | header.go:39-55 | `NewHeader` starts at range [0, 0] with no lists, no images and a pad layout |
| Header.Header.SetRange | header.go:57-73 | the state changes only as `RangeStep` says |
| Header.Header.SetActive | header.go:75-95 | the state changes only as `ActiveStep` says |
| Header.Header.SetHighlight | header.go:97-118 | the state changes only as `HighlightStep` says |
| Header.Header.GetUpdatedHighlight | header.go:120-129 | returns and records the delivery as `Deliver` says |
| Header.Header.GetBase | header.go:233-254 | returns the base image; only when there was none does it make one and draw the range into it |
| Header.Header.GetOverlay | header.go:256-288 | returns the overlay image, making it only if missing; only when it was not ready does it redraw the highlights and active notes, and then it is ready |
| Trosces.IdFor | trosces.go:52-60 | the id `Get` returns: the stored id of a known name, the next free id for a new one |
| Trosces.Interned | trosces.go:52-60 | `Get` adds the name if it is new, giving it the next id, and keeps every existing name's id |
| Trosces.InternedInv | trosces.go:52-60 | interning keeps the mapper's ids dense and one-to-one with the interned names |
| Trosces.DenseIds | trosces.go:45-60 | the ids handed out are exactly `0 .. nextId-1`, and different names get different ids |
| Trosces.InternedIdempotent | trosces.go:52-60 | interning a name twice is interning it once, with the same id |
| Trosces.Mapper.constructor | trosces.go:45-50 | `NewMapper` starts empty with next id 0 |
| Trosces.Mapper.Get | trosces.go:52-60 | returns the name's id, new or existing, and the mapper becomes `Interned` |
| Trosces.VariantsStep | trosces.go:119-126 | a layer's variant mapper is created on first use and then interns the variant; other layers' mappers are unchanged |
| Trosces.VariantsStepInv | trosces.go:119-126 | interning a variant keeps every layer's variant ids dense and one-to-one |
| Trosces.FirstVariantIsZero | trosces.go:119-126 | the first variant of a new layer gets id 0 |
| Trosces.NoteDuration | trosces.go:101-108 | a zero note duration becomes 24 hours; any other duration is kept |
| Trosces.DrumDuration | trosces.go:110-117 | a zero drum duration becomes an eighth of a second; any other duration is kept |
| Trosces.Track.constructor | trosces.go:16-20 | a track pairs a header, a trail and a mapper |
| Trosces.Track.Resolve | trosces.go:22-25 | prunes the trail's active spans, sets the header's range to the trail's lane range and its active list to the sorted active lanes |
| Trosces.NewTrack | trosces.go:70-97 | each track gets a fresh valid trail with the given bucket size and length, an empty mapper and a header of the given kind |
| Trosces.Trosces.constructor | trosces.go:70-97 | keyboard and drums use 1s buckets over 4s, layers 8s buckets over 120s; only the keyboard header draws a keyboard |
| Trosces.Trosces.PlayNote | trosces.go:101-108 | interns the instrument and adds a span with its id at the note's lane, for the note duration |
| Trosces.Trosces.PlayDrum | trosces.go:110-117 | interns the instrument and adds a span whose id and lane are both its id, for the drum duration |
| Trosces.Trosces.PlayLayer | trosces.go:119-126 | interns the layer name and the variant within that layer, and adds a span at the layer's lane coloured by the variant's id |
| Trosces.Trosces.InternVariant | trosces.go:121-124 | interns the variant in the layer's own mapper and returns its id |
| Osc.CheckArgs | osc.go:15-20 | no error iff the argument count lies in `[min, max]` |
| Osc.NameArg | osc.go:22-28 | only a string argument is a name; anything else is not a string |
| Osc.NoteArg | osc.go:30-40 | a note argument must be a string that `NewNote` accepts; either step's error is passed on |
| Osc.NumberArg | osc.go:42-48 | only an int32 argument is a number |
| Osc.DurationArg | osc.go:50-64 | a float32, float64 or int32 is taken as that many beats; anything else is not a number |
| Osc.OptionalDuration | osc.go:92-97 | a trailing duration argument, when present, gives its beats; a missing one gives zero |
| Osc.HandlePlay | osc.go:69-100 | a wrong count, a non-string instrument or a bad note is refused at that argument |
| Osc.HandleDrum | osc.go:102-127 | a wrong count or a non-string instrument is refused at that argument |
| Osc.HandleLayer | osc.go:129-160 | a wrong count, a non-string name or a non-numeric duration is refused at that argument |
| Osc.HandleSync | osc.go:162-177 | any count other than one is refused |
| Osc.PlayAccepts | osc.go:69-100 | `/play` yields a note iff it has 2 or 3 arguments, a string instrument, a note `NewNote` accepts and a numeric duration if present; the command carries those values, with duration zero when absent |
| Osc.DrumAccepts | osc.go:102-127 | `/drum` yields a drum hit iff it has 1 or 2 arguments, a string instrument and a numeric duration if present |
| Osc.LayerAccepts | osc.go:129-160 | `/layer` yields a layer iff it has 2 or 3 arguments, a string name, a numeric duration and a string variant if present, which defaults to empty |
| Osc.SyncAccepts | osc.go:162-177 | `/sync` yields a tempo iff its only argument is an int32 |
| Osc.HandlersDispatchOnce | osc.go:66-188 | each handler yields only its own kind of command |

## Left out

- Pixel geometry and painting are not modelled: `getGrid`'s grid lines, `drawSpan`'s rectangles, the drawing body of `track.go`'s `getCached`, the keyboard's key paths, and the `Draw` scroll offsets. Render methods return the draws instead.
- Trail.Trail.GetCached, Trail.Trail.Render, Trail.Trail.DrawWindow, Track.Track.GetCached: the `log.Fatalf` pixel checks of `drawSpan` (trail.go:467-478) and of the inline copy in `track.go`'s `getCached` (track.go:455-466) are modelled only for collected spans hidden in the window. Those are degenerate spans (`end <= start`) and forward spans that start exactly at the window's end or end exactly at its start, the edges the closed `InRange` lets through. Such a span fails a check whatever the scale (`HiddenRejected`), so in both files `getCached` exits, and the model reports `fatal`. For any other collected span, the model reports no fatal error, but the source can still exit. Its rows depend on `secondSize`, on the image height rounded down to an integer (trail.go:346-349, track.go:412-415), and on float32 rounding; a span ending just after the window's start, for instance, can get a bottom row below an image whose height was rounded down. Rows are reals in `HiddenRejected` and `ForwardAccepted`, and the image height there is any real between zero and the window's length in rows.
- `getCached`'s `log.Fatalf` on an invalid bucket is modelled as a `fatal` result. The model checks every bucket before any span is drawn. `track.go` interleaves the two, but either way the program exits.
- Concurrency is not modelled. The mutexes make each method an atomic step, and the cleanup ticker goroutine is a call to `Cleanup(now)`.
- Deferred `Dispose` calls are modelled as a ghost set of disposed images, not as the moment they run.
- `beat.go` (tempo and beat conversion), `main.go` (window and flag setup) and `trail_test.go` are not part of this model.
- The OSC server and the go-osc dispatcher's address matching are not part of this model. The handlers are modelled as functions from arguments to one command.
- Osc.PlayAccepts: the handler's call into the visualiser is not modelled. osc.go passes beat values where trosces.go takes durations, and that conversion lives in `beat.go`.
- OSC floats are reals: float32 and float64 rounding is not modelled.
- Note.NewNote: `unicode.IsLetter`, `IsDigit` and `ToLower` are modelled on ASCII. A non-ASCII letter is an invalid degree in Go but "not a letter" here; both are refused.
- Note.Atoi: the different error kinds of `strconv.Atoi` (syntax, range) are one error kind here.
- Nil and empty slices are not told apart. `GetUpdatedHighlight` returning an empty highlight and returning nil are distinguished by `Some([])` and `None`.
- `Keyboard.getCached`'s drawing and `Keyboard.Draw` are not modelled; only its image bookkeeping is.
- `Header.Draw`, `Header.Width`, `trosces.go`'s `Track.Draw` and `Track.Width`, and `Trosces.Update`, `Draw` and `Layout` are not modelled. They are drawing, input polling and window geometry.
- `Trosces.Sync` is not modelled: its body in the source is only a `TODO: unimplemented` comment (trosces.go:128-130).
- Trosces.Mapper.Get: the `nextId` counter is an unbounded integer; Go int overflow after 2^63 names is not modelled.
- Trosces.Trosces.PlayLayer: the per-layer variant mappers are held as values in a map rather than as separate Mapper objects. Nothing else refers to them, so no aliasing is lost.
- `time.Now()` is a `now` parameter of every operation that reads the clock.
- `NewTrail`'s and `NewTrack`'s `secondSize`, `posWidth` and `borderWidth` are float layout values and are not modelled.
- `trail.go`'s `Stop` is marked unused in the source but is modelled, like `track.go`'s.
