/**
 * trosces.go: the three visualised tracks (keyboard, drums, layers), each a
 * header over a trail with a name-to-id mapper, and the events that feed
 * them.
 */
module Trosces {
  import opened Prelude
  import Trail
  import Header
  import Note

  // --- Mapper ---

  /** A mapper's contents: the ids handed out so far and the next one. */
  datatype Interner = Interner(nameToId: map<string, int>, nextId: int)

  const EmptyInterner := Interner(map[], 0)

  /** The id Mapper.Get returns for `name`: the stored one, or the next one for a new name. */
  function IdFor(m: Interner, name: string): int
  {
    if name in m.nameToId then m.nameToId[name] else m.nextId
  }

  /** The mapper after Mapper.Get(name): unchanged for a known name, else one more id handed out. */
  function Interned(m: Interner, name: string): (r: Interner)
    ensures r.nameToId.Keys == m.nameToId.Keys + {name}
    ensures name in r.nameToId && r.nameToId[name] == IdFor(m, name)
    ensures forall other :: other in m.nameToId ==> other in r.nameToId && r.nameToId[other] == m.nameToId[other]
  {
    if name in m.nameToId then m else Interner(m.nameToId[name := m.nextId], m.nextId + 1)
  }

  /**
   * The mapper's invariant, with `names` the names in the order they were
   * first seen: the name with id i is names[i].
   */
  ghost predicate MapperInv(m: Interner, names: seq<string>)
  {
    && |names| == m.nextId
    && Distinct(names)
    && (forall name :: name in m.nameToId <==> name in names)
    && (forall i :: 0 <= i < |names| ==> m.nameToId[names[i]] == i)
  }

  /** Getting a name keeps the invariant, a new name going to the end of the order. */
  lemma InternedInv(m: Interner, names: seq<string>, name: string)
    requires MapperInv(m, names)
    ensures MapperInv(Interned(m, name), if name in m.nameToId then names else names + [name])
  {
    if name !in m.nameToId {
      DistinctAppend(names, name);
      var names' := names + [name];
      forall i | 0 <= i < |names'| ensures Interned(m, name).nameToId[names'[i]] == i {
        if i < |names| {
          assert names'[i] == names[i] && names[i] != name;
        }
      }
    }
  }

  /** The ids handed out are exactly 0 .. nextId-1, each for one name only. */
  lemma DenseIds(m: Interner, names: seq<string>)
    requires MapperInv(m, names)
    ensures forall i :: i in m.nameToId.Values <==> 0 <= i < m.nextId
    ensures forall a, b :: a in m.nameToId && b in m.nameToId && a != b ==> m.nameToId[a] != m.nameToId[b]
  {
    forall v | v in m.nameToId.Values ensures 0 <= v < m.nextId {
      var name := KeyOf(m.nameToId, v);
      var i :| 0 <= i < |names| && names[i] == name;
    }
    forall i | 0 <= i < m.nextId ensures i in m.nameToId.Values {
      assert m.nameToId[names[i]] == i;
    }
    forall a, b | a in m.nameToId && b in m.nameToId && a != b ensures m.nameToId[a] != m.nameToId[b] {
      var i :| 0 <= i < |names| && names[i] == a;
      var j :| 0 <= j < |names| && names[j] == b;
    }
  }

  /** Getting the same name again changes nothing and gives the same id. */
  lemma InternedIdempotent(m: Interner, name: string)
    ensures Interned(Interned(m, name), name) == Interned(m, name)
    ensures IdFor(Interned(m, name), name) == IdFor(m, name)
  {
  }

  class Mapper {
    var nameToId: map<string, int>
    var nextId: int
    /** The names in order of first sight. */
    ghost var names: seq<string>

    ghost function Value(): Interner
      reads this
    {
      Interner(nameToId, nextId)
    }

    ghost predicate Valid()
      reads this
    {
      MapperInv(Value(), names)
    }

    /** NewMapper: no names, ids start at 0. */
    constructor ()
      ensures Valid() && Value() == EmptyInterner
    {
      nameToId, nextId, names := map[], 0, [];
    }

    /** Get: a known name's id, or a new name gets the next id. */
    method Get(name: string) returns (id: int)
      requires Valid()
      modifies this
      ensures Valid()
      ensures id == IdFor(old(Value()), name)
      ensures Value() == Interned(old(Value()), name)
    {
      InternedInv(Value(), names, name);
      if name in nameToId {
        return nameToId[name];
      }
      nameToId, nextId, names := nameToId[name := nextId], nextId + 1, names + [name];
      id := nameToId[name];
    }
  }

  /** A layer's variant mapper as PlayLayer finds it: the stored one, or a new empty one. */
  function VariantsOf(vs: map<int, Interner>, lNum: int): Interner
  {
    if lNum in vs then vs[lNum] else EmptyInterner
  }

  /** The layers' variant mappers after PlayLayer interns `variant` in layer `lNum`. */
  function VariantsStep(vs: map<int, Interner>, lNum: int, variant: string): (r: map<int, Interner>)
    ensures r.Keys == vs.Keys + {lNum}
    ensures forall l :: l in vs && l != lNum ==> r[l] == vs[l]
    ensures r[lNum] == Interned(VariantsOf(vs, lNum), variant)
  {
    vs[lNum := Interned(VariantsOf(vs, lNum), variant)]
  }

  /** Every layer's variant mapper keeps the mapper invariant, with its own order of names. */
  ghost predicate VariantsInv(vs: map<int, Interner>, names: map<int, seq<string>>)
  {
    vs.Keys == names.Keys && forall l :: l in vs ==> MapperInv(vs[l], names[l])
  }

  /** The variant names' order after VariantsStep: a new variant goes to the end of its layer's. */
  ghost function VariantNamesStep(vs: map<int, Interner>, names: map<int, seq<string>>, lNum: int, variant: string)
    : map<int, seq<string>>
  {
    var order := if lNum in names then names[lNum] else [];
    names[lNum := if variant in VariantsOf(vs, lNum).nameToId then order else order + [variant]]
  }

  /** PlayLayer's variant step keeps every variant mapper's invariant. */
  lemma VariantsStepInv(vs: map<int, Interner>, names: map<int, seq<string>>, lNum: int, variant: string)
    requires VariantsInv(vs, names)
    ensures VariantsInv(VariantsStep(vs, lNum, variant), VariantNamesStep(vs, names, lNum, variant))
  {
    var order := if lNum in names then names[lNum] else [];
    InternedInv(VariantsOf(vs, lNum), order, variant);
  }

  /** A layer's first variant is numbered 0, whatever other layers hold. */
  lemma FirstVariantIsZero(vs: map<int, Interner>, lNum: int, variant: string)
    requires lNum !in vs
    ensures IdFor(VariantsOf(vs, lNum), variant) == 0
    ensures VariantsStep(vs, lNum, variant)[lNum] == Interner(map[variant := 0], 1)
  {
  }

  // --- play defaults ---

  /** PlayNote's duration: zero means "forever", 24 hours. */
  function NoteDuration(d: Duration): (r: Duration)
    ensures r != 0
    ensures d != 0 ==> r == d
    ensures d == 0 ==> r == 24 * Hour
  {
    if d == 0 then 24 * Hour else d
  }

  /** PlayDrum's duration: zero means a short hit, an eighth of a second. */
  function DrumDuration(d: Duration): (r: Duration)
    ensures r != 0
    ensures d != 0 ==> r == d
    ensures d == 0 ==> r == Second / 8 == 125 * Millisecond
  {
    if d == 0 then Second / 8 else d
  }

  // --- Track (a header over a trail) ---

  class Track {
    const header: Header.Header
    const trail: Trail.Trail
    const mapper: Mapper

    ghost predicate Valid()
      reads header, trail, mapper
    {
      header.Valid() && trail.Valid() && mapper.Valid()
    }

    constructor (header: Header.Header, trail: Trail.Trail, mapper: Mapper)
      ensures this.header == header && this.trail == trail && this.mapper == mapper
    {
      this.header, this.trail, this.mapper := header, trail, mapper;
    }

    /**
     * Resolve at time `now`: the header takes the trail's lane range, then
     * the lanes of the spans sounding at `now` (ActivePos, which prunes the
     * trail's active list), ascending and each once.
     */
    method Resolve(now: Time)
      requires Valid()
      modifies header, trail
      ensures Valid()
      ensures trail.State() == old(trail.State()).(active := Trail.Prune(old(trail.arena), old(trail.active), now))
      ensures trail.disposed == old(trail.disposed)
      ensures Increasing(header.active) && Trail.LanesOf(trail.arena, trail.active, header.active)
      ensures header.State()
        == Header.ActiveStep(Header.RangeStep(old(header.State()), old(trail.minPos), old(trail.maxPos)), header.active)
    {
      header.SetRange(trail.minPos, trail.maxPos);
      var lanes := trail.ActivePos(now);
      header.SetActive(lanes);
    }
  }

  /** A track of a fresh header (keys or pads), a fresh empty trail and a fresh empty mapper. */
  method NewTrack(keyboard: bool, bucketSize: Duration, length: Duration) returns (track: Track)
    requires bucketSize > 0
    ensures fresh(track) && fresh(track.header) && fresh(track.trail) && fresh(track.mapper)
    ensures track.trail.Valid() && track.trail.bucketSize == bucketSize && track.trail.length == length
    ensures track.mapper.Valid() && track.mapper.Value() == EmptyInterner
    ensures track.header.Valid() && track.header.keyboard == keyboard
  {
    var header := new Header.Header();
    header.keyboard := keyboard;
    var trail := new Trail.Trail(bucketSize, length);
    var mapper := new Mapper();
    track := new Track(header, trail, mapper);
  }

  // --- Trosces ---

  class Trosces {
    const keyboard: Track
    const drums: Track
    const layers: Track
    /**
     * One mapper of variant names per layer id, made on the layer's first
     * use; held by value, as no other object refers to them.
     */
    var variantMappers: map<int, Interner>
    /** Each variant mapper's names in order of first sight. */
    ghost var variantNames: map<int, seq<string>>

    /** The trails the events extend, each valid and none shared. */
    ghost predicate TrailsValid()
      reads keyboard.trail, drums.trail, layers.trail
    {
      && keyboard.trail.Valid() && drums.trail.Valid() && layers.trail.Valid()
      && keyboard.trail != drums.trail && keyboard.trail != layers.trail && drums.trail != layers.trail
    }

    /** The mappers, each valid and none shared, a layer's variant mapper included. */
    ghost predicate MappersValid()
      reads this, keyboard.mapper, drums.mapper, layers.mapper
    {
      && keyboard.mapper.Valid() && drums.mapper.Valid() && layers.mapper.Valid()
      && keyboard.mapper != drums.mapper && keyboard.mapper != layers.mapper && drums.mapper != layers.mapper
      && VariantsInv(variantMappers, variantNames)
    }

    /** Every track valid: its header, its trail and its mapper. */
    ghost predicate Valid()
      reads this, keyboard.header, drums.header, layers.header, keyboard.trail, drums.trail, layers.trail,
        keyboard.mapper, drums.mapper, layers.mapper
    {
      keyboard.header.Valid() && drums.header.Valid() && layers.header.Valid() && TrailsValid() && MappersValid()
    }

    /**
     * NewTrosces: keyboard and drums over trails of one-second buckets kept
     * four seconds, layers over eight-second buckets kept two minutes; the
     * keyboard's header draws keys, the others pads.
     */
    constructor ()
      ensures Valid() && variantMappers == map[]
      ensures keyboard.trail.bucketSize == Second && keyboard.trail.length == 4 * Second
      ensures drums.trail.bucketSize == Second && drums.trail.length == 4 * Second
      ensures layers.trail.bucketSize == 8 * Second && layers.trail.length == 120 * Second
      ensures keyboard.header.keyboard && !drums.header.keyboard && !layers.header.keyboard
    {
      var k := NewTrack(true, Second, 4 * Second);
      var d := NewTrack(false, Second, 4 * Second);
      var l := NewTrack(false, 8 * Second, 120 * Second);
      keyboard, drums, layers := k, d, l;
      variantMappers, variantNames := map[], map[];
    }

    /**
     * PlayNote: the instrument's id (interned by the keyboard mapper) and
     * the note as the lane, for the duration or 24 hours if it is zero.
     */
    method PlayNote(instrument: string, note: Note.Note, duration: Duration, now: Time)
      requires MappersValid() && keyboard.trail.Valid()
      modifies keyboard.mapper, keyboard.trail
      ensures MappersValid() && keyboard.trail.Valid()
      ensures keyboard.mapper.Value() == Interned(old(keyboard.mapper.Value()), instrument)
      ensures keyboard.trail.State() == Trail.SpanStep(old(keyboard.trail.State()), keyboard.trail.bucketSize,
        IdFor(old(keyboard.mapper.Value()), instrument), note, NoteDuration(duration), now)
    {
      var iNum := keyboard.mapper.Get(instrument);
      var d := duration;
      if d == 0 {
        d := 24 * Hour;
      }
      keyboard.trail.Span(iNum, note as int, d, now);
    }

    /**
     * PlayDrum: the instrument's id (interned by the drums mapper) as both
     * the span's id and its lane, for the duration or 1/8 s if it is zero.
     */
    method PlayDrum(instrument: string, duration: Duration, now: Time)
      requires MappersValid() && drums.trail.Valid()
      modifies drums.mapper, drums.trail
      ensures MappersValid() && drums.trail.Valid()
      ensures drums.mapper.Value() == Interned(old(drums.mapper.Value()), instrument)
      ensures var iNum := IdFor(old(drums.mapper.Value()), instrument);
        drums.trail.State() == Trail.SpanStep(old(drums.trail.State()), drums.trail.bucketSize,
          iNum, iNum, DrumDuration(duration), now)
    {
      var iNum := drums.mapper.Get(instrument);
      var d := duration;
      if d == 0 {
        d := Second / 8;
      }
      drums.trail.Span(iNum, iNum, d, now);
    }

    /**
     * PlayLayer: the layer's id (interned by the layers mapper) is the lane;
     * the variant's id, interned by that layer's own mapper (made empty on
     * the layer's first use), is the span's id; the duration is used as is.
     */
    method PlayLayer(name: string, duration: Duration, variant: string, now: Time)
      requires MappersValid() && layers.trail.Valid()
      modifies this, layers.mapper, layers.trail
      ensures MappersValid() && layers.trail.Valid()
      ensures layers.mapper.Value() == Interned(old(layers.mapper.Value()), name)
      ensures var lNum := IdFor(old(layers.mapper.Value()), name);
        && variantMappers == VariantsStep(old(variantMappers), lNum, variant)
        && layers.trail.State() == Trail.SpanStep(old(layers.trail.State()), layers.trail.bucketSize,
             IdFor(VariantsOf(old(variantMappers), lNum), variant), lNum, duration, now)
    {
      var lNum := layers.mapper.Get(name);
      var vNum := InternVariant(lNum, variant);
      layers.trail.Span(vNum, lNum, duration, now);
    }

    /** PlayLayer's variant lookup, in layer `lNum`'s own mapper. */
    method InternVariant(lNum: int, variant: string) returns (vNum: int)
      requires MappersValid()
      modifies this
      ensures MappersValid()
      ensures vNum == IdFor(VariantsOf(old(variantMappers), lNum), variant)
      ensures variantMappers == VariantsStep(old(variantMappers), lNum, variant)
    {
      VariantsStepInv(variantMappers, variantNames, lNum, variant);
      vNum := IdFor(VariantsOf(variantMappers, lNum), variant);
      variantMappers, variantNames :=
        VariantsStep(variantMappers, lNum, variant), VariantNamesStep(variantMappers, variantNames, lNum, variant);
    }
  }
}
