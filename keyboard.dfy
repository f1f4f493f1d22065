/**
 * keyboard.go: the on-screen piano keyboard over the note range [min, max],
 * drawn once into a cached image. The file carries its own copy of note.go
 * (NewNote, IsWhite), which is the Note module here.
 */
module Keyboard {
  import opened Prelude
  import opened Note

  /** What the keyboard's bookkeeping holds: the range and the cached image, if any. */
  datatype KeyboardState = KeyboardState(min: Note, max: Note, cached: Option<Image>)

  /**
   * SetRange as a state change: each bound that differs is stored and the
   * cached image dropped.
   */
  function RangeStep(s: KeyboardState, min: Note, max: Note): (r: KeyboardState)
    ensures r.min == min && r.max == max
    ensures r.cached == if s.min != min || s.max != max then None else s.cached
  {
    var s1 := if s.min != min then s.(min := min, cached := None) else s;
    if s1.max != max then s1.(max := max, cached := None) else s1
  }

  /** Setting a range twice is setting it once; the second call changes nothing. */
  lemma RangeStepIdempotent(s: KeyboardState, min: Note, max: Note)
    ensures RangeStep(RangeStep(s, min, max), min, max) == RangeStep(s, min, max)
  {
  }

  /** Setting the range it already has leaves the keyboard as it is, image included. */
  lemma RangeStepSame(s: KeyboardState)
    ensures RangeStep(s, s.min, s.max) == s
  {
  }

  class Keyboard {
    var min: Note
    var max: Note
    var cached: Option<Image>
    /** The token the next ebiten.NewImage returns. */
    var nextImage: nat

    ghost function State(): KeyboardState
      reads this
    {
      KeyboardState(min, max, cached)
    }

    /** NewKeyboard: the range [0, 0], nothing drawn yet. */
    constructor ()
      ensures State() == KeyboardState(0, 0, None) && nextImage == 0
    {
      min, max, cached, nextImage := 0, 0, None, 0;
    }

    method SetRange(min: Note, max: Note)
      modifies this
      ensures State() == RangeStep(old(State()), min, max)
      ensures nextImage == old(nextImage)
    {
      if this.min != min {
        this.min := min;
        cached := None;
      }
      if this.max != max {
        this.max := max;
        cached := None;
      }
    }

    /** getCached's bookkeeping: the cached image, a fresh one drawn only when there is none. */
    method GetCached() returns (image: Image)
      modifies this
      ensures cached == Some(image) && min == old(min) && max == old(max)
      ensures old(cached).Some? ==> image == old(cached).value && nextImage == old(nextImage)
      ensures old(cached).None? ==> image == Image(old(nextImage)) && nextImage == old(nextImage) + 1
    {
      if cached.None? {
        cached := Some(Image(nextImage));
        nextImage := nextImage + 1;
      }
      image := cached.value;
    }
  }
}
