/**
 * header.go: the strip above a trail that shows which keys (or drum pads)
 * exist, which are sounding and which are highlighted. Two cached images:
 * the base (every key, redrawn when the range changes) and the overlay
 * (active and highlighted keys, redrawn when either list changes).
 */
module Header {
  import opened Prelude
  import opened Note

  /** The header's bookkeeping, without the image contents. */
  datatype HeaderState = HeaderState(min: int, max: int, active: seq<int>, highlight: seq<int>,
                                     highlightDelivered: bool, base: Option<Image>, overlay: Option<Image>,
                                     overlayReady: bool)

  /** A ready overlay exists: setters drop the overlay only together with its readiness. */
  ghost predicate HeaderValid(s: HeaderState)
  {
    s.overlayReady ==> s.overlay.Some?
  }

  /** Every setter and GetUpdatedHighlight keep the overlay invariant. */
  lemma StepsValid(s: HeaderState, min: int, max: int, list: seq<int>)
    requires HeaderValid(s)
    ensures HeaderValid(RangeStep(s, min, max)) && HeaderValid(ActiveStep(s, list))
    ensures HeaderValid(HighlightStep(s, list)) && HeaderValid(Deliver(s).state)
  {
  }

  /** SetRange: each bound that differs is stored and both images are dropped. */
  function RangeStep(s: HeaderState, min: int, max: int): (r: HeaderState)
    ensures r.min == min && r.max == max
    ensures r.active == s.active && r.highlight == s.highlight && r.highlightDelivered == s.highlightDelivered
    ensures s.min == min && s.max == max ==> r == s
    ensures s.min != min || s.max != max ==> r.base == None && r.overlay == None && !r.overlayReady
  {
    var s1 := if s.min != min then s.(min := min, base := None, overlay := None, overlayReady := false) else s;
    if s1.max != max then s1.(max := max, base := None, overlay := None, overlayReady := false) else s1
  }

  /** SetActive: a list different from the stored one is stored and the overlay marked stale. */
  function ActiveStep(s: HeaderState, active: seq<int>): (r: HeaderState)
    ensures r.active == active
    ensures s.active == active ==> r == s
    ensures s.active != active ==> r == s.(active := active, overlayReady := false)
  {
    if s.active != active then s.(active := active, overlayReady := false) else s
  }

  /** SetHighlight: as SetActive, and the new highlight is yet to be delivered. */
  function HighlightStep(s: HeaderState, highlight: seq<int>): (r: HeaderState)
    ensures r.highlight == highlight
    ensures s.highlight == highlight ==> r == s
    ensures s.highlight != highlight ==> r == s.(highlight := highlight, overlayReady := false, highlightDelivered := false)
  {
    if s.highlight != highlight then s.(highlight := highlight, overlayReady := false, highlightDelivered := false)
    else s
  }

  datatype Delivery = Delivery(highlight: Option<seq<int>>, state: HeaderState)

  /** GetUpdatedHighlight: the highlight if it has not been handed out yet (None is Go's nil). */
  function Deliver(s: HeaderState): (r: Delivery)
    ensures r.state == s.(highlightDelivered := true)
    ensures r.highlight == if s.highlightDelivered then None else Some(s.highlight)
  {
    if !s.highlightDelivered then Delivery(Some(s.highlight), s.(highlightDelivered := true))
    else Delivery(None, s)
  }

  /**
   * A changed highlight is handed out exactly once: the next
   * GetUpdatedHighlight returns it, the one after returns nil, and setting
   * the same highlight again does not make it due again.
   */
  lemma DeliverOnce(s: HeaderState, highlight: seq<int>)
    requires highlight != s.highlight
    ensures var first := Deliver(HighlightStep(s, highlight));
      && first.highlight == Some(highlight)
      && Deliver(first.state).highlight == None
      && Deliver(HighlightStep(first.state, highlight)).highlight == None
  {
  }

  /** Range, active and highlight updates never hand out a highlight nor consume one, except a new highlight. */
  lemma SettersKeepDelivery(s: HeaderState, min: int, max: int, active: seq<int>)
    ensures RangeStep(s, min, max).highlightDelivered == s.highlightDelivered
    ensures ActiveStep(s, active).highlightDelivered == s.highlightDelivered
    ensures Deliver(RangeStep(s, min, max)).highlight == Deliver(s).highlight
  {
  }

  /** Each setter applied twice with the same argument is applied once. */
  lemma SettersIdempotent(s: HeaderState, min: int, max: int, list: seq<int>)
    ensures RangeStep(RangeStep(s, min, max), min, max) == RangeStep(s, min, max)
    ensures ActiveStep(ActiveStep(s, list), list) == ActiveStep(s, list)
    ensures HighlightStep(HighlightStep(s, list), list) == HighlightStep(s, list)
  {
  }

  // --- drawKey's colour and shape choices ---

  /** The header's six key colours. */
  datatype Colour = White | WhiteHighlight | WhiteActive | Black | BlackHighlight | BlackActive

  /** drawKey's colour: white or black palette by the key, then active over highlight over plain. */
  function KeyColour(note: int, active: bool, highlight: bool): (c: Colour)
    ensures IsWhite(note) <==> c in {White, WhiteHighlight, WhiteActive}
    ensures active ==> c in {WhiteActive, BlackActive}
    ensures !active && highlight ==> c in {WhiteHighlight, BlackHighlight}
    ensures !active && !highlight ==> c in {White, Black}
  {
    if IsWhite(note) then
      if active then WhiteActive else if highlight then WhiteHighlight else White
    else
      if active then BlackActive else if highlight then BlackHighlight else Black
  }

  /** drawPad's colour: the white palette, active or plain. */
  function PadColour(active: bool): Colour
  {
    if active then WhiteActive else White
  }

  /**
   * The outline drawKey traces: a white key leaves a notch at each side
   * with a black neighbour; there is no neighbour beyond either end of the
   * range. A black key is a plain block.
   */
  datatype Shape = WhiteKey(leftBlack: bool, rightBlack: bool) | BlackKey | PadShape

  function KeyShape(note: int, min: int, max: int): (r: Shape)
    ensures r.WhiteKey? <==> IsWhite(note)
    ensures r.WhiteKey? ==> (r.leftBlack <==> note != min && !IsWhite(note - 1))
    ensures r.WhiteKey? ==> (r.rightBlack <==> note != max && !IsWhite(note + 1))
  {
    var leftBlack := if note == min then false else !IsWhite(note - 1);
    var rightBlack := if note == max then false else !IsWhite(note + 1);
    if IsWhite(note) then WhiteKey(leftBlack, rightBlack) else BlackKey
  }

  /** The black degrees: between two white ones each. */
  lemma BlackBetweenWhites(n: int)
    requires n >= 1 && !IsWhite(n)
    ensures IsWhite(n - 1) && IsWhite(n + 1)
  {
    WhiteNonNegative(n);
    WhiteNonNegative(n - 1);
    WhiteNonNegative(n + 1);
    var d := n % 12;
    assert n == 12 * (n / 12) + d;
    assert (n - 1) % 12 == d - 1 by {
      assert n - 1 == 12 * (n / 12) + (d - 1);
    }
    assert (n + 1) % 12 == d + 1 by {
      assert n + 1 == 12 * (n / 12) + (d + 1);
    }
  }

  /**
   * E and B (degrees 4 and 11) have no black key above them, C and F
   * (degrees 0 and 5) none below: inside the range their outlines have no
   * notch on that side.
   */
  lemma NotchesOfEAndB(note: int, min: int, max: int)
    requires note >= 1 && min < note < max
    ensures note % 12 == 4 || note % 12 == 11 ==> KeyShape(note, min, max) == WhiteKey(true, false)
    ensures note % 12 == 0 || note % 12 == 5 ==> KeyShape(note, min, max) == WhiteKey(false, true)
  {
    WhiteNonNegative(note);
    WhiteNonNegative(note - 1);
    WhiteNonNegative(note + 1);
    var d := note % 12;
    assert note == 12 * (note / 12) + d;
    if d == 11 {
      assert (note + 1) % 12 == 0 by {
        assert note + 1 == 12 * (note / 12 + 1);
      }
      assert (note - 1) % 12 == 10 by {
        assert note - 1 == 12 * (note / 12) + 10;
      }
    } else if d == 0 {
      assert (note - 1) % 12 == 11 by {
        assert note - 1 == 12 * (note / 12 - 1) + 11;
      }
      assert (note + 1) % 12 == 1 by {
        assert note + 1 == 12 * (note / 12) + 1;
      }
    } else if d == 4 || d == 5 {
      assert (note - 1) % 12 == d - 1 by {
        assert note - 1 == 12 * (note / 12) + (d - 1);
      }
      assert (note + 1) % 12 == d + 1 by {
        assert note + 1 == 12 * (note / 12) + (d + 1);
      }
    }
  }

  /** One drawKey or drawPad call: which note, in which colour, with which outline. */
  datatype KeyDraw = KeyDraw(note: int, colour: Colour, shape: Shape)

  /** drawKey: the key of `note` in its state colour and with its keyboard outline for [min, max]. */
  function DrawKey(note: int, min: int, max: int, active: bool, highlight: bool): KeyDraw
  {
    KeyDraw(note, KeyColour(note, active, highlight), KeyShape(note, min, max))
  }

  /** drawPad: the pad of `pos`, lit or plain, always the same square outline. */
  function DrawPad(pos: int, active: bool): KeyDraw
  {
    KeyDraw(pos, PadColour(active), PadShape)
  }

  /** getBase's drawing: every note of [min, hi) in ascending order, plain, as keys or pads. */
  function BaseDraws(keyboard: bool, min: int, max: int, hi: int): seq<KeyDraw>
    decreases hi - min
  {
    if hi <= min then []
    else BaseDraws(keyboard, min, max, hi - 1) + [if keyboard then DrawKey(hi - 1, min, max, false, false) else DrawPad(hi - 1, false)]
  }

  /** The base shows each note of [min, max] once, in ascending order, in its plain colour. */
  lemma {:induction false} BaseDrawsNotes(keyboard: bool, min: int, max: int, hi: int)
    requires min <= hi
    ensures var r := BaseDraws(keyboard, min, max, hi);
      && |r| == hi - min
      && forall i :: 0 <= i < |r| ==> r[i].note == min + i && r[i].colour == (if keyboard then KeyColour(min + i, false, false) else White)
    decreases hi - min
  {
    if hi > min {
      BaseDrawsNotes(keyboard, min, max, hi - 1);
    }
  }

  /** getOverlay's drawing: the highlighted keys (none for pads), then the active ones over them. */
  function OverlayDraws(keyboard: bool, min: int, max: int, highlight: seq<int>, active: seq<int>): seq<KeyDraw>
  {
    HighlightDraws(keyboard, min, max, highlight) + ActiveDraws(keyboard, min, max, active)
  }

  function HighlightDraws(keyboard: bool, min: int, max: int, highlight: seq<int>): (r: seq<KeyDraw>)
    ensures keyboard ==> |r| == |highlight| && forall k :: 0 <= k < |r| ==> r[k] == DrawKey(highlight[k], min, max, false, true)
    ensures !keyboard ==> r == []
  {
    if !keyboard || highlight == [] then []
    else
      HighlightDraws(keyboard, min, max, highlight[..|highlight| - 1]) + [DrawKey(highlight[|highlight| - 1], min, max, false, true)]
  }

  function ActiveDraw(keyboard: bool, min: int, max: int, note: int): KeyDraw
  {
    if keyboard then DrawKey(note, min, max, true, false) else DrawPad(note, true)
  }

  function ActiveDraws(keyboard: bool, min: int, max: int, active: seq<int>): (r: seq<KeyDraw>)
    ensures |r| == |active|
    ensures forall k :: 0 <= k < |r| ==> r[k] == ActiveDraw(keyboard, min, max, active[k])
  {
    if active == [] then []
    else ActiveDraws(keyboard, min, max, active[..|active| - 1]) + [ActiveDraw(keyboard, min, max, active[|active| - 1])]
  }

  /** The last draw of a note in a sequence of draws: what shows on top once all are done. */
  function Topmost(draws: seq<KeyDraw>, note: int): Option<KeyDraw>
  {
    if draws == [] then None
    else if draws[|draws| - 1].note == note then Some(draws[|draws| - 1])
    else Topmost(draws[..|draws| - 1], note)
  }

  lemma {:induction false} TopmostOfNone(draws: seq<KeyDraw>, note: int)
    requires forall k :: 0 <= k < |draws| ==> draws[k].note != note
    ensures Topmost(draws, note) == None
  {
    if draws != [] {
      TopmostOfNone(draws[..|draws| - 1], note);
    }
  }

  lemma {:induction false} TopmostAppend(a: seq<KeyDraw>, b: seq<KeyDraw>, note: int)
    requires forall k :: 0 <= k < |b| ==> b[k].note != note
    ensures Topmost(a + b, note) == Topmost(a, note)
  {
    if b != [] {
      assert (a + b)[..|a + b| - 1] == a + b[..|b| - 1];
      TopmostAppend(a, b[..|b| - 1], note);
    } else {
      assert a + b == a;
    }
  }

  /** Draws of a note made later hide every earlier draw of it. */
  lemma {:induction false} TopmostSuffix(a: seq<KeyDraw>, b: seq<KeyDraw>, note: int, k: nat)
    requires k < |b| && b[k].note == note
    ensures Topmost(a + b, note) == Topmost(b, note)
  {
    if b[|b| - 1].note != note {
      assert (a + b)[..|a + b| - 1] == a + b[..|b| - 1];
      TopmostSuffix(a, b[..|b| - 1], note, k);
    }
  }

  /** The topmost draw of a note drawn somewhere is the last draw of it. */
  lemma {:induction false} TopmostFound(draws: seq<KeyDraw>, note: int, k: nat)
    requires k < |draws| && draws[k].note == note
    requires forall j :: 0 <= j < |draws| && draws[j].note == note ==> draws[j] == draws[k]
    ensures Topmost(draws, note) == Some(draws[k])
  {
    if draws[|draws| - 1].note != note {
      TopmostFound(draws[..|draws| - 1], note, k);
    }
  }

  /**
   * What the overlay shows for a note: an active key in its active colour
   * (drawn over any highlight), else a highlighted key in its highlight
   * colour, else nothing. Pads show only the active ones.
   */
  lemma OverlayShows(keyboard: bool, min: int, max: int, highlight: seq<int>, active: seq<int>, note: int)
    ensures var top := Topmost(OverlayDraws(keyboard, min, max, highlight, active), note);
      && (note in active ==> top == Some(ActiveDraw(keyboard, min, max, note)))
      && (note !in active && note in highlight && keyboard ==> top == Some(DrawKey(note, min, max, false, true)))
      && (note !in active && (note !in highlight || !keyboard) ==> top == None)
  {
    var h := HighlightDraws(keyboard, min, max, highlight);
    var a := ActiveDraws(keyboard, min, max, active);
    if note in active {
      var i :| 0 <= i < |active| && active[i] == note;
      TopmostSuffix(h, a, note, i);
      TopmostFound(a, note, i);
    } else {
      TopmostAppend(h, a, note);
      if note in highlight && keyboard {
        var k :| 0 <= k < |h| && h[k].note == note;
        TopmostFound(h, note, k);
      } else {
        TopmostOfNone(h, note);
      }
    }
  }

  /** The lists differ: the comparison loop of SetActive and SetHighlight. */
  method ListChanged(stored: seq<int>, incoming: seq<int>) returns (changed: bool)
    ensures changed <==> stored != incoming
  {
    if |incoming| != |stored| {
      return true;
    }
    changed := false;
    var i := 0;
    while i < |stored|
      invariant 0 <= i <= |stored|
      invariant stored[..i] == incoming[..i]
    {
      if stored[i] != incoming[i] {
        return true;
      }
      i := i + 1;
    }
    assert stored == stored[..i] && incoming == incoming[..i];
  }

  /** getOverlay's first loop: the highlighted keys, in list order; pads have no highlighting. */
  method DrawHighlights(keyboard: bool, min: int, max: int, highlight: seq<int>) returns (draws: seq<KeyDraw>)
    ensures draws == HighlightDraws(keyboard, min, max, highlight)
  {
    draws := [];
    var i := 0;
    while i < |highlight|
      invariant 0 <= i <= |highlight|
      invariant draws == HighlightDraws(keyboard, min, max, highlight[..i])
    {
      assert highlight[..i + 1][..i] == highlight[..i];
      if keyboard {
        draws := draws + [DrawKey(highlight[i], min, max, false, true)];
      }
      i := i + 1;
    }
    assert highlight[..i] == highlight;
  }

  /** getOverlay's second loop: the active keys or pads, in list order. */
  method DrawActive(keyboard: bool, min: int, max: int, active: seq<int>) returns (draws: seq<KeyDraw>)
    ensures draws == ActiveDraws(keyboard, min, max, active)
  {
    draws := [];
    var j := 0;
    while j < |active|
      invariant 0 <= j <= |active|
      invariant draws == ActiveDraws(keyboard, min, max, active[..j])
    {
      assert active[..j + 1][..j] == active[..j];
      draws := draws + [ActiveDraw(keyboard, min, max, active[j])];
      j := j + 1;
    }
    assert active[..j] == active;
  }

  /** getBase's loop: every note from min to max, plain. */
  method DrawBase(keyboard: bool, min: int, max: int) returns (draws: seq<KeyDraw>)
    ensures draws == BaseDraws(keyboard, min, max, max + 1)
  {
    draws := [];
    var note := min;
    while note <= max
      invariant min <= note <= max + 1 || (note == min && max < min)
      invariant draws == BaseDraws(keyboard, min, max, note)
      decreases max - note
    {
      draws := draws + [if keyboard then DrawKey(note, min, max, false, false) else DrawPad(note, false)];
      note := note + 1;
    }
  }

  class Header {
    var min: int
    var max: int
    var active: seq<int>
    var highlight: seq<int>
    var highlightDelivered: bool
    /** Keys (the keyboard track) or drum pads. */
    var keyboard: bool
    var base: Option<Image>
    var overlay: Option<Image>
    var overlayReady: bool
    /** The token the next ebiten.NewImage returns. */
    var nextImage: nat

    ghost function State(): HeaderState
      reads this
    {
      HeaderState(min, max, active, highlight, highlightDelivered, base, overlay, overlayReady)
    }

    ghost predicate Valid()
      reads this
    {
      HeaderValid(State())
    }

    /** NewHeader: range [0, 0], nothing active or highlighted, nothing drawn, pads. */
    constructor ()
      ensures Valid() && State() == HeaderState(0, 0, [], [], false, None, None, false)
      ensures !keyboard && nextImage == 0
    {
      min, max, active, highlight, highlightDelivered := 0, 0, [], [], false;
      keyboard := false;
      base, overlay, overlayReady := None, None, false;
      nextImage := 0;
    }

    method SetRange(min: int, max: int)
      requires Valid()
      modifies this
      ensures Valid()
      ensures State() == RangeStep(old(State()), min, max)
      ensures keyboard == old(keyboard) && nextImage == old(nextImage)
    {
      if this.min != min {
        this.min := min;
        base, overlay, overlayReady := None, None, false;
      }
      if this.max != max {
        this.max := max;
        base, overlay, overlayReady := None, None, false;
      }
    }

    method SetActive(active: seq<int>)
      requires Valid()
      modifies this
      ensures Valid()
      ensures State() == ActiveStep(old(State()), active)
      ensures keyboard == old(keyboard) && nextImage == old(nextImage)
    {
      var changed := ListChanged(this.active, active);
      if changed {
        this.active := active;
        overlayReady := false;
      }
    }

    method SetHighlight(highlight: seq<int>)
      requires Valid()
      modifies this
      ensures Valid()
      ensures State() == HighlightStep(old(State()), highlight)
      ensures keyboard == old(keyboard) && nextImage == old(nextImage)
    {
      var changed := ListChanged(this.highlight, highlight);
      if changed {
        this.highlight := highlight;
        overlayReady := false;
        highlightDelivered := false;
      }
    }

    method GetUpdatedHighlight() returns (result: Option<seq<int>>)
      requires Valid()
      modifies this
      ensures Valid()
      ensures Delivery(result, State()) == Deliver(old(State()))
      ensures keyboard == old(keyboard) && nextImage == old(nextImage)
    {
      if !highlightDelivered {
        highlightDelivered := true;
        return Some(highlight);
      }
      return None;
    }

    /**
     * getBase: the base image, drawn afresh (every note of the range, in
     * order) only when there is none; `draws` is what was drawn into it.
     */
    method GetBase() returns (image: Image, draws: seq<KeyDraw>)
      requires Valid()
      modifies this
      ensures Valid()
      ensures base == Some(image)
      ensures old(base).Some? ==> image == old(base).value && draws == [] && nextImage == old(nextImage)
      ensures old(base).None? ==>
        image == Image(old(nextImage)) && nextImage == old(nextImage) + 1 && draws == BaseDraws(keyboard, min, max, max + 1)
      ensures State() == old(State()).(base := Some(image)) && keyboard == old(keyboard)
    {
      draws := [];
      if base.None? {
        base := Some(Image(nextImage));
        nextImage := nextImage + 1;
        draws := DrawBase(keyboard, min, max);
      }
      image := base.value;
    }

    /**
     * getOverlay: the overlay image, redrawn (highlighted keys, then active
     * ones) only when it is not ready, and ready afterwards; the image itself
     * is created only when there is none.
     */
    method GetOverlay() returns (image: Image, draws: seq<KeyDraw>)
      requires Valid()
      modifies this
      ensures Valid() && overlay == Some(image) && overlayReady
      ensures old(overlayReady) ==> draws == []
      ensures !old(overlayReady) ==> draws == OverlayDraws(keyboard, min, max, highlight, active)
      ensures old(overlay).Some? ==> image == old(overlay).value && nextImage == old(nextImage)
      ensures old(overlay).None? ==> image == Image(old(nextImage)) && nextImage == old(nextImage) + 1
      ensures State() == old(State()).(overlay := Some(image), overlayReady := true) && keyboard == old(keyboard)
    {
      draws := [];
      if !overlayReady {
        if overlay.None? {
          overlay := Some(Image(nextImage));
          nextImage := nextImage + 1;
        }
        var highlighted := DrawHighlights(keyboard, min, max, highlight);
        var actives := DrawActive(keyboard, min, max, active);
        draws := highlighted + actives;
        overlayReady := true;
      }
      image := overlay.value;
    }
  }
}
