/**
 * note.go: a note is a semitone number (a Go int, 64 bits wide); NewNote
 * reads names such as "c#4" or "Bb3", IsWhite tells the keys of a piano
 * keyboard apart.
 */
module Note {
  import opened Prelude

  const MinInt64: int := -0x8000_0000_0000_0000
  const MaxInt64: int := 0x7FFF_FFFF_FFFF_FFFF

  /** A Go int: 64-bit two's complement. */
  type Note = n: int | MinInt64 <= n <= MaxInt64

  /** Go's int arithmetic: the result wraps around modulo 2^64 into the int64 range. */
  function Wrap64(x: int): (r: Note)
    ensures (r - x) % 0x1_0000_0000_0000_0000 == 0
    ensures MinInt64 <= x <= MaxInt64 ==> r == x
  {
    (x - MinInt64) % 0x1_0000_0000_0000_0000 + MinInt64
  }

  /** The semitone degrees of the white keys within an octave; IsWhite's map answers false for any other key. */
  predicate WhiteDegree(d: int)
  {
    d == 0 || d == 2 || d == 4 || d == 5 || d == 7 || d == 9 || d == 11
  }

  /** Note.IsWhite: Go's truncating remainder by 12 is a white degree; a negative remainder never is. */
  predicate IsWhite(n: int)
  {
    WhiteDegree(GoRem(n, 12))
  }

  /** Above zero, the keyboard repeats every octave and the white keys are the seven white degrees. */
  lemma WhiteNonNegative(n: int)
    requires n >= 0
    ensures IsWhite(n) <==> WhiteDegree(n % 12)
    ensures IsWhite(n) <==> IsWhite(n + 12)
  {
    assert (n + 12) % 12 == n % 12;
  }

  /** Below zero, Go's `%` is never positive, so only multiples of 12 are white. */
  lemma WhiteNegative(n: int)
    requires n < 0
    ensures IsWhite(n) <==> n % 12 == 0
  {
    var m := (-n) % 12;
    var q := (-n) / 12;
    assert GoRem(n, 12) == -m;
    assert n == 12 * (-q) - m;
    if m == 0 {
      assert n % 12 == 0;
    } else {
      assert n == 12 * (-q - 1) + (12 - m);
      assert n % 12 == 12 - m;
    }
  }

  // --- runes, ASCII subset of the unicode package ---

  predicate IsLetter(c: char)
  {
    'a' <= c <= 'z' || 'A' <= c <= 'Z'
  }

  predicate IsDigit(c: char)
  {
    '0' <= c <= '9'
  }

  function ToLower(c: char): (r: char)
    ensures IsLetter(c) ==> IsLetter(r) && 'a' <= r <= 'z'
    ensures 'a' <= c <= 'z' ==> r == c
  {
    if 'A' <= c <= 'Z' then (c as int - 'A' as int + 'a' as int) as char else c
  }

  // --- strconv.Atoi ---

  function DigitValue(c: char): (d: nat)
    requires IsDigit(c)
    ensures d < 10
  {
    c as int - '0' as int
  }

  ghost predicate AllDigits(s: seq<char>)
  {
    forall k :: 0 <= k < |s| ==> IsDigit(s[k])
  }

  /** The number a string of decimal digits spells, most significant first. */
  function DecimalValue(s: seq<char>): (v: nat)
    requires AllDigits(s)
  {
    if s == [] then 0 else DecimalValue(s[..|s| - 1]) * 10 + DigitValue(s[|s| - 1])
  }

  /**
   * strconv.Atoi: an optional `+` or `-`, then one or more decimal digits,
   * whose value must fit in an int. Every failure (syntax or range) is None.
   */
  function Atoi(s: seq<char>): (r: Option<Note>)
    ensures r.Some? <==> (var d := Unsigned(s);
      |d| > 0 && AllDigits(d) && MinInt64 <= Signed(s, DecimalValue(d)) <= MaxInt64)
    ensures r.Some? ==> r.value == Signed(s, DecimalValue(Unsigned(s)))
  {
    var digits := Unsigned(s);
    if |digits| == 0 || exists k :: 0 <= k < |digits| && !IsDigit(digits[k]) then None
    else
      var v := Signed(s, DecimalValue(digits));
      if MinInt64 <= v <= MaxInt64 then Some(v) else None
  }

  /** The string Atoi reads has a leading minus sign. */
  predicate Negative(s: seq<char>)
  {
    |s| > 0 && s[0] == '-'
  }

  /** The value Atoi gives the digits' value `v`: negated after a minus sign. */
  function Signed(s: seq<char>, v: nat): int
  {
    if Negative(s) then -(v as int) else v
  }

  /** What Atoi reads as digits: the string without its sign. */
  function Unsigned(s: seq<char>): seq<char>
  {
    if |s| > 0 && (s[0] == '+' || s[0] == '-') then s[1..] else s
  }

  /** strconv.Itoa for a natural number: its decimal digits, without leading zeros. */
  function ShowNat(n: nat): (s: seq<char>)
    ensures |s| > 0 && AllDigits(s)
  {
    var last := ['0' + (n % 10) as char];
    if n < 10 then last else ShowNat(n / 10) + last
  }

  lemma {:induction false} ShowNatValue(n: nat)
    ensures DecimalValue(ShowNat(n)) == n
  {
    var s := ShowNat(n);
    if n >= 10 {
      ShowNatValue(n / 10);
      assert s[..|s| - 1] == ShowNat(n / 10);
    }
  }

  /** strconv.Itoa of an int: a minus sign before the digits of a negative one. */
  function Show(n: int): seq<char>
  {
    if n < 0 then ['-'] + ShowNat(-n) else ShowNat(n)
  }

  /** Atoi reads back what Itoa writes, for every int. */
  lemma AtoiShow(n: Note)
    ensures Atoi(Show(n)) == Some(n)
  {
    var m: nat := if n < 0 then -(n as int) else n;
    var s := Show(n);
    ShowNatValue(m);
    assert Unsigned(s) == ShowNat(m);
    assert Negative(s) <==> n < 0;
    assert Signed(s, DecimalValue(ShowNat(m))) == n;
  }

  // --- NewNote ---

  datatype NoteError =
    | TooShort           // fewer than two runes
    | NotALetter         // the first rune is not a letter
    | InvalidDegree      // a letter outside a-g
    | InvalidAccidental  // a second rune that is neither a digit nor s, #, f, b (any case)
    | BadOctave          // the rest is not an int, as strconv.Atoi reports

  /** A degree letter, a to g in either case. */
  predicate IsDegree(c: char)
  {
    'a' <= c <= 'g' || 'A' <= c <= 'G'
  }

  /** A sharp: s in either case, or #. */
  predicate IsSharp(c: char)
  {
    c == 's' || c == 'S' || c == '#'
  }

  /** A flat: f or b, in either case. */
  predicate IsFlat(c: char)
  {
    c == 'f' || c == 'F' || c == 'b' || c == 'B'
  }

  /** The natural note a degree letter names, for lower-case a-g. */
  function Natural(degree: char): (r: Option<int>)
    ensures r.Some? <==> 'a' <= degree <= 'g'
  {
    match degree
    case 'c' => Some(0)
    case 'd' => Some(2)
    case 'e' => Some(4)
    case 'f' => Some(5)
    case 'g' => Some(7)
    case 'a' => Some(9)
    case 'b' => Some(11)
    case _ => None
  }

  /** The semitone shift a non-digit second rune spells: sharp s or #, flat f or b, letters in any case. */
  function Accidental(c: char): (r: Option<int>)
    ensures r.Some? <==> IsSharp(c) || IsFlat(c)
    ensures r.Some? ==> r.value == if IsSharp(c) then 1 else -1
  {
    var l := if IsLetter(c) then ToLower(c) else c;
    match l
    case 's' => Some(1)
    case '#' => Some(1)
    case 'f' => Some(-1)
    case 'b' => Some(-1)
    case _ => None
  }

  /** NewNote's last step: `note += Note(12 * octave)` with the octave Atoi reads from `rest`. */
  function AddOctave(note: int, rest: seq<char>): (r: Result<Note, NoteError>)
  {
    match Atoi(rest)
    case None => Err(BadOctave)
    case Some(octave) => Ok(Wrap64(note + Wrap64(12 * octave)))
  }

  /**
   * NewNote: a degree letter, an optional accidental, and the octave as an
   * int, in runes. The value is the degree's natural note plus the
   * accidental plus twelve per octave, in Go's wrapping int arithmetic.
   */
  function NewNote(s: seq<char>): (r: Result<Note, NoteError>)
    ensures |s| < 2 ==> r == Err(TooShort)
    ensures |s| >= 2 && !IsLetter(s[0]) ==> r == Err(NotALetter)
    ensures |s| >= 2 && IsLetter(s[0]) && !IsDegree(s[0]) ==> r == Err(InvalidDegree)
    ensures |s| >= 2 && IsDegree(s[0]) && !IsDigit(s[1]) && !(IsSharp(s[1]) || IsFlat(s[1])) ==> r == Err(InvalidAccidental)
  {
    if |s| < 2 then Err(TooShort)
    else if !IsLetter(s[0]) then Err(NotALetter)
    else match Natural(ToLower(s[0]))
      case None => Err(InvalidDegree)
      case Some(natural) =>
        if !IsDigit(s[1]) then
          match Accidental(s[1])
          case None => Err(InvalidAccidental)
          case Some(shift) => AddOctave(natural + shift, s[2..])
        else AddOctave(natural, s[1..])
  }


  /** The natural note of a degree letter. */
  function NaturalOf(c: char): int
    requires IsDegree(c)
  {
    Natural(ToLower(c)).value
  }

  /** NewNote once the first rune is a degree letter: the rest is an accidental and an octave, or an octave. */
  lemma NewNoteDegree(s: seq<char>)
    requires |s| >= 2 && IsDegree(s[0])
    ensures NewNote(s) == if IsDigit(s[1]) then AddOctave(NaturalOf(s[0]), s[1..])
      else if Accidental(s[1]).None? then Err(InvalidAccidental)
      else AddOctave(NaturalOf(s[0]) + Accidental(s[1]).value, s[2..])
  {
  }

  /** The spelling of a note: degree letter, accidental (-1, 0 or +1), and the octave as Itoa writes it. */
  function NoteName(degree: char, shift: int, octave: int): seq<char>
  {
    [degree] + (if shift > 0 then "#" else if shift < 0 then "b" else "") + Show(octave)
  }

  /**
   * NewNote reads every spelled note back, in either letter case: the
   * natural note plus the shift plus twelve per octave (wrapping as Go's int
   * does). With no accidental the octave must not be negative, since "c-1"
   * puts '-' where the accidental goes.
   */
  lemma NewNoteName(degree: char, shift: int, octave: Note)
    requires IsDegree(degree) && -1 <= shift <= 1
    requires shift == 0 ==> octave >= 0
    ensures NewNote(NoteName(degree, shift, octave)) == Ok(Wrap64(NaturalOf(degree) + shift + Wrap64(12 * octave)))
  {
    var s := NoteName(degree, shift, octave);
    AtoiShow(octave);
    NewNoteDegree(s);
    if shift == 0 {
      assert s[1..] == Show(octave);
      assert s[1] == ShowNat(octave)[0];
    } else {
      assert s[2..] == Show(octave);
    }
  }

  /** Within int range the wrap-around never shows: the value is natural + shift + 12 * octave. */
  lemma NewNoteNameExact(degree: char, shift: int, octave: Note)
    requires IsDegree(degree) && -1 <= shift <= 1
    requires shift == 0 ==> octave >= 0
    requires MinInt64 + 1 <= 12 * octave <= MaxInt64 - 12
    ensures NewNote(NoteName(degree, shift, octave)) == Ok(NaturalOf(degree) + shift + 12 * octave)
  {
    NewNoteName(degree, shift, octave);
    NaturalsWhite(ToLower(degree));
    WrapExact(NaturalOf(degree), shift, octave);
  }

  /** NewNoteNameExact's arithmetic: in range, neither wrap changes the sum. */
  lemma WrapExact(natural: int, shift: int, octave: int)
    requires 0 <= natural < 12 && -1 <= shift <= 1
    requires MinInt64 + 1 <= 12 * octave <= MaxInt64 - 12
    ensures Wrap64(natural + shift + Wrap64(12 * octave)) == natural + shift + 12 * octave
  {
    var w := 12 * octave;
    assert Wrap64(w) == w;
    assert Wrap64(natural + shift + w) == natural + shift + w;
  }

  /**
   * Every note NewNote accepts is spelled this way: a degree letter, perhaps
   * an accidental, then an optionally signed run of digits.
   */
  lemma NewNoteAccepts(s: seq<char>)
    requires NewNote(s).Ok?
    ensures |s| >= 2 && IsDegree(s[0])
    ensures IsDigit(s[1]) ==> (Atoi(s[1..]).Some? &&
      NewNote(s).value == Wrap64(Natural(ToLower(s[0])).value + Wrap64(12 * Atoi(s[1..]).value)))
    ensures !IsDigit(s[1]) ==> ((IsSharp(s[1]) || IsFlat(s[1])) && Atoi(s[2..]).Some? &&
      NewNote(s).value == Wrap64(Natural(ToLower(s[0])).value + Accidental(s[1]).value + Wrap64(12 * Atoi(s[2..]).value)))
  {
  }

  /** A negative octave needs an accidental before it: a '-' second rune is an invalid accidental. */
  lemma NewNoteSignNeedsAccidental(degree: char, rest: seq<char>)
    requires IsDegree(degree)
    ensures NewNote([degree, '-'] + rest) == Err(InvalidAccidental)
    ensures NewNote([degree, '+'] + rest) == Err(InvalidAccidental)
  {
  }

  /** A degree letter, no accidental and no octave digits after the accidental: "c#" is rejected. */
  lemma NewNoteNeedsOctave(degree: char, shift: char)
    requires IsDegree(degree) && (IsSharp(shift) || IsFlat(shift))
    ensures NewNote([degree, shift]) == Err(BadOctave)
  {
    assert [degree, shift][2..] == [];
  }

  /** A natural note with an octave from 0 up (and within int range) is a white key. */
  lemma NaturalIsWhite(degree: char, octave: Note)
    requires IsDegree(degree)
    requires 0 <= octave && 12 * octave <= MaxInt64 - 12
    ensures NewNote(NoteName(degree, 0, octave)).Ok?
    ensures IsWhite(NewNote(NoteName(degree, 0, octave)).value)
  {
    NewNoteNameExact(degree, 0, octave);
    var n := NaturalOf(degree);
    NaturalsWhite(ToLower(degree));
    WhiteOctaves(n, octave);
  }

  /** A white degree stays white any whole number of octaves up. */
  lemma WhiteOctaves(n: int, k: nat)
    requires 0 <= n < 12 && WhiteDegree(n)
    ensures IsWhite(n + 12 * k)
  {
    WhiteNonNegative(n + 12 * k);
    AddOctaves(n, k);
  }

  /** The seven naturals lie within one octave, on white degrees. */
  lemma NaturalsWhite(degree: char)
    requires 'a' <= degree <= 'g'
    ensures 0 <= Natural(degree).value < 12 && WhiteDegree(Natural(degree).value)
    ensures Natural(degree).value % 12 == Natural(degree).value
  {
  }

  /** Whole octaves do not change the degree. */
  lemma {:induction false} AddOctaves(n: int, k: nat)
    ensures (n + 12 * k) % 12 == n % 12
  {
    if k > 0 {
      AddOctaves(n, k - 1);
      assert n + 12 * k == (n + 12 * (k - 1)) + 12;
    }
  }

  /**
   * The octave is multiplied in Go's int, so a huge one wraps: "c768614336404564651"
   * is read as a negative note four semitones below a multiple of 12, a black key.
   */
  lemma HugeOctaveWraps(octave: Note)
    requires octave == 768614336404564651
    ensures NewNote(NoteName('c', 0, octave)) == Ok(-9223372036854775804)
    ensures !IsWhite(-9223372036854775804)
  {
    NewNoteName('c', 0, octave);
    WrapAbove(12 * octave);
    assert NaturalOf('c') == 0;
    assert Wrap64(-9223372036854775804) == -9223372036854775804;
    assert GoRem(-9223372036854775804, 12) == -4;
  }

  /** Just past the int range, Go's arithmetic wraps down by 2^64. */
  lemma WrapAbove(x: int)
    requires MaxInt64 < x <= MaxInt64 + 0x1_0000_0000_0000_0000
    ensures Wrap64(x) == x - 0x1_0000_0000_0000_0000
  {
    var a := x - MinInt64;
    assert 0x1_0000_0000_0000_0000 <= a < 2 * 0x1_0000_0000_0000_0000;
    assert a % 0x1_0000_0000_0000_0000 == a - 0x1_0000_0000_0000_0000;
  }
}
