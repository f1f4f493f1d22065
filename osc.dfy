/**
 * osc.go: decoding the arguments of the OSC messages /play, /drum, /layer
 * and /sync. Each handler checks its argument count and the type of each
 * argument in order, and either rejects the message at the first failure
 * or yields exactly one command for the visualiser.
 */
module Osc {
  import opened Prelude
  import Note

  type Int32 = x: int | -0x8000_0000 <= x < 0x8000_0000

  /**
   * A message argument, by the Go type the OSC library decodes it to. Both
   * float kinds are held as reals: the float32 and float64 rounding is not
   * modelled.
   */
  datatype Arg =
    | Str(s: string)
    | I32(i: Int32)
    | F32(f: real)
    | F64(d: real)
    | Other             // any other argument type (blobs, timetags, booleans, ...)

  /** A musical duration as beat.go counts it: a number of beats. */
  datatype Beats = Beats(beats: real)

  /** Why an argument, or the argument list, was refused. */
  datatype ArgError =
    | ArgCount(min: int, max: int, got: nat)  // expected min to max arguments
    | NotAString
    | NotAnInteger
    | NotANumber
    | BadNote(noteError: Note.NoteError)      // a string NewNote refuses

  /** CheckArgs: the number of arguments lies in [min, max]. */
  function CheckArgs(args: seq<Arg>, min: int, max: int): (r: Option<ArgError>)
    ensures r.None? <==> min <= |args| <= max
    ensures r.Some? ==> r.value == ArgCount(min, max, |args|)
  {
    if |args| < min || |args| > max then Some(ArgCount(min, max, |args|)) else None
  }

  /** NameArg: only a string argument is a name. */
  function NameArg(arg: Arg): (r: Result<string, ArgError>)
    ensures r.Ok? <==> arg.Str?
    ensures r.Ok? ==> r.value == arg.s
    ensures r.Err? ==> r.error == NotAString
  {
    match arg
    case Str(s) => Ok(s)
    case _ => Err(NotAString)
  }

  /** NoteArg: a name that NewNote accepts; either step's error is passed on. */
  function NoteArg(arg: Arg): (r: Result<Note.Note, ArgError>)
    ensures r.Ok? <==> arg.Str? && Note.NewNote(arg.s).Ok?
    ensures r.Ok? ==> r.value == Note.NewNote(arg.s).value
    ensures !arg.Str? ==> r == Err(NotAString)
    ensures arg.Str? && Note.NewNote(arg.s).Err? ==> r == Err(BadNote(Note.NewNote(arg.s).error))
  {
    match NameArg(arg)
    case Err(e) => Err(e)
    case Ok(name) =>
      match Note.NewNote(name)
      case Err(e) => Err(BadNote(e))
      case Ok(note) => Ok(note)
  }

  /** NumberArg: only an int32 argument is a number, widened to int. */
  function NumberArg(arg: Arg): (r: Result<int, ArgError>)
    ensures r.Ok? <==> arg.I32?
    ensures r.Ok? ==> r.value == arg.i as int
    ensures r.Err? ==> r.error == NotAnInteger
  {
    match arg
    case I32(i) => Ok(i as int)
    case _ => Err(NotAnInteger)
  }

  /** The argument types DurationArg accepts. */
  predicate IsNumeric(arg: Arg)
  {
    arg.F32? || arg.F64? || arg.I32?
  }

  /**
   * DurationArg: a float32 is taken as beats first, then a float64, then an
   * int32 (through NumberArg); anything else is not a number.
   */
  function DurationArg(arg: Arg): (r: Result<Beats, ArgError>)
    ensures r.Ok? <==> IsNumeric(arg)
    ensures arg.F32? ==> r == Ok(Beats(arg.f))
    ensures arg.F64? ==> r == Ok(Beats(arg.d))
    ensures arg.I32? ==> r == Ok(Beats(arg.i as real))
    ensures r.Err? ==> r.error == NotANumber
  {
    match arg
    case F32(f) => Ok(Beats(f))
    case F64(d) => Ok(Beats(d))
    case _ =>
      match NumberArg(arg)
      case Err(_) => Err(NotANumber)
      case Ok(i) => Ok(Beats(i as real))
  }

  /** The single visualiser call a message leads to. */
  datatype Command =
    | PlayNote(instrument: string, note: Note.Note, duration: Beats)
    | PlayDrum(instrument: string, duration: Beats)
    | PlayLayer(name: string, duration: Beats, variant: string)
    | Sync(bpm: int)

  /** A rejected message: the argument that failed (None for the count) and why. */
  datatype Rejection = Rejection(index: Option<nat>, error: ArgError)

  /** An absent optional duration: the zero value. */
  const NoDuration := Beats(0.0)

  /**
   * The /play handler: instrument, note and an optional duration
   * (zero when absent), checked in that order.
   */
  function HandlePlay(args: seq<Arg>): (r: Result<Command, Rejection>)
    ensures !(2 <= |args| <= 3) ==> r == Err(Rejection(None, ArgCount(2, 3, |args|)))
    ensures 2 <= |args| <= 3 && !args[0].Str? ==> r == Err(Rejection(Some(0), NotAString))
    ensures 2 <= |args| <= 3 && args[0].Str? && NoteArg(args[1]).Err? ==>
      r == Err(Rejection(Some(1), NoteArg(args[1]).error))
  {
    match CheckArgs(args, 2, 3)
    case Some(e) => Err(Rejection(None, e))
    case None =>
      match NameArg(args[0])
      case Err(e) => Err(Rejection(Some(0), e))
      case Ok(instrument) =>
        match NoteArg(args[1])
        case Err(e) => Err(Rejection(Some(1), e))
        case Ok(note) =>
          if |args| == 3 then
            match DurationArg(args[2])
            case Err(e) => Err(Rejection(Some(2), e))
            case Ok(duration) => Ok(PlayNote(instrument, note, duration))
          else
            Ok(PlayNote(instrument, note, NoDuration))
  }

  /** The /drum handler: instrument and an optional duration (zero when absent). */
  function HandleDrum(args: seq<Arg>): (r: Result<Command, Rejection>)
    ensures !(1 <= |args| <= 2) ==> r == Err(Rejection(None, ArgCount(1, 2, |args|)))
    ensures 1 <= |args| <= 2 && !args[0].Str? ==> r == Err(Rejection(Some(0), NotAString))
  {
    match CheckArgs(args, 1, 2)
    case Some(e) => Err(Rejection(None, e))
    case None =>
      match NameArg(args[0])
      case Err(e) => Err(Rejection(Some(0), e))
      case Ok(instrument) =>
        if |args| == 2 then
          match DurationArg(args[1])
          case Err(e) => Err(Rejection(Some(1), e))
          case Ok(duration) => Ok(PlayDrum(instrument, duration))
        else
          Ok(PlayDrum(instrument, NoDuration))
  }

  /**
   * The /layer handler: name, a duration that must be present, and an
   * optional variant name (empty when absent).
   */
  function HandleLayer(args: seq<Arg>): (r: Result<Command, Rejection>)
    ensures !(2 <= |args| <= 3) ==> r == Err(Rejection(None, ArgCount(2, 3, |args|)))
    ensures 2 <= |args| <= 3 && !args[0].Str? ==> r == Err(Rejection(Some(0), NotAString))
    ensures 2 <= |args| <= 3 && args[0].Str? && !IsNumeric(args[1]) ==> r == Err(Rejection(Some(1), NotANumber))
  {
    match CheckArgs(args, 2, 3)
    case Some(e) => Err(Rejection(None, e))
    case None =>
      match NameArg(args[0])
      case Err(e) => Err(Rejection(Some(0), e))
      case Ok(name) =>
        match DurationArg(args[1])
        case Err(e) => Err(Rejection(Some(1), e))
        case Ok(duration) =>
          if |args| == 3 then
            match NameArg(args[2])
            case Err(e) => Err(Rejection(Some(2), e))
            case Ok(variant) => Ok(PlayLayer(name, duration, variant))
          else
            Ok(PlayLayer(name, duration, ""))
  }

  /** The /sync handler: exactly one int32, the tempo in beats per minute. */
  function HandleSync(args: seq<Arg>): (r: Result<Command, Rejection>)
    ensures |args| != 1 ==> r == Err(Rejection(None, ArgCount(1, 1, |args|)))
  {
    match CheckArgs(args, 1, 1)
    case Some(e) => Err(Rejection(None, e))
    case None =>
      match NumberArg(args[0])
      case Err(e) => Err(Rejection(Some(0), e))
      case Ok(bpm) => Ok(Sync(bpm))
  }

  /** The duration an optional argument at `i` gives: its beats if present, else zero. */
  function OptionalDuration(args: seq<Arg>, i: nat): Beats
    requires i < |args| ==> IsNumeric(args[i])
  {
    if i < |args| then DurationArg(args[i]).value else NoDuration
  }

  /**
   * /play leads to PlayNote exactly when there are 2 or 3 arguments, the
   * instrument is a string, the note a string NewNote accepts and the
   * duration, if present, a number; the command carries those values.
   */
  lemma PlayAccepts(args: seq<Arg>)
    ensures HandlePlay(args).Ok? <==>
      && 2 <= |args| <= 3
      && args[0].Str?
      && args[1].Str? && Note.NewNote(args[1].s).Ok?
      && (|args| == 3 ==> IsNumeric(args[2]))
    ensures HandlePlay(args).Ok? ==>
      HandlePlay(args).value == PlayNote(args[0].s, Note.NewNote(args[1].s).value, OptionalDuration(args, 2))
  {
  }

  /**
   * /drum leads to PlayDrum exactly when there are 1 or 2 arguments, the
   * instrument is a string and the duration, if present, a number.
   */
  lemma DrumAccepts(args: seq<Arg>)
    ensures HandleDrum(args).Ok? <==>
      1 <= |args| <= 2 && args[0].Str? && (|args| == 2 ==> IsNumeric(args[1]))
    ensures HandleDrum(args).Ok? ==>
      HandleDrum(args).value == PlayDrum(args[0].s, OptionalDuration(args, 1))
  {
  }

  /**
   * /layer leads to PlayLayer exactly when there are 2 or 3 arguments, a
   * string name, a numeric duration and, if present, a string variant.
   */
  lemma LayerAccepts(args: seq<Arg>)
    ensures HandleLayer(args).Ok? <==>
      2 <= |args| <= 3 && args[0].Str? && IsNumeric(args[1]) && (|args| == 3 ==> args[2].Str?)
    ensures HandleLayer(args).Ok? ==>
      HandleLayer(args).value
        == PlayLayer(args[0].s, DurationArg(args[1]).value, if |args| == 3 then args[2].s else "")
  {
  }

  /** /sync leads to Sync exactly when its one argument is an int32, the tempo. */
  lemma SyncAccepts(args: seq<Arg>)
    ensures HandleSync(args).Ok? <==> |args| == 1 && args[0].I32?
    ensures HandleSync(args).Ok? ==> HandleSync(args).value == Sync(args[0].i as int)
  {
  }

  /** Each handler yields only its own kind of command. */
  lemma HandlersDispatchOnce(args: seq<Arg>)
    ensures HandlePlay(args).Ok? ==> HandlePlay(args).value.PlayNote?
    ensures HandleDrum(args).Ok? ==> HandleDrum(args).value.PlayDrum?
    ensures HandleLayer(args).Ok? ==> HandleLayer(args).value.PlayLayer?
    ensures HandleSync(args).Ok? ==> HandleSync(args).value.Sync?
  {
  }
}
