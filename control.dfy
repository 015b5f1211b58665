/**
 * The command dispatcher of src/app/control/lpc1100.cpp. A command is a
 * sequence of words `[peripheral] [command] [arguments...]`; each handler
 * compares its first word with its keywords by memcmp over the word's own
 * length, and passes the remaining words (`words + 1`, `count - 1`) down one
 * level. The only command that acts is `digital_output drive low|high`, on
 * the global digital output of PIO0_8.
 *
 * A word is its `len` bytes. memcmp compares them with the keyword literal,
 * whose array is the keyword's characters and a NUL.
 */
module Control {
  import opened Wrappers
  import opened Bytes
  import opened HalDigitalIo
  import opened PhysicalIo
  import opened Registers
  import opened DigitalIo
  import Session

  function DigitalOutputKeyword(): seq<Byte> { Ascii("digital_output") }
  function InitKeyword(): seq<Byte> { Ascii("init") }
  function DriveKeyword(): seq<Byte> { Ascii("drive") }
  function LowKeyword(): seq<Byte> { Ascii("low") }
  function HighKeyword(): seq<Byte> { Ascii("high") }

  /** The pin of the global `gpio` output. */
  const ControlPin: Pin := PIO0_8

  /**
   * memcmp(word.ptr, keyword, word.len) == 0: the word is a prefix of the
   * keyword's array, NUL included. A word longer than that array would make
   * memcmp read past the literal; the model takes it as no match.
   */
  predicate Matches(word: seq<Byte>, keyword: seq<Byte>)
  {
    |word| <= |keyword| + 1 && word == (keyword + [0])[..|word|]
  }

  /** Matching compares byte by byte, over the word's length only. */
  lemma MatchesBytewise(word: seq<Byte>, keyword: seq<Byte>)
    ensures Matches(word, keyword) <==>
      (|word| <= |keyword| + 1 && forall i | 0 <= i < |word| :: word[i] == (keyword + [0])[i])
  {
    if |word| <= |keyword| + 1 && forall i | 0 <= i < |word| :: word[i] == (keyword + [0])[i] {
      assert word == (keyword + [0])[..|word|];
    }
  }

  /** A zero-length word compares no bytes and matches every keyword. */
  lemma EmptyMatches(keyword: seq<Byte>)
    ensures Matches([], keyword)
  {
  }

  /** digital_output_drive_handler: "low" is tested before "high". */
  function DriveHandler(words: seq<seq<Byte>>, count: nat): (r: Option<Request>)
    requires |words| >= 1
  {
    if Matches(words[0], LowKeyword()) then Some(DriveLowCall)
    else if Matches(words[0], HighKeyword()) then Some(DriveHighCall)
    else None
  }

  /** digital_output_handler: "init" does nothing, "drive" passes the rest on. */
  function OutputHandler(words: seq<seq<Byte>>, count: nat): (r: Option<Request>)
    requires |words| >= 2 && count < Session.SizeMod
  {
    if Matches(words[0], InitKeyword()) then None
    else if Matches(words[0], DriveKeyword()) then DriveHandler(words[1..], Session.Decrement(count))
    else None
  }

  /** handler: "digital_output" passes the rest on. */
  function Handler(words: seq<seq<Byte>>, count: nat): (r: Option<Request>)
    requires |words| >= 3 && count < Session.SizeMod
  {
    if Matches(words[0], DigitalOutputKeyword()) then OutputHandler(words[1..], Session.Decrement(count))
    else None
  }

  /** A prefix of "low" drives low, the empty word included; "lo" is one. */
  lemma AbbreviatedLow(words: seq<seq<Byte>>, count: nat)
    requires |words| >= 1 && words[0] == Ascii("lo")
    ensures DriveHandler(words, count) == Some(DriveLowCall)
  {
    assert (LowKeyword() + [0])[..2] == Ascii("lo");
  }

  /** A word that matches both keywords drives low: "low" takes precedence. */
  lemma LowTakesPrecedence(words: seq<seq<Byte>>, count: nat)
    requires |words| >= 1 && Matches(words[0], LowKeyword()) && Matches(words[0], HighKeyword())
    ensures DriveHandler(words, count) == Some(DriveLowCall)
  {
  }

  /** Only the empty word matches both "low" and "high", as they differ in their first byte. */
  lemma BothOnlyEmpty(word: seq<Byte>)
    ensures Matches(word, LowKeyword()) && Matches(word, HighKeyword()) <==> word == []
  {
    if word != [] && Matches(word, LowKeyword()) {
      assert word[0] == (LowKeyword() + [0])[0] == 'l' as int;
      assert (HighKeyword() + [0])[0] == 'h' as int;
    }
  }

  /**
   * The empty word matches the first keyword tested at every level: a command
   * of empty words reaches digital_output_handler and stops at "init".
   */
  lemma EmptyCommandInits(words: seq<seq<Byte>>, count: nat)
    requires |words| >= 3 && count < Session.SizeMod
    requires words[0] == [] && words[1] == []
    ensures Handler(words, count) == None
    ensures Matches(words[1], InitKeyword()) && Matches(words[1], DriveKeyword())
  {
  }

  /** The empty word as the level word drives low. */
  lemma EmptyLevelDrivesLow(words: seq<seq<Byte>>, count: nat)
    requires |words| >= 1 && words[0] == []
    ensures DriveHandler(words, count) == Some(DriveLowCall)
  {
  }

  /**
   * The whole chain: a command drives low exactly when its first three words
   * match "digital_output", "drive" (and not "init") and "low", one word per
   * level; it drives high when the third matches "high" and not "low"; every
   * other command has no effect.
   */
  lemma HandlerCommands(words: seq<seq<Byte>>, count: nat)
    requires |words| >= 3 && count < Session.SizeMod
    ensures var reaches := Matches(words[0], DigitalOutputKeyword()) && !Matches(words[1], InitKeyword())
                           && Matches(words[1], DriveKeyword());
            (Handler(words, count) == Some(DriveLowCall) <==> reaches && Matches(words[2], LowKeyword()))
            && (Handler(words, count) == Some(DriveHighCall) <==>
                  reaches && !Matches(words[2], LowKeyword()) && Matches(words[2], HighKeyword()))
            && (Handler(words, count) == None <==>
                  !reaches || (!Matches(words[2], LowKeyword()) && !Matches(words[2], HighKeyword())))
  {
    assert words[1..][0] == words[1];
    assert words[1..][1..][0] == words[2];
  }

  /** `count` is never consulted: the result depends on the words alone. */
  lemma CountIgnored(words: seq<seq<Byte>>, c: nat, d: nat)
    requires |words| >= 3 && c < Session.SizeMod && d < Session.SizeMod
    ensures Handler(words, c) == Handler(words, d)
  {
  }

  /**
   * handler(words, count) acting on the global output `gpio`: the dispatch
   * result decides which drive call, if any, is made.
   */
  method Handle(gpio: DigitalOutput, bus: RegisterFile, words: seq<seq<Byte>>, count: nat)
    requires gpio.pin == ControlPin && DataAddress(ControlPin) in bus.words
    requires |words| >= 3 && count < Session.SizeMod
    modifies bus
    ensures Handler(words, count) == None ==> bus.words == old(bus.words)
    ensures Handler(words, count).Some? ==>
      bus.words == old(bus.words)[DataAddress(ControlPin) := DataAfter(Handler(words, count).value)]
  {
    var r := Handler(words, count);
    match r {
      case None =>
      case Some(call) =>
        match call {
          case DriveLowCall => gpio.DriveLow(bus);
          case DriveHighCall => gpio.DriveHigh(bus);
        }
    }
  }
}
