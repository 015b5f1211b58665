/**
 * The firmware behind the hardware test of rtl::mmio (spec/lpc1100/mmio/board.cpp):
 * each session names one register operation, an initial value and an argument;
 * the firmware applies the operation to a local variable through an mmio
 * wrapper and reports the result as an event.
 */
module MmioBoard {
  import opened Wrappers
  import opened Bytes
  import Arith
  import Assert
  import Mmio

  datatype Operation =
    | MaskedClear | Clear | MaskedSet | Set | Toggle | MaskedWrite | SafeWrite | Write
    | Read | Any | All | None | ClearBit | SetBit | ToggleBit | ReadBit

  /** The wire value of each operation. */
  function Code(op: Operation): (c: bv32)
    ensures c < 16
  {
    match op
    case MaskedClear => 0  case Clear => 1     case MaskedSet => 2   case Set => 3
    case Toggle => 4       case MaskedWrite => 5 case SafeWrite => 6 case Write => 7
    case Read => 8         case Any => 9       case All => 10        case None => 11
    case ClearBit => 12    case SetBit => 13   case ToggleBit => 14  case ReadBit => 15
  }

  /** The operation a wire value selects; a value above 15 matches no case of the switch. */
  function Decode(c: bv32): (r: Option<Operation>)
    ensures r.Some? <==> c < 16
    ensures r.Some? ==> Code(r.value) == c
  {
    if c == 0 then Some(MaskedClear) else if c == 1 then Some(Clear)
    else if c == 2 then Some(MaskedSet) else if c == 3 then Some(Set)
    else if c == 4 then Some(Toggle) else if c == 5 then Some(MaskedWrite)
    else if c == 6 then Some(SafeWrite) else if c == 7 then Some(Write)
    else if c == 8 then Some(Read) else if c == 9 then Some(Any)
    else if c == 10 then Some(All) else if c == 11 then Some(Operation.None)
    else if c == 12 then Some(ClearBit) else if c == 13 then Some(SetBit)
    else if c == 14 then Some(ToggleBit) else if c == 15 then Some(ReadBit)
    else Wrappers.None
  }

  lemma DecodeCode(op: Operation)
    ensures Decode(Code(op)) == Some(op)
  {
  }

  /** The template arguments the firmware is built with. */
  const Mask: bv32 := 0xD5F9_3B1B
  const Bit: nat := 19

  const Zero: Byte := 0x30
  const One: Byte := 0x31

  /** Bit j of x: floor(x / 2^j) mod 2, with Shifted(x, j) = floor(x / 2^j). */
  function Shifted(x: nat, j: nat): nat
  {
    if j == 0 then x else Shifted(x, j - 1) / 2
  }

  function Digit(bit: nat): Byte
  {
    if bit % 2 == 1 then One else Zero
  }

  /** The `i` lowest binary digits of x, most significant first. */
  function LowDigits(x: nat, i: nat): (s: seq<Byte>)
    ensures |s| == i
  {
    seq(i, k => DigitAt(x, i, k))
  }

  /** Digit k of the low i digits stands for bit i-1-k. */
  function DigitAt(x: nat, i: nat, k: int): Byte
  {
    if 0 <= k < i then Digit(Shifted(x, i - 1 - k)) else Zero
  }

  /** The low i digits are bit i-1 followed by the low i-1 digits. */
  lemma LowDigitsSplit(x: nat, i: nat)
    requires i > 0
    ensures LowDigits(x, i) == [Digit(Shifted(x, i - 1))] + LowDigits(x, i - 1)
  {
    assert LowDigits(x, i)[1..] == LowDigits(x, i - 1);
  }

  /** The number of digits: the width of the register. */
  const WordBits: nat := 32

  /** The text to_binary_string returns: "0b" and then 32 binary digits. */
  function BinaryText(x: nat): seq<Byte>
  {
    Ascii("0b") + LowDigits(x, WordBits)
  }

  function BinaryString(v: bv32): seq<Byte>
  {
    BinaryText(v as nat)
  }

  /** Reading a string of '0'/'1' digits in base 2. */
  function BinaryValue(s: seq<Byte>): nat
  {
    if s == [] then 0 else (if s[0] == One then Arith.Pow2(|s| - 1) else 0) + BinaryValue(s[1..])
  }

  /** The low digits and the shifted-out rest add back up to x. */
  lemma {:induction false} LowDigitsValue(x: nat, i: nat)
    ensures BinaryValue(LowDigits(x, i)) + Shifted(x, i) * Arith.Pow2(i) == x
  {
    if i > 0 {
      LowDigitsValue(x, i - 1);
      var s := Shifted(x, i - 1);
      var p := Arith.Pow2(i - 1);
      var rest := LowDigits(x, i - 1);
      LowDigitsSplit(x, i);
      assert ([Digit(s)] + rest)[1..] == rest;
      assert BinaryValue(LowDigits(x, i)) == (if s % 2 == 1 then p else 0) + BinaryValue(rest);
      SplitProduct(s / 2, s % 2, p);
    }
  }

  lemma SplitProduct(h: nat, b: nat, p: nat)
    requires b < 2
    ensures h * (2 * p) + (if b == 1 then p else 0) == (2 * h + b) * p
  {
  }

  /** to_binary_string returns "0b" and then the 32 digits. */
  lemma BinaryTextShape(x: nat)
    ensures |BinaryText(x)| == 34 && BinaryText(x)[..2] == Ascii("0b")
    ensures BinaryText(x)[2..] == LowDigits(x, WordBits)
  {
  }

  /** The character at index 2+k of to_binary_string(x) is '1' exactly when bit 31-k of x is set. */
  lemma BinaryTextDigit(x: nat, k: nat)
    requires k < 32
    ensures BinaryText(x)[2 + k] == One <==> Shifted(x, 31 - k) % 2 == 1
  {
    BinaryTextShape(x);
    DigitIsOne(x, WordBits, k);
  }

  lemma DigitIsOne(x: nat, i: nat, k: nat)
    requires k < i
    ensures LowDigits(x, i)[k] == One <==> Shifted(x, i - 1 - k) % 2 == 1
  {
    DigitOne(Shifted(x, i - 1 - k));
  }

  /** For a 32-bit x the digits of to_binary_string(x), read in base 2, give back x. */
  lemma BinaryTextValue(x: nat)
    requires x < 0x1_0000_0000
    ensures BinaryValue(BinaryText(x)[2..]) == x
  {
    BinaryTextShape(x);
    WordDigitsValue(x);
  }

  lemma DigitOne(b: nat)
    ensures Digit(b) == One <==> b % 2 == 1
  {
  }

  lemma WordDigitsValue(x: nat)
    requires x < 0x1_0000_0000
    ensures BinaryValue(LowDigits(x, WordBits)) == x
  {
    LowDigitsValue(x, WordBits);
    Pow2Of32();
  }

  lemma Pow2Of32()
    ensures Arith.Pow2(32) == 0x1_0000_0000
  {
    assert Arith.Pow2(8) == 256;
    Arith.Pow2Add(8, 8);
    Arith.Pow2Add(16, 16);
  }

  /**
   * to_binary_string: fills the static 35-byte buffer (initialised to "0b"
   * and NULs) from index 33 down to 2, one bit per step. The u32 shifts of
   * the source are written as division by 2 and remainder modulo 2.
   */
  method ToBinaryString(value: bv32, buffer: array<Byte>)
    requires buffer.Length == 35 && buffer[0] == Zero && buffer[1] == 0x62 && buffer[34] == 0
    modifies buffer
    ensures buffer[..34] == BinaryString(value) && buffer[34] == 0
  {
    FillBinary(value as nat, buffer);
  }

  /** The loop of to_binary_string, over the value as a number. */
  method FillBinary(x: nat, buffer: array<Byte>)
    requires buffer.Length == 35 && buffer[0] == Zero && buffer[1] == 0x62 && buffer[34] == 0
    modifies buffer
    ensures buffer[..34] == BinaryText(x) && buffer[34] == 0
  {
    var v := x;
    var i := 0;
    while i < WordBits
      invariant 0 <= i <= WordBits
      invariant v == Shifted(x, i)
      invariant buffer[34 - i..34] == LowDigits(x, i)
      invariant buffer[0] == Zero && buffer[1] == 0x62 && buffer[34] == 0
    {
      buffer[33 - i] := Digit(v);
      assert buffer[33 - i..34] == [Digit(v)] + buffer[34 - i..34];
      LowDigitsSplit(x, i + 1);
      v := v / 2;
      i := i + 1;
    }
    FilledBuffer(buffer[..34], x);
  }

  /** A buffer holding "0b" and then the 32 digits of x holds to_binary_string(x). */
  lemma FilledBuffer(b: seq<Byte>, x: nat)
    requires |b| == 34 && b[0] == Zero && b[1] == 0x62 && b[2..] == LowDigits(x, |b| - 2)
    ensures b == BinaryText(x)
  {
    var prefix := Ascii("0b");
    assert prefix == [Zero, 0x62];
    assert b == [b[0], b[1]] + b[2..];
  }

  /** What run_spec tells the host: an event text, or that the session ended in abort(). */
  datatype Report = Event(text: seq<Byte>) | Aborted

  function Boolean(b: bool): seq<Byte>
  {
    if b then Ascii("true") else Ascii("false")
  }

  /** What one operation leaves behind: a register value, a yes/no answer, or an abort. */
  datatype Outcome = Stored(value: bv32) | Answer(yes: bool) | Abort

  /**
   * The effect of one operation of run_spec on a register holding `v`, with
   * the firmware's mask and bit, when asserts are `enabled`.
   */
  function Effect(op: Operation, v: bv32, argument: bv32, enabled: bool): Outcome
  {
    match op
    case MaskedClear => Stored(Mmio.Cleared(v, Mask))
    case Clear => Stored(0)
    case MaskedSet => Stored(Mmio.Raised(v, Mask))
    case Set => Stored(Mmio.AllBits)
    case Toggle => Stored(Mmio.Toggled(v, Mask))
    case MaskedWrite =>
      if enabled && Mmio.Outside(Mask, argument) then Abort else Stored(Mmio.Written(v, Mask, argument))
    case SafeWrite => Stored(Mmio.Masked(argument, Mask))
    case Write => Stored(argument)
    case Read => Stored(Mmio.Masked(v, Mask))
    case Any => Answer(Mmio.Masked(v, Mask) != 0)
    case All => Answer(Mmio.Masked(v, Mask) == Mask)
    case None => Answer(Mmio.Masked(v, Mask) == 0)
    case ClearBit => Stored(Mmio.Cleared(v, Mmio.BitMask(Bit)))
    case SetBit => Stored(Mmio.Raised(v, Mmio.BitMask(Bit)))
    case ToggleBit => Stored(Mmio.Toggled(v, Mmio.BitMask(Bit)))
    case ReadBit => Answer(Mmio.Masked(v, Mmio.BitMask(Bit)) != 0)
  }

  /** The event run_spec reports for an outcome: the register in binary, or "true"/"false". */
  function ReportOf(out: Outcome): Report
  {
    match out
    case Stored(v) => Event(BinaryString(v))
    case Answer(b) => Event(Boolean(b))
    case Abort => Aborted
  }

  /** The report of a whole session; a wire value above 15 applies nothing. */
  function Expected(code: bv32, initial: bv32, argument: bv32, enabled: bool): Report
  {
    match Decode(code)
    case Some(op) => ReportOf(Effect(op, initial, argument, enabled))
    case None => Event(BinaryString(initial))
  }

  /** The body of the switch of run_spec, applied through the register wrapper. */
  method Apply(reg: Mmio.Register, op: Operation, argument: bv32, nv: Assert.Nv) returns (out: Outcome)
    modifies reg, nv
    ensures out == Effect(op, old(reg.value), argument, nv.assertsEnabled)
    ensures out.Stored? ==> reg.value == out.value
    ensures out.Abort? ==> nv.assertMessage == Assert.Trace(true, Mmio.WriteSite, Mmio.OutsideMask)
  {
    match op {
      case MaskedClear => reg.ClearMasked(Mask);
      case Clear => reg.Clear();
      case MaskedSet => reg.SetMasked(Mask);
      case Set => reg.Set();
      case Toggle => reg.Toggle(Mask);
      case MaskedWrite =>
        var aborted := reg.WriteMasked(Mask, argument, nv);
        if aborted {
          return Abort;
        }
      case SafeWrite => reg.SafeWriteAsWritten(Mask, argument);
      case Write => reg.Write(argument);
      case Read =>
        var r := reg.Read(Mask);
        reg.Write(r);
      case Any =>
        var b := reg.Any(Mask);
        return Answer(b);
      case All =>
        var b := reg.All(Mask);
        return Answer(b);
      case None =>
        var b := reg.None(Mask);
        return Answer(b);
      case ClearBit => reg.ClearBit(Bit);
      case SetBit => reg.SetBit(Bit);
      case ToggleBit => reg.ToggleBit(Bit);
      case ReadBit =>
        var b := reg.ReadBit(Bit);
        return Answer(b);
    }
    out := Stored(reg.value);
  }

  /**
   * run_spec: the operation is applied to a register holding `initial`;
   * every operation except any/all/none/read_bit then reports the register
   * in binary. `buffer` is the static buffer of to_binary_string.
   */
  method RunSpec(code: bv32, initial: bv32, argument: bv32, nv: Assert.Nv, buffer: array<Byte>)
    returns (report: Report)
    requires buffer.Length == 35 && buffer[0] == Zero && buffer[1] == 0x62 && buffer[34] == 0
    modifies nv, buffer
    ensures buffer[0] == Zero && buffer[1] == 0x62 && buffer[34] == 0
    ensures report == Expected(code, initial, argument, nv.assertsEnabled)
    ensures report == Aborted ==> nv.assertMessage == Assert.Trace(true, Mmio.WriteSite, Mmio.OutsideMask)
  {
    var reg := new Mmio.Register(initial);
    var op := Decode(code);
    var out := Stored(initial);
    if op.Some? {
      out := Apply(reg, op.value, argument, nv);
    }
    match out
    case Stored(v) =>
      ToBinaryString(v, buffer);
      report := Event(buffer[..34]);
    case Answer(b) =>
      report := Event(Boolean(b));
    case Abort =>
      report := Aborted;
  }

  /** The values of the hardware test (spec/lpc1100/mmio/board_spec.rb). */
  const Initial: bv32 := 0x52BC_CAED
  const Covered: bv32 := 0x84E9_0810
  const Uncovered: bv32 := 0x8595_2A09
  const WholeWord: bv32 := 0xD56A_A92D
  /** The initial value with no bit of the mask set. */
  const Unmasked: bv32 := 0x2206_C404
  /** The initial value with every bit of the mask set. */
  const Saturated: bv32 := 0xF7FB_FB5F
  /** What the hardware test expects of safe_write<MASK>(Uncovered). */
  const SafeWriteExpected: bv32 := 0x8795_EAED

  /**
   * The firmware as written gives every result the hardware test expects,
   * except the one of safe_write (see SafeWriteAsWrittenDiffers).
   */
  lemma HardwareVectors()
    ensures Effect(MaskedClear, Initial, 0, true) == Stored(0x0204_C0E4)
    ensures Effect(Clear, Initial, 0, true) == Stored(0)
    ensures Effect(MaskedSet, Initial, 0, true) == Stored(0xD7FD_FBFF)
    ensures Effect(Set, Initial, 0, true) == Stored(0xFFFF_FFFF)
    ensures Effect(Toggle, Initial, 0, true) == Stored(0x8745_F1F6)
    ensures Effect(MaskedWrite, Initial, Covered, true) == Stored(0x86ED_C8F4)
    ensures Effect(MaskedWrite, Initial, Uncovered, true) == Abort
    ensures Effect(Write, Initial, WholeWord, true) == Stored(WholeWord)
    ensures Effect(Read, Initial, 0, true) == Stored(0x50B8_0A09)
    ensures Effect(Any, Initial, 0, true) == Answer(true) && Effect(Any, Unmasked, 0, true) == Answer(false)
    ensures Effect(All, Saturated, 0, true) == Answer(true) && Effect(All, Initial, 0, true) == Answer(false)
    ensures Effect(All, Unmasked, 0, true) == Answer(false)
    ensures Effect(Operation.None, Initial, 0, true) == Answer(false)
    ensures Effect(Operation.None, Unmasked, 0, true) == Answer(true)
    ensures Effect(ClearBit, Initial, 0, true) == Stored(0x52B4_CAED)
    ensures Effect(SetBit, 0x52B4_CAED, 0, true) == Stored(Initial)
    ensures Effect(ToggleBit, 0x52B4_CAED, 0, true) == Stored(Initial)
    ensures Effect(ToggleBit, Initial, 0, true) == Stored(0x52B4_CAED)
    ensures Effect(ReadBit, 0x52B4_CAED, 0, true) == Answer(false)
    ensures Effect(ReadBit, Initial, 0, true) == Answer(true)
  {
  }

  /**
   * safe_write as the source is written stores `argument & Mask` and clears
   * every other bit, so the firmware fails the hardware test of safe_write;
   * the documented masked write gives the expected value.
   */
  lemma SafeWriteAsWrittenDiffers()
    ensures Effect(SafeWrite, Initial, Uncovered, true) == Stored(0x8591_2A09)
    ensures Effect(SafeWrite, Initial, Uncovered, true) != Stored(SafeWriteExpected)
    ensures Mmio.Written(Initial, Mask, Uncovered & Mask) == SafeWriteExpected
  {
  }
}
