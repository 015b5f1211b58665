/**
 * Pin configuration of the LPC1100 (hal/lpc1100/physical_io.hpp): the 42
 * pins, their IOCON registers, the GPIO function code of each, and the
 * masked IOCON writes the physical_io constructors perform.
 */
module PhysicalIo {
  import opened Wrappers
  import opened Mmio
  import opened Registers
  import Assert

  /** The pins, in the order of their enumerator values 0-41. */
  datatype Pin =
      PIO0_0 | PIO0_1 | PIO0_2 | PIO0_3 | PIO0_4 | PIO0_5
    | PIO0_6 | PIO0_7 | PIO0_8 | PIO0_9 | PIO0_10 | PIO0_11
    | PIO1_0 | PIO1_1 | PIO1_2 | PIO1_3 | PIO1_4 | PIO1_5
    | PIO1_6 | PIO1_7 | PIO1_8 | PIO1_9 | PIO1_10 | PIO1_11
    | PIO2_0 | PIO2_1 | PIO2_2 | PIO2_3 | PIO2_4 | PIO2_5
    | PIO2_6 | PIO2_7 | PIO2_8 | PIO2_9 | PIO2_10 | PIO2_11
    | PIO3_0 | PIO3_1 | PIO3_2 | PIO3_3 | PIO3_4 | PIO3_5

  const PinCount: nat := 42

  /** The pin's enumerator value. */
  function Index(p: Pin): (r: nat)
    ensures r < PinCount
  {
    match p
    case PIO0_0 => 0
    case PIO0_1 => 1
    case PIO0_2 => 2
    case PIO0_3 => 3
    case PIO0_4 => 4
    case PIO0_5 => 5
    case PIO0_6 => 6
    case PIO0_7 => 7
    case PIO0_8 => 8
    case PIO0_9 => 9
    case PIO0_10 => 10
    case PIO0_11 => 11
    case PIO1_0 => 12
    case PIO1_1 => 13
    case PIO1_2 => 14
    case PIO1_3 => 15
    case PIO1_4 => 16
    case PIO1_5 => 17
    case PIO1_6 => 18
    case PIO1_7 => 19
    case PIO1_8 => 20
    case PIO1_9 => 21
    case PIO1_10 => 22
    case PIO1_11 => 23
    case PIO2_0 => 24
    case PIO2_1 => 25
    case PIO2_2 => 26
    case PIO2_3 => 27
    case PIO2_4 => 28
    case PIO2_5 => 29
    case PIO2_6 => 30
    case PIO2_7 => 31
    case PIO2_8 => 32
    case PIO2_9 => 33
    case PIO2_10 => 34
    case PIO2_11 => 35
    case PIO3_0 => 36
    case PIO3_1 => 37
    case PIO3_2 => 38
    case PIO3_3 => 39
    case PIO3_4 => 40
    case PIO3_5 => 41
  }

  /** The pin with a given enumerator value. */
  function PinAt(i: nat): Option<Pin>
  {
    match i
    case 0 => Some(PIO0_0)
    case 1 => Some(PIO0_1)
    case 2 => Some(PIO0_2)
    case 3 => Some(PIO0_3)
    case 4 => Some(PIO0_4)
    case 5 => Some(PIO0_5)
    case 6 => Some(PIO0_6)
    case 7 => Some(PIO0_7)
    case 8 => Some(PIO0_8)
    case 9 => Some(PIO0_9)
    case 10 => Some(PIO0_10)
    case 11 => Some(PIO0_11)
    case 12 => Some(PIO1_0)
    case 13 => Some(PIO1_1)
    case 14 => Some(PIO1_2)
    case 15 => Some(PIO1_3)
    case 16 => Some(PIO1_4)
    case 17 => Some(PIO1_5)
    case 18 => Some(PIO1_6)
    case 19 => Some(PIO1_7)
    case 20 => Some(PIO1_8)
    case 21 => Some(PIO1_9)
    case 22 => Some(PIO1_10)
    case 23 => Some(PIO1_11)
    case 24 => Some(PIO2_0)
    case 25 => Some(PIO2_1)
    case 26 => Some(PIO2_2)
    case 27 => Some(PIO2_3)
    case 28 => Some(PIO2_4)
    case 29 => Some(PIO2_5)
    case 30 => Some(PIO2_6)
    case 31 => Some(PIO2_7)
    case 32 => Some(PIO2_8)
    case 33 => Some(PIO2_9)
    case 34 => Some(PIO2_10)
    case 35 => Some(PIO2_11)
    case 36 => Some(PIO3_0)
    case 37 => Some(PIO3_1)
    case 38 => Some(PIO3_2)
    case 39 => Some(PIO3_3)
    case 40 => Some(PIO3_4)
    case 41 => Some(PIO3_5)
    case _ => None
  }

  /** Each pin has its own enumerator value (the aliases such as RESET or SCL name the same values). */
  lemma IndexRoundTrip(p: Pin)
    ensures PinAt(Index(p)) == Some(p)
  {
  }

  lemma IndexInjective(p: Pin, q: Pin)
    requires Index(p) == Index(q)
    ensures p == q
  {
    IndexRoundTrip(p);
    IndexRoundTrip(q);
  }

  /** The IOCON block. */
  const IoconBase: nat := 0x4004_4000

  /** The offset of the pin's IOCON register in the IOCON block (iocon_ptr - 0x40044000). */
  function IoconOffset(p: Pin): (r: nat)
    ensures r % 4 == 0 && r <= 0xAC
  {
    match p
    case PIO0_0 => 0x0C
    case PIO0_1 => 0x10
    case PIO0_2 => 0x1C
    case PIO0_3 => 0x2C
    case PIO0_4 => 0x30
    case PIO0_5 => 0x34
    case PIO0_6 => 0x4C
    case PIO0_7 => 0x50
    case PIO0_8 => 0x60
    case PIO0_9 => 0x64
    case PIO0_10 => 0x68
    case PIO0_11 => 0x74
    case PIO1_0 => 0x78
    case PIO1_1 => 0x7C
    case PIO1_2 => 0x80
    case PIO1_3 => 0x90
    case PIO1_4 => 0x94
    case PIO1_5 => 0xA0
    case PIO1_6 => 0xA4
    case PIO1_7 => 0xA8
    case PIO1_8 => 0x14
    case PIO1_9 => 0x38
    case PIO1_10 => 0x6C
    case PIO1_11 => 0x98
    case PIO2_0 => 0x08
    case PIO2_1 => 0x28
    case PIO2_2 => 0x5C
    case PIO2_3 => 0x8C
    case PIO2_4 => 0x40
    case PIO2_5 => 0x44
    case PIO2_6 => 0x00
    case PIO2_7 => 0x20
    case PIO2_8 => 0x24
    case PIO2_9 => 0x54
    case PIO2_10 => 0x58
    case PIO2_11 => 0x70
    case PIO3_0 => 0x84
    case PIO3_1 => 0x88
    case PIO3_2 => 0x9C
    case PIO3_3 => 0xAC
    case PIO3_4 => 0x3C
    case PIO3_5 => 0x48
  }

  /** iocon_ptr: word-aligned, within 0x40044000-0x400440AC. */
  function IoconAddress(p: Pin): (r: nat)
    ensures r % 4 == 0 && IoconBase <= r <= IoconBase + 0xAC
  {
    IoconBase + IoconOffset(p)
  }

  /** The pin whose IOCON register sits at an offset. */
  function PinAtOffset(offset: nat): Option<Pin>
  {
    match offset
    case 0x00 => Some(PIO2_6)
    case 0x08 => Some(PIO2_0)
    case 0x0C => Some(PIO0_0)
    case 0x10 => Some(PIO0_1)
    case 0x14 => Some(PIO1_8)
    case 0x1C => Some(PIO0_2)
    case 0x20 => Some(PIO2_7)
    case 0x24 => Some(PIO2_8)
    case 0x28 => Some(PIO2_1)
    case 0x2C => Some(PIO0_3)
    case 0x30 => Some(PIO0_4)
    case 0x34 => Some(PIO0_5)
    case 0x38 => Some(PIO1_9)
    case 0x3C => Some(PIO3_4)
    case 0x40 => Some(PIO2_4)
    case 0x44 => Some(PIO2_5)
    case 0x48 => Some(PIO3_5)
    case 0x4C => Some(PIO0_6)
    case 0x50 => Some(PIO0_7)
    case 0x54 => Some(PIO2_9)
    case 0x58 => Some(PIO2_10)
    case 0x5C => Some(PIO2_2)
    case 0x60 => Some(PIO0_8)
    case 0x64 => Some(PIO0_9)
    case 0x68 => Some(PIO0_10)
    case 0x6C => Some(PIO1_10)
    case 0x70 => Some(PIO2_11)
    case 0x74 => Some(PIO0_11)
    case 0x78 => Some(PIO1_0)
    case 0x7C => Some(PIO1_1)
    case 0x80 => Some(PIO1_2)
    case 0x84 => Some(PIO3_0)
    case 0x88 => Some(PIO3_1)
    case 0x8C => Some(PIO2_3)
    case 0x90 => Some(PIO1_3)
    case 0x94 => Some(PIO1_4)
    case 0x98 => Some(PIO1_11)
    case 0x9C => Some(PIO3_2)
    case 0xA0 => Some(PIO1_5)
    case 0xA4 => Some(PIO1_6)
    case 0xA8 => Some(PIO1_7)
    case 0xAC => Some(PIO3_3)
    case _ => None
  }

  lemma IoconRoundTrip(p: Pin)
    ensures PinAtOffset(IoconOffset(p)) == Some(p)
  {
  }

  /** No two pins share an IOCON register. */
  lemma IoconDistinct(p: Pin, q: Pin)
    requires p != q
    ensures IoconAddress(p) != IoconAddress(q)
  {
    IoconRoundTrip(p);
    IoconRoundTrip(q);
  }

  /** The value of `function::gpio`: 0b001 on pins whose reset function is not GPIO, 0b000 on the rest. */
  function GpioFunction(p: Pin): (r: bv32)
    ensures r == 0 || r == 1
  {
    match p
    case PIO0_0 => 0x1
    case PIO0_10 => 0x1
    case PIO0_11 => 0x1
    case PIO1_0 => 0x1
    case PIO1_1 => 0x1
    case PIO1_2 => 0x1
    case PIO1_3 => 0x1
    case PIO1_4 => 0x1
    case PIO1_10 => 0x1
    case _ => 0x0
  }

  /** The I2C pins, whose IOCON registers have an I2C mode field at bits 9:8 and no pull resistors. */
  predicate I2cPin(p: Pin)
  {
    p == PIO0_4 || p == PIO0_5
  }

  /** basic_termination: the pull resistor mode at bits 4:3. */
  datatype Termination = NoTermination | Pulldown | Pullup | Repeater

  function TerminationBits(t: Termination): (r: bv32)
    ensures r & !0x18 == 0
  {
    match t
    case NoTermination => 0x00
    case Pulldown => 0x08
    case Pullup => 0x10
    case Repeater => 0x18
  }

  /** basic_digital_input_options: hysteresis at bit 5. */
  datatype InputOption = NoHysteresis | Hysteresis

  function InputOptionBits(o: InputOption): (r: bv32)
    ensures r & !0x20 == 0
  {
    if o == Hysteresis then 0x20 else 0x00
  }

  /** The mask of the input constructor's write: 0b111111, or 0b1100000111 on the I2C pins. */
  function InputMask(p: Pin): bv32
  {
    if I2cPin(p) then 0x307 else 0x3F
  }

  /**
   * The bits the input constructor writes: function | termination | options;
   * the I2C pins ignore the termination (their type offers only `none`) and
   * add 0b01 << 8 (standard GPIO mode).
   */
  function InputBits(p: Pin, t: Termination, o: InputOption): bv32
  {
    if I2cPin(p) then GpioFunction(p) | InputOptionBits(o) | 0x100
    else GpioFunction(p) | TerminationBits(t) | InputOptionBits(o)
  }

  /** On every other pin the input write lies within its mask, so its assertion cannot fire. */
  lemma InputFits(p: Pin, t: Termination, o: InputOption)
    requires !I2cPin(p)
    ensures !Outside(InputMask(p), InputBits(p, t, o))
  {
    var f, tb, ob := GpioFunction(p), TerminationBits(t), InputOptionBits(o);
    assert (f | tb | ob) & !0x3F == 0;
  }

  /** On the I2C pins the write lies within the mask exactly when hysteresis is not asked for. */
  lemma I2cInputFits(p: Pin, t: Termination, o: InputOption)
    requires I2cPin(p)
    ensures !Outside(InputMask(p), InputBits(p, t, o)) <==> o == NoHysteresis
  {
  }

  /** When it fits, the I2C write sets bits 9:8 to 0b01 and keeps every bit outside 0b1100000111. */
  lemma I2cInputMode(p: Pin, t: Termination, v: bv32)
    requires I2cPin(p)
    ensures Written(v, 0x307, InputBits(p, t, NoHysteresis)) & 0x300 == 0x100
    ensures Written(v, 0x307, InputBits(p, t, NoHysteresis)) & !0x307 == v & !0x307
  {
  }

  /** The output constructor writes function | options (none) under mask 0b111: only bits 2:0 can change, and it fits. */
  lemma OutputFits(p: Pin, v: bv32)
    ensures !Outside(0x7, GpioFunction(p))
    ensures Written(v, 0x7, GpioFunction(p)) & !0x7 == v & !0x7
  {
  }

  /** The IOCON block holds a register for every pin. */
  ghost predicate Covers(bus: RegisterFile)
    reads bus
  {
    forall p: Pin :: IoconAddress(p) in bus.words
  }

  /**
   * physical_io(function, termination, options): one masked write to the
   * pin's IOCON register, and nothing else; the assertion can fire only on
   * the I2C pins with hysteresis.
   */
  method ConfigureInput(bus: RegisterFile, p: Pin, t: Termination, o: InputOption, nv: Assert.Nv) returns (aborted: bool)
    requires Covers(bus)
    modifies bus, nv
    ensures aborted <==> nv.assertsEnabled && I2cPin(p) && o == Hysteresis
    ensures aborted ==> bus.words == old(bus.words)
    ensures !aborted ==> bus.words == old(bus.words)[IoconAddress(p) :=
              Written(old(bus.words)[IoconAddress(p)], InputMask(p), InputBits(p, t, o))]
  {
    if I2cPin(p) {
      I2cInputFits(p, t, o);
    } else {
      InputFits(p, t, o);
    }
    aborted := bus.WriteMasked(IoconAddress(p), InputMask(p), InputBits(p, t, o), nv);
  }

  /** physical_io(function, options): function | options under mask 0b111. The I2C pins have no such constructor. */
  method ConfigureOutput(bus: RegisterFile, p: Pin, nv: Assert.Nv)
    requires Covers(bus) && !I2cPin(p)
    modifies bus, nv
    ensures bus.words == old(bus.words)[IoconAddress(p) := Written(old(bus.words)[IoconAddress(p)], 0x7, GpioFunction(p))]
    ensures nv.assertMessage == old(nv.assertMessage)
  {
    OutputFits(p, 0);
    var aborted := bus.WriteMasked(IoconAddress(p), 0x7, GpioFunction(p), nv);
  }

  /** Configuring one pin leaves every other pin's IOCON register as it was. */
  lemma ConfigureIsolated(words: map<nat, bv32>, p: Pin, q: Pin, v: bv32)
    requires p != q && IoconAddress(q) in words
    ensures words[IoconAddress(p) := v][IoconAddress(q)] == words[IoconAddress(q)]
  {
    IoconDistinct(p, q);
  }
}
