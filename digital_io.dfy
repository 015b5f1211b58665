/**
 * Digital inputs and outputs of the LPC1100 (hal/lpc1100/digital_io.hpp).
 * Each pin belongs to a GPIO port with its own register block: the DIR
 * register at base + 0x8000, one bit per pin, and the pin's data register at
 * base + 4 * (1 << port_no), the address whose mask bits select that pin
 * alone. That hardware address masking is not modelled: each data address is
 * a register of its own.
 */
module DigitalIo {
  import opened Arith
  import opened Mmio
  import opened Registers
  import opened PhysicalIo
  import opened HalDigitalIo
  import Assert

  const GpioBlock: nat := 0x5000_0000
  const PortStride: nat := 0x1_0000
  const DirOffset: nat := 0x8000

  /** The GPIO port of the pin in the DIGITAL_IO table, whose gpio_ptr is 0x50000000 + port * 0x10000. */
  function PortOf(p: Pin): (r: nat)
    ensures r < 4
  {
    match p
    case PIO0_0 => 0
    case PIO0_1 => 0
    case PIO0_2 => 0
    case PIO0_3 => 0
    case PIO0_4 => 0
    case PIO0_5 => 0
    case PIO0_6 => 0
    case PIO0_7 => 0
    case PIO0_8 => 0
    case PIO0_9 => 0
    case PIO0_10 => 0
    case PIO0_11 => 0
    case PIO1_0 => 1
    case PIO1_1 => 1
    case PIO1_2 => 1
    case PIO1_3 => 1
    case PIO1_4 => 1
    case PIO1_5 => 1
    case PIO1_6 => 1
    case PIO1_7 => 1
    case PIO1_8 => 1
    case PIO1_9 => 1
    case PIO1_10 => 1
    case PIO1_11 => 1
    case PIO2_0 => 2
    case PIO2_1 => 2
    case PIO2_2 => 2
    case PIO2_3 => 2
    case PIO2_4 => 2
    case PIO2_5 => 2
    case PIO2_6 => 2
    case PIO2_7 => 2
    case PIO2_8 => 2
    case PIO2_9 => 2
    case PIO2_10 => 2
    case PIO2_11 => 2
    case PIO3_0 => 3
    case PIO3_1 => 3
    case PIO3_2 => 3
    case PIO3_3 => 3
    case PIO3_4 => 3
    case PIO3_5 => 3
  }

  /** The gpio_ptr of the pin in the DIGITAL_IO table. */
  function GpioBase(p: Pin): nat
  {
    GpioBlock + PortStride * PortOf(p)
  }

  /** The port_no of the pin in the DIGITAL_IO table. */
  function PortNumber(p: Pin): (r: nat)
    ensures r < 12
  {
    match p
    case PIO0_0 => 0
    case PIO0_1 => 1
    case PIO0_2 => 2
    case PIO0_3 => 3
    case PIO0_4 => 4
    case PIO0_5 => 5
    case PIO0_6 => 6
    case PIO0_7 => 7
    case PIO0_8 => 8
    case PIO0_9 => 9
    case PIO0_10 => 10
    case PIO0_11 => 11
    case PIO1_0 => 0
    case PIO1_1 => 1
    case PIO1_2 => 2
    case PIO1_3 => 3
    case PIO1_4 => 4
    case PIO1_5 => 5
    case PIO1_6 => 6
    case PIO1_7 => 7
    case PIO1_8 => 8
    case PIO1_9 => 9
    case PIO1_10 => 10
    case PIO1_11 => 11
    case PIO2_0 => 0
    case PIO2_1 => 1
    case PIO2_2 => 2
    case PIO2_3 => 3
    case PIO2_4 => 4
    case PIO2_5 => 5
    case PIO2_6 => 6
    case PIO2_7 => 7
    case PIO2_8 => 8
    case PIO2_9 => 9
    case PIO2_10 => 10
    case PIO2_11 => 11
    case PIO3_0 => 0
    case PIO3_1 => 1
    case PIO3_2 => 2
    case PIO3_3 => 3
    case PIO3_4 => 4
    case PIO3_5 => 5
  }

  /**
   * The table follows the pin names: PIOn_k uses port n's block at
   * 0x50000000 + n * 0x10000, and port_no k, its index within the port.
   */
  lemma TableFollowsNames(p: Pin)
    ensures PortOf(p) == Index(p) / 12
    ensures PortNumber(p) == Index(p) % 12
  {
  }

  /** The I2C pins PIO0_4 and PIO0_5 have a digital input only. */
  predicate InputOnly(p: Pin)
  {
    I2cPin(p)
  }

  /** port_mask = 1 << port_no. */
  function PortMask(p: Pin): bv32
  {
    BitMask(PortNumber(p))
  }

  function DirAddress(p: Pin): nat
  {
    GpioBase(p) + DirOffset
  }

  function DataAddress(p: Pin): (r: nat)
  {
    GpioBase(p) + 4 * Pow2(PortNumber(p))
  }

  lemma PortMaskBound(k: nat)
    requires k < 12
    ensures 1 <= Pow2(k) <= 2048
  {
    Pow2Monotonic(k, 11);
    assert Pow2(11) == 2048;
  }

  /** The data addresses lie below the DIR register of their port, inside the port's block. */
  lemma DataInBlock(p: Pin)
    ensures GpioBase(p) + 4 <= DataAddress(p) <= GpioBase(p) + 0x2000 < DirAddress(p) < GpioBase(p) + PortStride
  {
    PortMaskBound(PortNumber(p));
  }

  /** Distinct pins have distinct data registers; pins of one port share their DIR register. */
  lemma DataDistinct(p: Pin, q: Pin)
    requires p != q
    ensures DataAddress(p) != DataAddress(q)
    ensures DirAddress(p) == DirAddress(q) <==> PortOf(p) == PortOf(q)
  {
    DataInBlock(p);
    DataInBlock(q);
    TableFollowsNames(p);
    TableFollowsNames(q);
    if PortOf(p) == PortOf(q) {
      if PortNumber(p) == PortNumber(q) {
        IndexInjective(p, q);
      } else if PortNumber(p) < PortNumber(q) {
        Pow2Strict(PortNumber(p), PortNumber(q));
      } else {
        Pow2Strict(PortNumber(q), PortNumber(p));
      }
    } else {
      assert PortStride * PortOf(p) != PortStride * PortOf(q);
    }
  }

  lemma Pow2Strict(a: nat, b: nat)
    requires a < b
    ensures Pow2(a) < Pow2(b)
  {
    Pow2Monotonic(a + 1, b);
    Pow2Add(a, 1);
  }

  /** No GPIO register is an IOCON register. */
  lemma GpioNotIocon(p: Pin, q: Pin)
    ensures DataAddress(p) != IoconAddress(q) && DirAddress(p) != IoconAddress(q)
  {
    DataInBlock(p);
  }

  /** The register file holds every IOCON, DIR and data register. */
  ghost predicate Present(bus: RegisterFile)
    reads bus
  {
    Covers(bus) && forall p: Pin :: DirAddress(p) in bus.words && DataAddress(p) in bus.words
  }

  /** state(): high exactly when the data register reads nonzero. */
  function LevelOf(data: bv32): (l: LogicLevel)
  {
    if data != 0 then High else Low
  }

  /** The data register after drive_low (clear(): all bits 0) or drive_high (set(): all bits 1). */
  function DataAfter(r: Request): (v: bv32)
  {
    if r == DriveLowCall then 0 else AllBits
  }

  /** Reading back a pin after driving it gives the level driven. */
  lemma DriveReadsBack(level: LogicLevel)
    ensures LevelOf(DataAfter(Drive(level)[0])) == level
  {
  }

  /** basic_digital_input<pin, gpio_ptr, port_no>. */
  class DigitalInput {
    const pin: Pin
    /** The constructor's IOCON write tripped its assertion, and abort() followed. */
    const tripped: bool

    /** Configure the pin as GPIO input, then clear only its bit of DIR. */
    constructor (bus: RegisterFile, pin: Pin, t: Termination, o: InputOption, nv: Assert.Nv)
      requires Present(bus)
      modifies bus, nv
      ensures this.pin == pin
      ensures tripped <==> nv.assertsEnabled && I2cPin(pin) && o == Hysteresis
      ensures tripped ==> bus.words == old(bus.words)
      ensures !tripped ==> bus.words == old(bus.words)
                [IoconAddress(pin) := Written(old(bus.words)[IoconAddress(pin)], InputMask(pin), InputBits(pin, t, o))]
                [DirAddress(pin) := Cleared(old(bus.words)[DirAddress(pin)], PortMask(pin))]
    {
      this.pin := pin;
      var dir := DirAddress(pin);
      assert dir in bus.words;
      GpioNotIocon(pin, pin);
      var aborted := ConfigureInput(bus, pin, t, o, nv);
      tripped := aborted;
      if !aborted {
        assert bus.words[dir] == old(bus.words)[dir];
        bus.ClearMasked(dir, PortMask(pin));
      }
    }

    /** state() */
    method State(bus: RegisterFile) returns (level: LogicLevel)
      requires DataAddress(pin) in bus.words
      ensures level == LevelOf(bus.words[DataAddress(pin)])
    {
      var data := bus.Read(DataAddress(pin));
      level := if data != 0 then High else Low;
    }
  }

  /** basic_digital_output<pin, gpio_ptr, port_no>, for the pins that are not input-only. */
  class DigitalOutput {
    const pin: Pin

    /** Configure the pin as GPIO output, drive the initial level, and only then set its bit of DIR. */
    constructor (bus: RegisterFile, pin: Pin, initial: LogicLevel, nv: Assert.Nv)
      requires Present(bus) && !InputOnly(pin)
      modifies bus, nv
      ensures this.pin == pin && nv.assertMessage == old(nv.assertMessage)
      ensures bus.words == old(bus.words)
                [IoconAddress(pin) := Written(old(bus.words)[IoconAddress(pin)], 0x7, GpioFunction(pin))]
                [DataAddress(pin) := DataAfter(HalDigitalIo.Drive(initial)[0])]
                [DirAddress(pin) := Raised(old(bus.words)[DirAddress(pin)], PortMask(pin))]
    {
      this.pin := pin;
      new;
      ConfigureOutput(bus, pin, nv);
      GpioNotIocon(pin, pin);
      DataInBlock(pin);
      Drive(bus, initial);
      bus.SetMasked(DirAddress(pin), PortMask(pin));
    }

    /** drive_low(): the data register cleared. */
    method DriveLow(bus: RegisterFile)
      requires DataAddress(pin) in bus.words
      modifies bus
      ensures bus.words == old(bus.words)[DataAddress(pin) := DataAfter(DriveLowCall)]
    {
      bus.Store(DataAddress(pin), 0);
    }

    /** drive_high(): the data register set. */
    method DriveHigh(bus: RegisterFile)
      requires DataAddress(pin) in bus.words
      modifies bus
      ensures bus.words == old(bus.words)[DataAddress(pin) := DataAfter(DriveHighCall)]
    {
      bus.Store(DataAddress(pin), AllBits);
    }

    /** hal::digital_output::drive(level), dispatching to drive_low or drive_high. */
    method Drive(bus: RegisterFile, level: LogicLevel)
      requires DataAddress(pin) in bus.words
      modifies bus
      ensures bus.words == old(bus.words)[DataAddress(pin) := DataAfter(HalDigitalIo.Drive(level)[0])]
    {
      if level == Low {
        DriveLow(bus);
      } else {
        DriveHigh(bus);
      }
    }
  }
}
