/**
 * Clock control of the LPC1100 (hal/lpc1100/clock.hpp): the internal RC
 * oscillator, the PLL input selection, the PLL output and its parameter
 * search, the main clock selection and the UART clock divider.
 *
 * Frequencies are in hertz. The `frequency()` functions read registers and
 * compute; they are functions of the register values here. The enable,
 * disable and set_source operations write registers through `Mmio.Register`.
 * `rtl::unreachable` is not part of this model: a configuration that reaches
 * it has no frequency (None).
 */
module Clock {
  import opened Wrappers
  import opened Bytes
  import opened Arith
  import opened Mmio
  import Assert
  import Modular

  datatype ClockSource =
    Irc | System | PllIn | PllOut | WatchdogOsc | Watchdog | MainClock | Core | ClkOut | UartClock

  /** The IRC runs at 12 MHz. */
  const IrcHz: nat := 12_000_000
  /** The PLL's current-controlled oscillator must run at 156 MHz or more. */
  const FccoMin: nat := 156_000_000
  /** Values written to a 32-bit register are taken modulo 2^32. */
  const U32: nat := 0x1_0000_0000

  const InvalidSource := Ascii("invalid clock source provided")
  const ZeroDivider := Ascii("UART clock enabled with zero divider")
  const PllInSite := Ascii("hal/lpc1100/clock.hpp:76")
  const MainSite := Ascii("hal/lpc1100/clock.hpp:166")
  const DividerSite := Ascii("hal/lpc1100/clock.hpp:187")

  // ------------------------------------------------------------------- irc

  /** clock<irc>::enable(): PDRUNCFG bits 0-1 cleared (powered). */
  method IrcEnable(pdruncfg: Register)
    modifies pdruncfg
    ensures pdruncfg.value == Cleared(old(pdruncfg.value), 0x3)
  {
    pdruncfg.ClearMasked(0x3);
  }

  /** clock<irc>::disable(): PDRUNCFG bits 0-1 set (powered down). */
  method IrcDisable(pdruncfg: Register)
    modifies pdruncfg
    ensures pdruncfg.value == Raised(old(pdruncfg.value), 0x3)
  {
    pdruncfg.SetMasked(0x3);
  }

  // ---------------------------------------------------------------- pll_in

  /** clock<pll_in>::frequency(): the IRC when SYSPLLCLKSEL bit 0 is 0; the system oscillator is not implemented. */
  function PllInHz(sel: bv32): (r: Option<nat>)
    ensures r.Some? <==> Masked(sel, 0x1) == 0
    ensures r.Some? ==> r.value == IrcHz
  {
    if Masked(sel, 0x1) == 0 then Some(IrcHz) else None
  }

  /** The SYSPLLCLKSEL bit pll_in::set_source writes, for the two sources it accepts. */
  function PllInSelection(source: ClockSource): Option<bv32>
  {
    match source
    case Irc => Some(0)
    case System => Some(1)
    case _ => None
  }

  /** The latch SYSPLLCLKUEN receives: bit 0 written 0, then 1. */
  function Latched(v: bv32): seq<bv32>
  {
    [Written(v, 0x1, 0), Written(Written(v, 0x1, 0), 0x1, 1)]
  }

  /** The update latch: bit 0 of the UEN register written 0, then 1. */
  method Latch(uen: Register, nv: Assert.Nv)
    modifies uen, nv
    ensures uen.stores == old(uen.stores) + Latched(old(uen.value))
    ensures uen.value == Written(Written(old(uen.value), 0x1, 0), 0x1, 1)
  {
    var first := uen.WriteMasked(0x1, 0, nv);
    var second := uen.WriteMasked(0x1, 1, nv);
    assert uen.stores == old(uen.stores) + [Written(old(uen.value), 0x1, 0)] + [uen.value];
  }

  /**
   * clock<pll_in>::set_source(source): irc or system into SYSPLLCLKSEL bit 0,
   * then the update latch toggled 0 then 1; any other source trips the
   * assertion, after which nothing more happens.
   */
  method PllInSetSource(sel: Register, uen: Register, source: ClockSource, nv: Assert.Nv) returns (aborted: bool)
    requires sel != uen
    modifies sel, uen, nv
    ensures aborted <==> nv.assertsEnabled && PllInSelection(source).None?
    ensures aborted ==> nv.assertMessage == Assert.Trace(true, PllInSite, InvalidSource)
    ensures aborted ==> uen.stores == old(uen.stores)
    ensures sel.value == match PllInSelection(source) case Some(b) => Written(old(sel.value), 0x1, b) case None => old(sel.value)
    ensures !aborted ==> uen.stores == old(uen.stores) + Latched(old(uen.value))
  {
    match PllInSelection(source) {
      case Some(b) =>
        aborted := sel.WriteMasked(0x1, b, nv);
      case None =>
        aborted := nv.Check(false, Assert.Trace(nv.assertsEnabled, PllInSite, InvalidSource));
        if aborted {
          return;
        }
    }
    Latch(uen, nv);
    aborted := false;
  }

  /** pll_in: once set_source(irc) has returned, frequency() is the IRC's. */
  lemma PllInSelectsIrc(v: bv32)
    ensures PllInHz(Written(v, 0x1, 0)) == Some(IrcHz)
  {
  }

  /** pll_in: after set_source(system), frequency() reaches unreachable. */
  lemma PllInSystemUnreachable(v: bv32)
    ensures PllInHz(Written(v, 0x1, 1)) == None
  {
  }

  // --------------------------------------------------------------- pll_out

  /** clock<pll_out>::frequency(): (SYSPLLCTRL[4:0] + 1) times the PLL input. */
  function PllOutHz(ctrl: bv32, sel: bv32): (r: Option<nat>)
    ensures r.Some? <==> PllInHz(sel).Some?
    ensures r.Some? ==> IrcHz <= r.value <= 32 * IrcHz && r.value % IrcHz == 0
  {
    match PllInHz(sel)
    case Some(f) => Some(((Masked(ctrl, 0x1F) as nat) + 1) * f)
    case None => None
  }

  /** The multiplier m = f / f_in of pll_out::enable. */
  function Multiplier(frequency: nat): nat
  {
    frequency / IrcHz
  }

  /** The number of doublings the P search performs from fcco: the least p with fcco * 2^p >= 156 MHz. */
  function Doublings(fcco: nat): nat
    requires fcco > 0
    decreases FccoMin - fcco
  {
    if fcco >= FccoMin then 0 else 1 + Doublings(2 * fcco)
  }

  lemma {:induction false} DoublingsLeast(fcco: nat)
    requires fcco > 0
    ensures fcco * Pow2(Doublings(fcco)) >= FccoMin
    ensures Doublings(fcco) > 0 ==> fcco * Pow2(Doublings(fcco) - 1) < FccoMin
    decreases FccoMin - fcco
  {
    if fcco < FccoMin {
      DoublingsLeast(2 * fcco);
      var d := Doublings(2 * fcco);
      assert fcco * Pow2(d + 1) == 2 * fcco * Pow2(d);
      if d > 0 {
        assert fcco * Pow2(d) == 2 * fcco * Pow2(d - 1);
      }
    }
  }

  /**
   * The P search of pll_out::enable (fcco doubled, p counting, until it
   * reaches 156 MHz), for a nonzero fcco; from 0 the source loop never ends.
   */
  method PllSearch(fcco: nat) returns (p: nat, reached: nat)
    requires fcco > 0
    ensures p == Doublings(fcco) && reached == fcco * Pow2(p)
    ensures FccoMin <= reached && (p > 0 ==> reached < 2 * FccoMin)
  {
    p, reached := 0, fcco;
    while reached < FccoMin
      invariant reached > 0 && reached == fcco * Pow2(p)
      invariant Doublings(fcco) == p + Doublings(reached)
      invariant p > 0 ==> reached < 2 * FccoMin
      decreases FccoMin - reached
    {
      assert fcco * Pow2(p + 1) == 2 * (fcco * Pow2(p));
      reached := reached * 2;
      p := p + 1;
    }
  }

  /** The SYSPLLCTRL bits pll_out::enable writes: MSEL = m - 1 and PSEL = p. */
  function ControlBits(m1: bv32, p: bv32): bv32
  {
    m1 | (p << 5)
  }

  /** (m - 1) | p << 5 as the 32-bit value written. */
  function ControlWord(m1: nat, p: nat): bv32
  {
    ControlBits((m1 % U32) as bv32, (p % U32) as bv32)
  }

  /** The write under mask 0b111111 keeps inside it exactly when m - 1 < 64 and p <= 1. */
  lemma ControlFits(m1: bv32, p: bv32)
    requires p < 0x800_0000
    ensures !Outside(0x3F, ControlBits(m1, p)) <==> m1 < 64 && p <= 1
  {
  }

  lemma ControlWordFits(m1: nat, p: nat)
    requires m1 < U32 && p < 0x800_0000
    ensures !Outside(0x3F, ControlWord(m1, p)) <==> m1 < 64 && p <= 1
  {
    Modular.SmallMod(m1, U32);
    Modular.SmallMod(p, U32);
    ControlFits(m1 as bv32, p as bv32);
  }


  datatype EnableOutcome = Enabled | Aborted | Hangs

  /**
   * clock<pll_out>::enable(f): m = f / f_in and fcco = f_in * 2 * m; the P
   * search, which never ends when m is 0 (f below 12 MHz); then
   * (m - 1) | p << 5 into SYSPLLCTRL under mask 0b111111 and the PLL powered
   * up. The wait for PLL lock that follows is not part of this model.
   */
  method PllOutEnable(sel: Register, ctrl: Register, pdruncfg: Register, frequency: nat, nv: Assert.Nv)
    returns (outcome: EnableOutcome, m: nat, p: nat)
    requires PllInHz(sel.value).Some? && ctrl != pdruncfg
    modifies ctrl, pdruncfg, nv
    ensures m == Multiplier(frequency)
    ensures outcome == Hangs <==> m == 0
    ensures outcome == Hangs ==> ctrl.stores == old(ctrl.stores) && pdruncfg.stores == old(pdruncfg.stores)
    ensures outcome != Hangs ==> p == Doublings(IrcHz * 2 * m)
    ensures outcome != Hangs ==> (outcome == Aborted <==> nv.assertsEnabled && Outside(0x3F, ControlWord(m - 1, p)))
    ensures outcome == Enabled ==> ctrl.value == Written(old(ctrl.value), 0x3F, ControlWord(m - 1, p))
    ensures outcome == Enabled ==> pdruncfg.value == Cleared(old(pdruncfg.value), 0x80)
  {
    var frequencyIn := PllInHz(sel.value).value;
    m := frequency / frequencyIn;
    var fcco := frequencyIn * 2 * m;
    if m == 0 {
      return Hangs, m, 0;
    }
    var reached;
    p, reached := PllSearch(fcco);
    var tripped := ctrl.WriteMasked(0x3F, ControlWord(m - 1, p), nv);
    if tripped {
      return Aborted, m, p;
    }
    pdruncfg.ClearMasked(0x80);
    outcome := Enabled;
  }

  /** For 48 MHz from the IRC the search gives m = 4 and p = 1, and the write fits its mask. */
  lemma PllFor48MHz(fcco: nat)
    requires fcco == IrcHz * 2 * Multiplier(48_000_000)
    ensures Multiplier(48_000_000) == 4 && fcco == 96_000_000
    ensures Doublings(fcco) == 1
    ensures ControlWord(3, 1) == 0x23 && !Outside(0x3F, ControlWord(3, 1))
  {
    assert Doublings(2 * fcco) == 0;
  }

  /** clock<pll_out>::disable(): PDRUNCFG bit 7 set (PLL powered down). */
  method PllOutDisable(pdruncfg: Register)
    modifies pdruncfg
    ensures pdruncfg.value == Raised(old(pdruncfg.value), 0x80)
  {
    pdruncfg.SetMasked(0x80);
  }

  // ------------------------------------------------------------------ main

  /** The source main::frequency() reads from MAINCLKSEL[1:0]: 0b10 falls through into the pll_out case. */
  function MainSource(sel: bv32): (s: ClockSource)
    ensures s == Irc || s == PllIn || s == PllOut
  {
    var b := Masked(sel, 0x3);
    if b == 0 then Irc else if b == 1 then PllIn else PllOut
  }

  /** clock<main>::frequency() */
  function MainHz(mainSel: bv32, pllSel: bv32, pllCtrl: bv32): Option<nat>
  {
    match MainSource(mainSel)
    case Irc => Some(IrcHz)
    case PllIn => PllInHz(pllSel)
    case _ => PllOutHz(pllCtrl, pllSel)
  }

  /** The MAINCLKSEL bits main::set_source writes, for the four sources it accepts. */
  function MainSelection(source: ClockSource): Option<bv32>
  {
    match source
    case Irc => Some(0x0)
    case PllIn => Some(0x1)
    case PllOut => Some(0x3)
    case WatchdogOsc => Some(0x2)
    case _ => None
  }

  /**
   * Selecting irc, pll_in or pll_out and reading back names the same source;
   * selecting the watchdog oscillator reads back as pll_out, the case 0b10
   * falls into.
   */
  lemma MainSelectionReadsBack(source: ClockSource, v: bv32)
    requires MainSelection(source).Some?
    ensures var read := MainSource(Written(v, 0x3, MainSelection(source).value));
            if source == WatchdogOsc then read == PllOut else read == source
  {
  }

  /** clock<main>::set_source(source): like pll_in's, on MAINCLKSEL[1:0] and MAINCLKUEN. */
  method MainSetSource(sel: Register, uen: Register, source: ClockSource, nv: Assert.Nv) returns (aborted: bool)
    requires sel != uen
    modifies sel, uen, nv
    ensures aborted <==> nv.assertsEnabled && MainSelection(source).None?
    ensures aborted ==> nv.assertMessage == Assert.Trace(true, MainSite, InvalidSource)
    ensures aborted ==> uen.stores == old(uen.stores)
    ensures sel.value == match MainSelection(source) case Some(b) => Written(old(sel.value), 0x3, b) case None => old(sel.value)
    ensures !aborted ==> uen.stores == old(uen.stores) + Latched(old(uen.value))
  {
    match MainSelection(source) {
      case Some(b) =>
        aborted := sel.WriteMasked(0x3, b, nv);
      case None =>
        aborted := nv.Check(false, Assert.Trace(nv.assertsEnabled, MainSite, InvalidSource));
        if aborted {
          return;
        }
    }
    Latch(uen, nv);
    aborted := false;
  }

  // ------------------------------------------------------------------ uart

  /** clock<uart>::frequency(): the main clock divided by UARTCLKDIV[7:0]; a zero divider has no frequency. */
  function UartHz(div: bv32, mainSel: bv32, pllSel: bv32, pllCtrl: bv32): (r: Option<nat>)
    ensures r.Some? <==> Masked(div, 0xFF) != 0 && MainHz(mainSel, pllSel, pllCtrl).Some?
    ensures r.Some? ==> r.value <= MainHz(mainSel, pllSel, pllCtrl).value
  {
    var d := Masked(div, 0xFF) as nat;
    match MainHz(mainSel, pllSel, pllCtrl)
    case Some(f) => if d == 0 then None else Modular.QuotientBound(f, d); Some(f / d)
    case None => None
  }

  /** clock<uart>::set_divider(d): asserts d != 0, then writes UARTCLKDIV[7:0]. */
  method UartSetDivider(div: Register, divider: bv8, nv: Assert.Nv) returns (aborted: bool)
    modifies div, nv
    ensures aborted <==> nv.assertsEnabled && divider == 0
    ensures aborted ==> nv.assertMessage == Assert.Trace(true, DividerSite, ZeroDivider) && div.value == old(div.value)
    ensures !aborted ==> div.value == Written(old(div.value), 0xFF, divider as bv32)
  {
    aborted := nv.Check(divider != 0, Assert.Trace(nv.assertsEnabled, DividerSite, ZeroDivider));
    if !aborted {
      aborted := div.WriteMasked(0xFF, divider as bv32, nv);
    }
  }

  /** After set_divider(d) with d != 0, the UART clock is the main clock divided by d. */
  lemma DividerReadsBack(v: bv32, divider: bv8, mainSel: bv32, pllSel: bv32, pllCtrl: bv32)
    requires divider != 0 && MainHz(mainSel, pllSel, pllCtrl).Some?
    ensures UartHz(Written(v, 0xFF, divider as bv32), mainSel, pllSel, pllCtrl)
            == Some(MainHz(mainSel, pllSel, pllCtrl).value / divider as nat)
  {
    assert Masked(Written(v, 0xFF, divider as bv32), 0xFF) == divider as bv32;
  }

  /** clock<uart>::enable(d): the divider, then SYSAHBCLKCTRL bit 12 (the UART's clock gate). */
  method UartEnable(div: Register, ahb: Register, divider: bv8, nv: Assert.Nv) returns (aborted: bool)
    requires div != ahb
    modifies div, ahb, nv
    ensures aborted <==> nv.assertsEnabled && divider == 0
    ensures aborted ==> ahb.value == old(ahb.value) && div.value == old(div.value)
    ensures !aborted ==> div.value == Written(old(div.value), 0xFF, divider as bv32)
    ensures !aborted ==> ahb.value == Raised(old(ahb.value), BitMask(12))
  {
    aborted := UartSetDivider(div, divider, nv);
    if !aborted {
      ahb.SetBit(12);
    }
  }

  /** clock<uart>::disable(): SYSAHBCLKCTRL bit 12 cleared. */
  method UartDisable(ahb: Register)
    modifies ahb
    ensures ahb.value == Cleared(old(ahb.value), BitMask(12))
  {
    ahb.ClearBit(12);
  }
}
