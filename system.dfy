/**
 * How the LPC1100 HAL learns why the device came out of reset
 * (hal/lpc1100/system.cpp, hal/lpc1100/system.hpp): the reset status
 * register RSTSTAT is read and cleared, its lowest set bit names the event,
 * and a software reset that carries an assertion message is reported as an
 * assertion.
 */
module System {
  import opened Wrappers
  import Assert
  import Mmio

  /** reset_event, in declaration order. */
  datatype ResetEvent =
    | Unknown | PowerOn | External | Brownout | Watchdog | AssertFailed | Aborted | Fault | Software

  /**
   * reset_context: the event and, for an assertion, its message. The
   * `{}`-initialised union of the other events holds the null pointer.
   */
  datatype ResetContext = ResetContext(event: ResetEvent, message: Assert.CString)

  /** The address of RSTSTAT and the five status bits the decoder looks at. */
  const ResetStatusAddress: nat := 0x4004_8030
  const StatusBits: bv32 := 0x1F

  /** The event each RSTSTAT bit stands for, bit 0 first. */
  function EventOfBit(k: nat): ResetEvent
    requires k < 5
  {
    [PowerOn, External, Watchdog, Brownout, Software][k]
  }

  /** The bit test `reset_bits & (1 << k)` of the if-chain. */
  predicate IsSet(bits: bv32, k: nat)
    requires k < 32
  {
    bits & Mmio.BitMask(k) != 0
  }

  /** The if-chain of determine_reset_event on the bits read from RSTSTAT. */
  function DecodeReset(bits: bv32): ResetEvent
  {
    if IsSet(bits, 0) then PowerOn
    else if IsSet(bits, 1) then External
    else if IsSet(bits, 2) then Watchdog
    else if IsSet(bits, 3) then Brownout
    else if IsSet(bits, 4) then Software
    else Unknown
  }

  /** The lowest set bit among bits 0-4 decides the event. */
  lemma LowestBitWins(bits: bv32, k: nat)
    requires k < 5 && IsSet(bits, k)
    requires forall j: nat | j < k :: !IsSet(bits, j)
    ensures DecodeReset(bits) == EventOfBit(k)
  {
    if k > 0 { assert !IsSet(bits, 0); }
    if k > 1 { assert !IsSet(bits, 1); }
    if k > 2 { assert !IsSet(bits, 2); }
    if k > 3 { assert !IsSet(bits, 3); }
  }

  /** The event is unknown exactly when none of the five bits is set. */
  lemma UnknownIffNoBit(bits: bv32)
    ensures DecodeReset(bits) == Unknown <==> forall j: nat | j < 5 :: !IsSet(bits, j)
  {
    if forall j: nat | j < 5 :: !IsSet(bits, j) {
    } else {
      var j: nat :| j < 5 && IsSet(bits, j);
      assert DecodeReset(bits) != Unknown by {
        if !IsSet(bits, 0) && !IsSet(bits, 1) && !IsSet(bits, 2) && !IsSet(bits, 3) {
          assert j == 4;
        }
      }
    }
  }

  /** The decoder only sees bits 0-4, because it reads under the mask 0b11111. */
  lemma DecodeSeesStatusBits(v: bv32)
    ensures DecodeReset(Mmio.Masked(v, StatusBits)) == DecodeReset(v)
  {
  }

  /** The decoder never yields the events only software can name. */
  lemma DecodeNeverAssert(bits: bv32)
    ensures DecodeReset(bits) !in {AssertFailed, Aborted, Fault}
  {
  }

  /**
   * determine_reset_event: reads RSTSTAT under the mask 0b11111, then sets the
   * same bits (writing ones is how the hardware clears them).
   */
  method DetermineResetEvent(status: Mmio.Register) returns (context: ResetContext)
    modifies status
    ensures context == ResetContext(DecodeReset(Mmio.Masked(old(status.value), StatusBits)), None)
    ensures status.value == Mmio.Raised(old(status.value), StatusBits)
    ensures status.stores == old(status.stores) + [status.value]
  {
    var bits := status.Read(StatusBits);
    status.SetMasked(StatusBits);
    context := ResetContext(DecodeReset(bits), None);
  }

  /** The promotion step of startup: a software reset with a message becomes an assertion. */
  function Promote(context: ResetContext, message: Assert.CString): (r: ResetContext)
    ensures r.event == AssertFailed <==> context.event == AssertFailed || (context.event == Software && message.Some?)
    ensures context.event != Software || message.None? ==> r == context
  {
    if context.event == Software && message.Some? then ResetContext(AssertFailed, message) else context
  }

  /** A promoted context carries exactly the message it was given. */
  lemma PromoteCarriesMessage(context: ResetContext, message: Assert.CString)
    requires context.event == Software && message.Some?
    ensures Promote(context, message) == ResetContext(AssertFailed, message)
  {
  }

  /**
   * startup(message): decodes the reset and promotes it; `context` is what
   * is handed to the application's main, which never returns.
   */
  method Startup(status: Mmio.Register, message: Assert.CString) returns (context: ResetContext)
    modifies status
    ensures context == Promote(ResetContext(DecodeReset(Mmio.Masked(old(status.value), StatusBits)), None), message)
    ensures status.value == Mmio.Raised(old(status.value), StatusBits)
    ensures status.stores == old(status.stores) + [status.value]
  {
    context := DetermineResetEvent(status);
    if context.event == Software {
      if message.Some? {
        context := context.(event := AssertFailed, message := message);
      }
    }
  }
}
