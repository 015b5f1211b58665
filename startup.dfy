/**
 * The runtime's reset entry (rtl/cortex-m0/startup.cpp): the assertion
 * message a failed assertion left in `.nvram` is taken out and cleared, and
 * handed to the HAL's startup.
 */
module Startup {
  import opened Wrappers
  import Bytes
  import Assert
  import Mmio
  import System

  /**
   * clear_assert_message: returns what `nv::assert_message` held, which the
   * reset did not clear, and leaves it null.
   */
  method ClearAssertMessage(nv: Assert.Nv) returns (message: Assert.CString)
    modifies nv
    ensures message == old(nv.assertMessage)
    ensures nv.assertMessage == None
  {
    message := nv.assertMessage;
    nv.assertMessage := None;
  }

  /**
   * rtl_startup: hal::startup receives exactly the message that was cleared.
   * `context` is the reset context the application's main receives.
   */
  method RtlStartup(nv: Assert.Nv, status: Mmio.Register) returns (context: System.ResetContext)
    modifies nv, status
    ensures context == System.Promote(
      System.ResetContext(System.DecodeReset(Mmio.Masked(old(status.value), System.StatusBits)), None),
      old(nv.assertMessage))
    ensures nv.assertMessage == None
    ensures status.value == Mmio.Raised(old(status.value), System.StatusBits)
  {
    var message := ClearAssertMessage(nv);
    context := System.Startup(status, message);
  }

  /**
   * A failed assertion followed by the software reset it causes: the next
   * startup sees the stored message, provided RSTSTAT shows only the
   * software-reset bit.
   */
  lemma AssertSurvivesReset(message: seq<Bytes.Byte>, status: bv32)
    requires Mmio.Masked(status, System.StatusBits) == 0x10
    ensures System.Promote(
      System.ResetContext(System.DecodeReset(Mmio.Masked(status, System.StatusBits)), None),
      Some(message)) == System.ResetContext(System.AssertFailed, Some(message))
  {
    assert System.DecodeReset(0x10) == System.Software by {
      System.LowestBitWins(0x10, 4);
    }
  }
}
