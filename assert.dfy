/**
 * Run-time assertions of the runtime library (rtl/assert.hpp) and the word of
 * uninitialised RAM that carries a failed assertion's message across the
 * software reset that follows it (rtl/nvram.hpp, cortex-m0/startup.cpp).
 */
module Assert {
  import opened Wrappers
  import opened Bytes

  /** A `const char*`: None is the null pointer, Some(s) the NUL-terminated string s. */
  type CString = Option<seq<Byte>>

  /**
   * The TRACE(what) macro: the literal prefixed with "file:line: ", or the null
   * pointer when the build defines NO_ASSERT.
   */
  function Trace(enabled: bool, site: seq<Byte>, what: seq<Byte>): (r: CString)
    ensures r.None? <==> !enabled
    ensures r.Some? ==> |r.value| == |site| + 2 + |what|
    ensures r.Some? ==> r.value[..|site|] == site && r.value[|site| + 2..] == what
  {
    if enabled then Some(site + Ascii(": ") + what) else None
  }

  /**
   * The `.nvram` section and the build configuration. `assertsEnabled` is false
   * when NO_ASSERT is defined. `assertMessage` is `nv::assert_message`; it is
   * not initialised by the runtime, so a fresh state takes whatever value the
   * memory kept across the last reset.
   */
  class Nv {
    const assertsEnabled: bool
    var assertMessage: CString

    constructor (enabled: bool, preserved: CString)
      ensures assertsEnabled == enabled && assertMessage == preserved
    {
      assertsEnabled := enabled;
      assertMessage := preserved;
    }

    /**
     * detail::assert_tripped: stores the message. The call to abort() that
     * follows never returns; callers stop at once after this method.
     */
    method AssertTripped(message: CString)
      modifies this
      ensures assertMessage == message
    {
      assertMessage := message;
    }

    /**
     * assert(condition, message), and assert<condition>(message) with the
     * condition known at compile time. `aborted` means execution ended in
     * abort(); the caller performs nothing after it. Under NO_ASSERT neither
     * form does anything.
     */
    method Check(condition: bool, message: CString) returns (aborted: bool)
      modifies this
      ensures aborted <==> assertsEnabled && !condition
      ensures assertMessage == if aborted then message else old(assertMessage)
    {
      aborted := false;
      if assertsEnabled && !condition {
        AssertTripped(message);
        aborted := true;
      }
    }
  }
}
