/**
 * The event-list test protocol (spec/support/protocols/event_list.hpp): the
 * board reads the test's parameter block, runs the handler, which may report
 * events, and ends the session with a single 0x00 byte.
 */
module EventList {
  import opened Bytes
  import opened Session

  const Newline: seq<Byte> := [0x0A]

  /** write_event(m): m is sent through format. */
  method WriteEvent(link: Link, m: seq<Byte>)
    requires IsCString(m)
    modifies link
    ensures link.log == old(link.log) + Transmitted(m) && link.incoming == old(link.incoming)
  {
    link.WriteFormat(m);
  }

  /** terminate_session(): a single 0x00 byte. */
  method TerminateSession(link: Link)
    modifies link
    ensures link.log == old(link.log) + [Tx(0)] && link.incoming == old(link.incoming)
  {
    link.WriteByte(0);
  }

  /**
   * run(handler): the next sizeof(Params) bytes become the parameters, the
   * handler is called once with them, and the session ends. Params is a C++
   * object, so its size is at least 1.
   */
  method Run(link: Link, size: nat) returns (params: seq<Byte>)
    requires 1 <= size <= |link.incoming| && size < SizeMod
    modifies link
    ensures params == old(link.incoming[..size]) && link.incoming == old(link.incoming[size..])
    ensures link.log == old(link.log) + [Handled(params), Tx(0)]
  {
    var block := new Byte[size](_ => 0);
    link.ReadInto(block);
    params := block[..];
    link.Handle(params);
    TerminateSession(link);
  }

  /** fail(m): m, a newline, then the terminating 0x00. */
  method Fail(link: Link, m: seq<Byte>)
    requires IsCString(m)
    modifies link
    ensures link.log == old(link.log) + Transmitted(m + Newline + [0]) && link.incoming == old(link.incoming)
  {
    WriteEvent(link, m);
    WriteEvent(link, Newline);
    TerminateSession(link);
    TransmittedConcat(m, Newline);
    TransmittedConcat(m + Newline, [0]);
  }

  /** event(m): m and a newline; the session goes on. */
  method Event(link: Link, m: seq<Byte>)
    requires IsCString(m)
    modifies link
    ensures link.log == old(link.log) + Transmitted(m + Newline) && link.incoming == old(link.incoming)
  {
    WriteEvent(link, m);
    WriteEvent(link, Newline);
    TransmittedConcat(m, Newline);
  }
}
