/**
 * The JSON test protocol (spec/support/json_driver.hpp): the board reads the
 * parameter block, dumps the handler's JSON result into a stack buffer,
 * sends it up to its NUL, and ends with 0x00. A failure sends its message
 * and 0x00, with no newline.
 */
module JsonDriver {
  import opened Bytes
  import opened Session
  import SimpleJson

  /** The default buffer_size. */
  const BufferSize: nat := 256

  /** The value fits the stack buffer with its NUL, which nothing in the driver checks. */
  predicate Fits(j: SimpleJson.Json)
  {
    SimpleJson.Valid(j) && SimpleJson.Size(j) + 1 <= BufferSize
  }

  /** write_json(json): dump into the buffer, then send the C string the buffer holds: the JSON text. */
  method WriteJson(link: Link, j: SimpleJson.Json, buffer: array<Byte>)
    requires Fits(j) && buffer.Length == BufferSize
    modifies link, buffer
    ensures link.log == old(link.log) + Transmitted(SimpleJson.Text(j)) && link.incoming == old(link.incoming)
    ensures 0 in buffer[..] && CStringAt(buffer[..]) == SimpleJson.Text(j)
  {
    SimpleJson.SizeIsLength(j);
    var end := SimpleJson.Dump(j, buffer, 0);
    SimpleJson.TextIsCString(j);
    var text := buffer[..end];
    assert buffer[0..end] == text;
    NulEnds(buffer[..], end);
    link.WriteFormat(text);
  }

  /** A region holding a C string at its start and a NUL after it reads back as that string. */
  lemma {:induction false} NulEnds(mem: seq<Byte>, end: nat)
    requires end < |mem| && mem[end] == 0 && IsCString(mem[..end])
    ensures 0 in mem && Strlen(mem) == end && CStringAt(mem) == mem[..end]
    decreases end
  {
    if end > 0 {
      assert mem[0] == mem[..end][0] != 0;
      assert mem[1..][..end - 1] == mem[1..end];
      NulEnds(mem[1..], end - 1);
    }
  }

  /** terminate_session(): a single 0x00. */
  method TerminateSession(link: Link)
    modifies link
    ensures link.log == old(link.log) + [Tx(0)] && link.incoming == old(link.incoming)
  {
    link.WriteByte(0);
  }

  /**
   * run(handler): parameters, one handler call, its result as JSON text, 0x00.
   * Every result the handler can give must fit the buffer.
   */
  method Run(link: Link, size: nat, handler: seq<Byte> -> SimpleJson.Json, buffer: array<Byte>) returns (params: seq<Byte>)
    requires 1 <= size <= |link.incoming| && size < SizeMod && buffer.Length == BufferSize
    requires forall p: seq<Byte> | |p| == size :: Fits(handler(p))
    modifies link, buffer
    ensures params == old(link.incoming[..size]) && link.incoming == old(link.incoming[size..])
    ensures link.log == old(link.log) + [Handled(params)] + Transmitted(SimpleJson.Text(handler(params))) + [Tx(0)]
  {
    var block := new Byte[size](_ => 0);
    link.ReadInto(block);
    params := block[..];
    link.Handle(params);
    WriteJson(link, handler(params), buffer);
    TerminateSession(link);
  }

  /** fail(m): m, then 0x00. */
  method Fail(link: Link, m: seq<Byte>)
    requires IsCString(m)
    modifies link
    ensures link.log == old(link.log) + Transmitted(m + [0]) && link.incoming == old(link.incoming)
  {
    link.WriteFormat(m);
    TerminateSession(link);
    TransmittedConcat(m, [0]);
  }
}
