/**
 * The blocking debug writer (sys/debug.hpp): each fragment becomes a bool
 * send context for the UART (write_str over a C string, or over the digits
 * write_int leaves in its static buffer), and debug(output, fragments...)
 * sends them one after another, waiting for each send to finish.
 *
 * Waiting is modelled by calling the send waitable's interrupt() until it
 * is no longer pending: each call stands for one THRE interrupt.
 */
module Debug {
  import opened Bytes
  import opened Decimal
  import opened Uart
  import Mmio
  import Format

  /**
   * One call of the write_str(buf) closure at `index`: at the NUL it reports
   * done and writes nothing (the byte is ignored); otherwise it writes the
   * byte and advances. Outside `memory` it reports done, a case a
   * C string never reaches.
   */
  function WriteStrStep(memory: seq<Byte>, index: int): (r: (int, Byte, bool))
    ensures r.2 <==> !(0 <= index < |memory|) || memory[index] == 0
    ensures !r.2 ==> r.0 == index + 1 && r.1 == memory[index]
    ensures r.2 ==> r.0 == index
  {
    if !(0 <= index < |memory|) || memory[index] == 0 then (index, 0, true)
    else (index + 1, memory[index], false)
  }

  /** write_str(buf) as a send context over the memory buf points at. */
  function WriteStr(memory: seq<Byte>): Producer<int>
  {
    index => WriteStrStep(memory, index)
  }

  /**
   * Filling the TX FIFO from a C string at `index` queues the next
   * min(n, remaining) characters; it is exhausted, with the index on the
   * NUL, when fewer than n were left.
   */
  lemma {:induction false} FillFromString(text: seq<Byte>, index: int, sent: seq<Byte>, n: nat)
    requires IsCString(text) && 0 <= index <= |text|
    ensures Fill(WriteStr(text + [0]), index, sent, n) ==
            if |text| - index < n then Filled(|text|, sent + text[index..], true)
            else Filled(index + n, sent + text[index..index + n], false)
    decreases n
  {
    var memory := text + [0];
    if n > 0 {
      if index == |text| {
        assert memory[index] == 0;
        assert sent + text[index..] == sent;
      } else {
        assert memory[index] == text[index] != 0;
        FillFromString(text, index + 1, sent + [text[index]], n - 1);
        if |text| - index < n {
          assert sent + [text[index]] + text[index + 1..] == sent + text[index..];
        } else {
          assert sent + [text[index]] + text[index + 1..index + n] == sent + text[index..index + n];
        }
      }
    } else {
      assert sent + text[index..index] == sent;
    }
  }

  /** How far a send of `text` is from complete: two steps plus the characters left while pending. */
  function Remaining(text: seq<Byte>, st: SendState<int>): nat
  {
    match st.status
    case SendPending => if 0 <= st.context <= |text| then |text| - st.context + 2 else 2
    case Finishing => 1
    case _ => 0
  }

  /** A send of `text` in progress: never failed, and past the pending state only at the NUL. */
  predicate Sending(text: seq<Byte>, st: SendState<int>)
  {
    st.status != SendFailed && 0 <= st.context <= |text| && (st.status != SendPending ==> st.context == |text|)
  }

  /** The constructor's fill queues the first characters, up to 16, and leaves a send in progress. */
  lemma StartOnString(text: seq<Byte>)
    requires IsCString(text)
    ensures var r := SendStart<int>(WriteStr(text + [0]), 0);
            Sending(text, r.after) && r.bytes == text[..r.after.context]
  {
    FillFromString(text, 0, [], TxFifoDepth);
    if |text| < TxFifoDepth {
      assert text[..|text|] == text;
    }
  }

  /**
   * Each THRE interrupt while pending queues the next characters, up to 16,
   * and brings the send closer to complete; from finishing it completes.
   */
  lemma InterruptOnString(text: seq<Byte>, st: SendState<int>)
    requires IsCString(text) && Sending(text, st) && SendIsPending(st.status)
    ensures var r := SendInterrupt(WriteStr(text + [0]), st);
            Sending(text, r.after) && st.context <= r.after.context && r.bytes == text[st.context..r.after.context]
            && Remaining(text, r.after) < Remaining(text, st)
            && (st.status == Finishing ==> r.after.status == SendComplete)
  {
    var index := st.context;
    if st.status == SendPending {
      FillFromString(text, index, [], TxFifoDepth);
    }
  }

  /**
   * The wait() of a send of `text`: each pass of the loop delivers one THRE
   * interrupt, until the waitable is no longer pending. The characters not
   * yet queued follow in order, and the interrupt that completes the send
   * disables THRE.
   */
  method Wait(w: SendWaitable<int>, ghost text: seq<Byte>)
    requires IsCString(text) && w.produce == WriteStr(text + [0])
    requires Sending(text, SendState(w.status, w.context))
    modifies w, w.uart
    ensures w.status == SendComplete && w.context == |text|
    ensures w.uart.writes == old(w.uart.writes) + Transmits(text[old(w.context)..])
    ensures w.uart.ier == if old(w.status) == SendComplete then old(w.uart.ier) else Mmio.Cleared(old(w.uart.ier), TxInterrupt)
    ensures w.uart.lsr == old(w.uart.lsr) && w.uart.rxFifo == old(w.uart.rxFifo)
    ensures w.uart.sendValid == old(w.uart.sendValid) && w.uart.recvValid == old(w.uart.recvValid)
  {
    ghost var start := w.context;
    while w.IsPending()
      invariant Sending(text, SendState(w.status, w.context)) && start <= w.context
      invariant w.uart.writes == old(w.uart.writes) + Transmits(text[start..w.context])
      invariant w.uart.ier == if w.status == SendComplete && old(w.status) != SendComplete
                             then Mmio.Cleared(old(w.uart.ier), TxInterrupt) else old(w.uart.ier)
      invariant w.uart.lsr == old(w.uart.lsr) && w.uart.rxFifo == old(w.uart.rxFifo)
      invariant w.uart.sendValid == old(w.uart.sendValid) && w.uart.recvValid == old(w.uart.recvValid)
      decreases Remaining(text, SendState(w.status, w.context))
    {
      ghost var st := SendState(w.status, w.context);
      InterruptOnString(text, st);
      ghost var next := SendInterrupt(w.produce, st).after.context;
      TransmitsConcat(text[start..st.context], text[st.context..next]);
      assert text[start..st.context] + text[st.context..next] == text[start..next];
      w.Interrupt();
    }
  }

  /**
   * output.write(write_str(buf)): the send waitable's constructor flushes
   * the FIFO, queues the first characters and enables THRE.
   */
  method Open(uart: Peripheral, text: seq<Byte>) returns (w: SendWaitable<int>)
    requires IsCString(text)
    modifies uart
    ensures w.uart == uart && w.produce == WriteStr(text + [0]) && fresh(w)
    ensures Sending(text, SendState(w.status, w.context)) && w.status != SendComplete
    ensures uart.writes == old(uart.writes) + [FlushTx] + Transmits(text[..w.context])
    ensures uart.ier == Mmio.Raised(old(uart.ier), TxInterrupt) && uart.sendValid
    ensures uart.lsr == old(uart.lsr) && uart.rxFifo == old(uart.rxFifo) && uart.recvValid == old(uart.recvValid)
  {
    StartOnString(text);
    w := new SendWaitable<int>(uart, WriteStr(text + [0]), 0);
  }

  /**
   * output.write(write_str(buf)).wait() and the destruction of the waitable:
   * the FIFO is flushed, the string's characters are sent in order, and the
   * THRE interrupt ends disabled with send_context reset.
   */
  method SendString(uart: Peripheral, text: seq<Byte>)
    requires IsCString(text)
    modifies uart
    ensures uart.writes == old(uart.writes) + [FlushTx] + Transmits(text)
    ensures uart.ier == Mmio.Cleared(old(uart.ier), TxInterrupt) && !uart.sendValid
    ensures uart.lsr == old(uart.lsr) && uart.rxFifo == old(uart.rxFifo) && uart.recvValid == old(uart.recvValid)
  {
    var w := Open(uart, text);
    ghost var queued := text[..w.context];
    ghost var rest := text[w.context..];
    Wait(w, text);
    TransmitsConcat(queued, rest);
    assert queued + rest == text;
    w.Destroy();
    Mmio.ClearedAfterRaised(old(uart.ier), TxInterrupt);
    Mmio.ClearedTwice(Mmio.Raised(old(uart.ier), TxInterrupt), TxInterrupt);
  }
  /**
   * write_int(n): the same digit algorithm as format_int, over its own
   * 32-byte static buffer; the fiber it returns reads the digits and the NUL.
   */
  method WriteInt(n: int, buffer: array<Byte>) returns (memory: seq<Byte>)
    requires buffer.Length == 32
    modifies buffer
    ensures memory == Digits(ToI64(n)) + [0]
  {
    var start := Format.FormatInt(n, buffer);
    memory := buffer[start..];
  }

  /**
   * debug_formatter(fragment): the memory the returned write_str fiber walks,
   * the string itself for `const char*` and write_int's digits for the
   * integer types; the format-string half is ignored.
   */
  method DebugFormatter(fragment: Format.Fragment, buffer: array<Byte>) returns (memory: seq<Byte>)
    requires buffer.Length == 32 && (fragment.Text? ==> IsCString(fragment.text))
    modifies buffer
    ensures memory == Format.FragmentText(fragment) + [0]
    ensures IsCString(Format.FragmentText(fragment))
  {
    match fragment
    case Text(_, text) =>
      memory := text + [0];
    case Integer(_, value) =>
      memory := WriteInt(value, buffer);
      DigitsRoundTrip(ToI64(value));
  }

  /** Everything debug(output, fragments...) hands the UART: per fragment a TX flush and then its characters. */
  function DebugTrace(fragments: seq<Format.Fragment>): seq<Write>
  {
    if fragments == [] then []
    else [FlushTx] + Transmits(Format.FragmentText(fragments[0])) + DebugTrace(fragments[1..])
  }

  /**
   * debug(output, f1, ..., fn): one blocking write per fragment, strictly in
   * argument order; each write ends with THRE disabled and send_context reset.
   */
  method Debug(uart: Peripheral, fragments: seq<Format.Fragment>, buffer: array<Byte>)
    requires |fragments| >= 1 && Format.WellFormed(fragments) && buffer.Length == 32
    modifies uart, buffer
    ensures uart.writes == old(uart.writes) + DebugTrace(fragments)
    ensures uart.ier == Mmio.Cleared(old(uart.ier), TxInterrupt) && !uart.sendValid
    ensures uart.lsr == old(uart.lsr) && uart.rxFifo == old(uart.rxFifo) && uart.recvValid == old(uart.recvValid)
    decreases |fragments|
  {
    var memory := DebugFormatter(fragments[0], buffer);
    var text := memory[..|memory| - 1];
    assert text == Format.FragmentText(fragments[0]);
    SendString(uart, text);
    var rest := fragments[1..];
    assert DebugTrace(fragments) == [FlushTx] + Transmits(text) + DebugTrace(rest);
    if |fragments| > 1 {
      assert Format.WellFormed(rest) by {
        forall i | 0 <= i < |rest| ensures rest[i].Text? ==> IsCString(rest[i].text) {
          assert rest[i] == fragments[i + 1];
        }
      }
      Debug(uart, rest, buffer);
      Mmio.ClearedTwice(old(uart.ier), TxInterrupt);
    } else {
      assert DebugTrace(rest) == [];
    }
  }

  /** The bytes a trace sends, with the FIFO flushes left out. */
  function Payload(writes: seq<Write>): seq<Byte>
  {
    if writes == [] then []
    else (if writes[0].Transmit? then [writes[0].b] else []) + Payload(writes[1..])
  }

  lemma {:induction false} PayloadConcat(a: seq<Write>, b: seq<Write>)
    ensures Payload(a + b) == Payload(a) + Payload(b)
    decreases |a|
  {
    if a != [] {
      PayloadConcat(a[1..], b);
      assert (a + b)[1..] == a[1..] + b;
    } else {
      assert a + b == b;
    }
  }

  lemma {:induction false} PayloadOfTransmits(bytes: seq<Byte>)
    ensures Payload(Transmits(bytes)) == bytes
    decreases |bytes|
  {
    if bytes != [] {
      PayloadOfTransmits(bytes[1..]);
      assert Transmits(bytes)[1..] == Transmits(bytes[1..]);
    }
  }

  lemma {:induction false} ConcatCons(texts: seq<seq<Byte>>)
    requires texts != []
    ensures Format.Concat(texts) == texts[0] + Format.Concat(texts[1..])
    decreases |texts|
  {
    if |texts| > 1 {
      var init := texts[..|texts| - 1];
      ConcatCons(init);
      assert init[1..] == texts[1..][..|texts| - 2];
    } else {
      assert texts[..0] == [];
    }
  }

  /**
   * debug(output, fragments...) sends exactly the characters
   * format(fragments...) produces, one FIFO flush before each fragment.
   */
  lemma {:induction false} DebugSendsFormatOutput(fragments: seq<Format.Fragment>)
    ensures Payload(DebugTrace(fragments)) == Format.Output(fragments)
    decreases |fragments|
  {
    if fragments != [] {
      var text := Format.FragmentText(fragments[0]);
      DebugSendsFormatOutput(fragments[1..]);
      PayloadConcat([FlushTx] + Transmits(text), DebugTrace(fragments[1..]));
      PayloadConcat([FlushTx], Transmits(text));
      PayloadOfTransmits(text);
      var texts := Format.Texts(fragments);
      ConcatCons(texts);
      assert texts[1..] == Format.Texts(fragments[1..]);
    }
  }
}
