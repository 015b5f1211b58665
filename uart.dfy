/**
 * The interrupt-driven UART of the LPC1100 (hal/lpc1100/uart.hpp).
 *
 * The peripheral is represented by the registers the waitables touch: the
 * writes to the FIFO control register and the transmit holding register, in
 * order; the interrupt enable register; the line status register; and the
 * receive FIFO the receive buffer register pops from. Interrupts are explicit
 * calls of the handler. A send waitable pulls bytes from a producer (its
 * lambda: state to new state, a byte, and whether it is exhausted); a receive
 * waitable pushes bytes into a consumer (state and byte to new state, and
 * whether it is satisfied).
 */
module Uart {
  import opened Bytes
  import Mmio

  /** The writes the waitables make, in order: FCR flushes and THR bytes. */
  datatype Write = FlushTx | FlushRx | Transmit(b: Byte)

  /** IER bit 1 (THRE interrupt) and bits 0 and 2 (RDA and RLS interrupts). */
  const TxInterrupt: bv32 := 0x2
  const RxInterrupts: bv32 := 0x5
  /** LSR bits 1-3 and 7: overrun, parity, framing and RX FIFO errors. */
  const LineErrors: bv32 := 0x8E
  /** The bytes the transmit FIFO takes per refill. */
  const TxFifoDepth: nat := 16

  /** The interrupt identification codes, after the handler's mask 0b1110. */
  const IirThre: bv32 := 0x2
  const IirRls: bv32 := 0x6
  const IirRda: bv32 := 0x4
  const IirCti: bv32 := 0xC

  class Peripheral {
    /** Every FCR flush and THR byte written, oldest first. */
    var writes: seq<Write>
    /** IER */
    var ier: bv32
    /** LSR, apart from bit 0, which is set exactly while `rxFifo` is not empty. */
    var lsr: bv32
    /** The received bytes RBR yields, oldest first. */
    var rxFifo: seq<Byte>
    /** Whether the static send_context and recv_context hold a context pointer. */
    var sendValid: bool
    var recvValid: bool

    constructor (ier: bv32, lsr: bv32, rxFifo: seq<Byte>)
      ensures writes == [] && this.ier == ier && this.lsr == lsr && this.rxFifo == rxFifo
      ensures !sendValid && !recvValid
    {
      writes := [];
      this.ier := ier;
      this.lsr := lsr;
      this.rxFifo := rxFifo;
      sendValid := false;
      recvValid := false;
    }
  }

  /** The bytes as THR writes. */
  function Transmits(bytes: seq<Byte>): seq<Write>
  {
    seq(|bytes|, i requires 0 <= i < |bytes| => Transmit(bytes[i]))
  }

  lemma TransmitsAppend(a: seq<Byte>, b: Byte)
    ensures Transmits(a + [b]) == Transmits(a) + [Transmit(b)]
  {
  }

  lemma TransmitsConcat(a: seq<Byte>, b: seq<Byte>)
    ensures Transmits(a + b) == Transmits(a) + Transmits(b)
  {
  }

  // ------------------------------------------------------------------ sending

  /** A send context: from its state, the next state, the byte it wrote, and whether it is exhausted. */
  type Producer<!S> = S -> (S, Byte, bool)

  datatype Filled<S> = Filled(state: S, sent: seq<Byte>, done: bool)

  /**
   * fill_tx_queue with `n` iterations left and the bytes `sent` already
   * written: each iteration asks the context for a byte; an exhausted
   * context ends the fill at once and that call's byte is not written.
   */
  function Fill<S>(produce: Producer<S>, s: S, sent: seq<Byte>, n: nat): Filled<S>
    decreases n
  {
    if n == 0 then Filled(s, sent, false)
    else
      var next := produce(s);
      if next.2 then Filled(next.0, sent, true)
      else Fill(produce, next.0, sent + [next.1], n - 1)
  }

  /**
   * A fill keeps the bytes already written in front and adds at most n; it
   * adds fewer only when the context is exhausted.
   */
  lemma {:induction false} FillBounds<S>(produce: Producer<S>, s: S, sent: seq<Byte>, n: nat)
    ensures var r := Fill(produce, s, sent, n);
            |sent| <= |r.sent| <= |sent| + n && r.sent[..|sent|] == sent
            && (!r.done ==> |r.sent| == |sent| + n)
    decreases n
  {
    if n > 0 && !produce(s).2 {
      var next := produce(s);
      FillBounds(produce, next.0, sent + [next.1], n - 1);
      var r := Fill(produce, next.0, sent + [next.1], n - 1);
      assert r.sent[..|sent|] == (r.sent[..|sent| + 1])[..|sent|];
    }
  }

  /** The send waitable's status, with the extra finishing state. */
  datatype SendStatus = SendPending | SendFailed | SendComplete | Finishing

  datatype SendState<S> = SendState(status: SendStatus, context: S)

  /** The constructor's effect: the status after the first fill and the bytes it queued. */
  /** A transition of the send waitable: its new state and the bytes it wrote. */
  datatype Sent<S> = Sent(after: SendState<S>, bytes: seq<Byte>)

  function SendStart<S>(produce: Producer<S>, s: S): Sent<S>
  {
    var f := Fill(produce, s, [], TxFifoDepth);
    Sent(SendState(if f.done then Finishing else SendPending, f.state), f.sent)
  }

  /**
   * interrupt(): a finishing waitable completes (and disables the THRE
   * interrupt) without writing; any other status refills the FIFO and becomes
   * finishing when the context is exhausted.
   */
  function SendInterrupt<S>(produce: Producer<S>, st: SendState<S>): Sent<S>
  {
    if st.status == Finishing then Sent(SendState(SendComplete, st.context), [])
    else
      var f := Fill(produce, st.context, [], TxFifoDepth);
      Sent(SendState(if f.done then Finishing else st.status, f.state), f.sent)
  }

  /** is_pending(): pending or finishing. */
  predicate SendIsPending(status: SendStatus)
  {
    status == SendPending || status == Finishing
  }

  /** No transition of the send waitable enters the failed status. */
  lemma SendNeverFails<S>(produce: Producer<S>, s: S, st: SendState<S>)
    ensures SendStart(produce, s).after.status != SendFailed
    ensures st.status != SendFailed ==> SendInterrupt(produce, st).after.status != SendFailed
  {
  }

  /** Completion comes only from finishing, by an interrupt that writes nothing. */
  lemma SendCompletesFromFinishing<S>(produce: Producer<S>, st: SendState<S>)
    ensures SendInterrupt(produce, st).after.status == SendComplete && st.status != SendComplete
        <==> st.status == Finishing
    ensures st.status == Finishing ==> SendInterrupt(produce, st).bytes == []
  {
  }

  class SendWaitable<S> {
    const uart: Peripheral
    const produce: Producer<S>
    var status: SendStatus
    var context: S

    /**
     * send_waitable(context): installs itself as send_context, flushes the TX
     * FIFO (FCR bit 2), fills it, becomes finishing if that exhausted the
     * context, and enables the THRE interrupt.
     */
    constructor (uart: Peripheral, produce: Producer<S>, context: S)
      modifies uart
      ensures this.uart == uart && this.produce == produce
      ensures (SendState(status, this.context), uart.writes) ==
              (SendStart(produce, context).after, old(uart.writes) + [FlushTx] + Transmits(SendStart(produce, context).bytes))
      ensures uart.ier == Mmio.Raised(old(uart.ier), TxInterrupt) && uart.sendValid
      ensures uart.lsr == old(uart.lsr) && uart.rxFifo == old(uart.rxFifo) && uart.recvValid == old(uart.recvValid)
    {
      this.uart := uart;
      this.produce := produce;
      this.status := SendPending;
      this.context := context;
      new;
      uart.sendValid := true;
      uart.writes := uart.writes + [FlushTx];
      var done := FillTxQueue();
      if done {
        status := Finishing;
      }
      uart.ier := Mmio.Raised(uart.ier, TxInterrupt);
    }

    /** fill_tx_queue(): at most 16 THR writes, in the order the context produces the bytes. */
    method FillTxQueue() returns (done: bool)
      modifies this, uart
      ensures var f := Fill(produce, old(context), [], TxFifoDepth);
              context == f.state && done == f.done && uart.writes == old(uart.writes) + Transmits(f.sent)
      ensures status == old(status)
      ensures uart.ier == old(uart.ier) && uart.lsr == old(uart.lsr) && uart.rxFifo == old(uart.rxFifo)
      ensures uart.sendValid == old(uart.sendValid) && uart.recvValid == old(uart.recvValid)
    {
      ghost var sent: seq<Byte> := [];
      var i := 0;
      while i < 16
        invariant 0 <= i <= 16
        invariant Fill(produce, old(context), [], TxFifoDepth) == Fill(produce, context, sent, TxFifoDepth - i)
        invariant uart.writes == old(uart.writes) + Transmits(sent)
        invariant status == old(status)
        invariant uart.ier == old(uart.ier) && uart.lsr == old(uart.lsr) && uart.rxFifo == old(uart.rxFifo)
        invariant uart.sendValid == old(uart.sendValid) && uart.recvValid == old(uart.recvValid)
      {
        var next := produce(context);
        context := next.0;
        if next.2 {
          return true;
        }
        uart.writes := uart.writes + [Transmit(next.1)];
        TransmitsAppend(sent, next.1);
        sent := sent + [next.1];
        i := i + 1;
      }
      return false;
    }

    /** interrupt(), reached through send_context when the IIR reads THRE. */
    method Interrupt()
      modifies this, uart
      ensures var r := SendInterrupt(produce, old(SendState(status, context)));
              SendState(status, context) == r.after && uart.writes == old(uart.writes) + Transmits(r.bytes)
      ensures uart.ier == if old(status) == Finishing then Mmio.Cleared(old(uart.ier), TxInterrupt) else old(uart.ier)
      ensures uart.lsr == old(uart.lsr) && uart.rxFifo == old(uart.rxFifo)
      ensures uart.sendValid == old(uart.sendValid) && uart.recvValid == old(uart.recvValid)
    {
      if status == Finishing {
        status := SendComplete;
        uart.ier := Mmio.Cleared(uart.ier, TxInterrupt);
      } else {
        var done := FillTxQueue();
        if done {
          status := Finishing;
        }
      }
    }

    predicate IsPending()
      reads this
    {
      SendIsPending(status)
    }

    predicate IsComplete()
      reads this
    {
      status == SendComplete
    }

    predicate IsFailed()
      reads this
    {
      status == SendFailed
    }

    /** ~send_waitable(): disables the THRE interrupt and resets send_context. */
    method Destroy()
      modifies uart
      ensures uart.ier == Mmio.Cleared(old(uart.ier), TxInterrupt) && !uart.sendValid
      ensures uart.writes == old(uart.writes) && uart.lsr == old(uart.lsr) && uart.rxFifo == old(uart.rxFifo)
      ensures uart.recvValid == old(uart.recvValid)
    {
      uart.ier := Mmio.Cleared(uart.ier, TxInterrupt);
      uart.sendValid := false;
    }
  }

  // ----------------------------------------- sending a sequence of bytes

  /** A context that sends the bytes of a sequence, oldest first. */
  function SendBytes(s: seq<Byte>): (seq<Byte>, Byte, bool)
  {
    if s == [] then ([], 0, true) else (s[1..], s[0], false)
  }

  /** A fill from a byte sequence queues its first min(n, |s|) bytes; it is exhausted when fewer than n were left. */
  lemma {:induction false} FillFromBytes(s: seq<Byte>, sent: seq<Byte>, n: nat)
    ensures Fill(SendBytes, s, sent, n) ==
            if |s| < n then Filled([], sent + s, true) else Filled(s[n..], sent + s[..n], false)
  {
    if n > 0 && s != [] {
      FillFromBytes(s[1..], sent + [s[0]], n - 1);
      if |s| < n {
        assert sent + [s[0]] + s[1..] == sent + s;
      } else {
        assert s[1..][n - 1..] == s[n..];
        assert sent + [s[0]] + s[1..][..n - 1] == sent + s[..n];
      }
    } else if n == 0 {
      assert sent + s[..0] == sent;
    } else {
      assert sent + s == sent;
    }
  }

  /** The send waitable after its constructor and k interrupts, with every byte written so far. */
  function SendAfter(s: seq<Byte>, k: nat): Sent<seq<Byte>>
  {
    if k == 0 then SendStart(SendBytes, s) else SendNext(SendAfter(s, k - 1))
  }

  /** One more interrupt, with its bytes added to those written before. */
  function SendNext(before: Sent<seq<Byte>>): Sent<seq<Byte>>
  {
    var r := SendInterrupt(SendBytes, before.after);
    Sent(r.after, before.bytes + r.bytes)
  }

  /**
   * Where a send of s stands after the interrupt that finds its first j
   * bytes written: pending with 16 more written while 16 more remained,
   * finishing with everything written otherwise.
   */
  function Progress(s: seq<Byte>, j: nat): Sent<seq<Byte>>
    requires j <= |s|
  {
    if j + 16 <= |s| then Sent(SendState(SendPending, s[j + 16..]), s[..j + 16])
    else Sent(SendState(Finishing, []), s)
  }

  /** An interrupt of a pending send of a byte sequence writes its next 16 bytes, or all that are left. */
  lemma RefillFromBytes(rest: seq<Byte>)
    ensures SendInterrupt(SendBytes, SendState(SendPending, rest)) ==
            if |rest| < 16 then Sent(SendState(Finishing, []), rest) else Sent(SendState(SendPending, rest[16..]), rest[..16])
  {
    FillFromBytes(rest, [], 16);
    assert [] + rest == rest;
    if 16 <= |rest| {
      assert [] + rest[..16] == rest[..16];
    }
  }

  /** The interrupt after the first j bytes of s were written. */
  lemma SendStep(s: seq<Byte>, j: nat)
    requires j <= |s|
    ensures SendNext(Sent(SendState(SendPending, s[j..]), s[..j])) == Progress(s, j)
  {
    var rest := s[j..];
    RefillFromBytes(rest);
    if j + 16 <= |s| {
      assert rest[16..] == s[j + 16..];
      assert s[..j] + rest[..16] == s[..j + 16];
    } else {
      assert s[..j] + rest == s;
    }
  }

  /** The constructor writes the first 16 bytes of s, or all of them. */
  lemma StartFromBytes(s: seq<Byte>)
    ensures SendStart(SendBytes, s) == Progress(s, 0)
  {
    FillFromBytes(s, [], 16);
    assert [] + s == s;
    if 16 <= |s| {
      assert [] + s[..16] == s[..16];
    }
  }

  /** Short of the last block, the send is pending with the first 16k bytes written. */
  lemma PendingBlock(s: seq<Byte>, k: nat)
    requires 1 <= k && 16 * k <= |s|
    ensures Progress(s, 16 * (k - 1)) == Sent(SendState(SendPending, s[16 * k..]), s[..16 * k])
  {
    assert 16 * (k - 1) + 16 == 16 * k;
  }

  /** After the constructor and k interrupts that all found 16 or more bytes left, 16k of them are written. */
  lemma {:induction false} SendProgress(s: seq<Byte>, k: nat)
    requires 16 * k <= |s|
    ensures SendAfter(s, k) == Progress(s, 16 * k)
  {
    if k == 0 {
      StartFromBytes(s);
    } else {
      SendProgress(s, k - 1);
      PendingBlock(s, k);
      SendStep(s, 16 * k);
    }
  }

  /** Whole blocks of 16 bytes, in terms of n / 16. */
  lemma Blocks(n: nat, k: nat)
    ensures k < n / 16 <==> 16 * (k + 1) <= n
    ensures k <= n / 16 <==> 16 * k <= n
  {
    assert n == 16 * (n / 16) + n % 16;
  }

  /**
   * A send of n bytes is pending after each of the first n/16 interrupts,
   * finishing after interrupt n/16 with all n bytes written in order, and
   * complete after interrupt n/16 + 1, never before: one interrupt more than
   * the refills, because finishing must be left by an interrupt of its own.
   */
  lemma SendCompletion(s: seq<Byte>, k: nat)
    requires k <= |s| / 16 + 1
    ensures k < |s| / 16 ==> SendAfter(s, k).after.status == SendPending
    ensures k == |s| / 16 ==> SendAfter(s, k).after.status == Finishing && SendAfter(s, k).bytes == s
    ensures SendAfter(s, k).after.status == SendComplete <==> k == |s| / 16 + 1
    ensures k == |s| / 16 + 1 ==> SendAfter(s, k).bytes == s
  {
    if k == |s| / 16 + 1 {
      Blocks(|s|, k - 1);
      SendProgress(s, k - 1);
    } else {
      Blocks(|s|, k);
      SendProgress(s, k);
    }
  }

  // ---------------------------------------------------------------- receiving

  /** A receive context: from its state and a received byte, the new state and whether it is satisfied. */
  type Consumer<!T> = (T, Byte) -> (T, bool)

  datatype Drained<T> = Drained(state: T, rest: seq<Byte>, done: bool)

  /** The drain loop: bytes go to the context in FIFO order until it is satisfied or the FIFO is empty. */
  function Drain<T>(consume: Consumer<T>, t: T, fifo: seq<Byte>): (r: Drained<T>)
    ensures |r.rest| <= |fifo| && r.rest == fifo[|fifo| - |r.rest|..]
    ensures !r.done ==> r.rest == []
  {
    if fifo == [] then Drained(t, [], false)
    else
      var next := consume(t, fifo[0]);
      if next.1 then Drained(next.0, fifo[1..], true)
      else
        var r := Drain(consume, next.0, fifo[1..]);
        assert fifo[1..][|fifo[1..]| - |r.rest|..] == fifo[|fifo| - |r.rest|..];
        r
  }

  /** A context that collects bytes and is satisfied once it holds n of them. */
  function Collect(n: nat): Consumer<seq<Byte>>
  {
    (t: seq<Byte>, b: Byte) => (t + [b], |t| + 1 >= n)
  }

  /**
   * Draining into a collector short of n bytes takes exactly the bytes it
   * still needs when the FIFO holds them, and leaves the rest in the FIFO;
   * otherwise it takes the whole FIFO and is still not satisfied.
   */
  lemma {:induction false} DrainCollects(n: nat, t: seq<Byte>, fifo: seq<Byte>)
    requires |t| < n
    ensures var d := Drain(Collect(n), t, fifo);
            if |t| + |fifo| >= n then d == Drained(t + fifo[..n - |t|], fifo[n - |t|..], true)
            else d == Drained(t + fifo, [], false)
    decreases |fifo|
  {
    if fifo != [] {
      var next := Collect(n)(t, fifo[0]);
      assert next == (t + [fifo[0]], |t| + 1 >= n);
      if |t| + 1 < n {
        DrainCollects(n, t + [fifo[0]], fifo[1..]);
        if |t| + |fifo| >= n {
          assert fifo[1..][n - |t| - 1..] == fifo[n - |t|..];
          assert t + [fifo[0]] + fifo[1..][..n - |t| - 1] == t + fifo[..n - |t|];
        } else {
          assert t + [fifo[0]] + fifo[1..] == t + fifo;
        }
      } else {
        assert fifo[..1] == [fifo[0]] && fifo[1..] == fifo[n - |t|..];
      }
    } else {
      assert t + fifo == t;
    }
  }

  datatype RecvStatus = RecvPending | RecvFailed | RecvComplete

  class RecvWaitable<T> {
    const uart: Peripheral
    const consume: Consumer<T>
    var status: RecvStatus
    var context: T

    /**
     * recv_waitable(context): installs itself as recv_context, flushes the RX
     * FIFO (FCR bit 1) and enables the RDA and RLS interrupts.
     */
    constructor (uart: Peripheral, consume: Consumer<T>, context: T)
      modifies uart
      ensures this.uart == uart && this.consume == consume && status == RecvPending && this.context == context
      ensures uart.writes == old(uart.writes) + [FlushRx] && uart.rxFifo == []
      ensures uart.ier == Mmio.Raised(old(uart.ier), RxInterrupts) && uart.recvValid
      ensures uart.lsr == old(uart.lsr) && uart.sendValid == old(uart.sendValid)
    {
      this.uart := uart;
      this.consume := consume;
      status := RecvPending;
      this.context := context;
      new;
      uart.recvValid := true;
      uart.writes := uart.writes + [FlushRx];
      uart.rxFifo := [];
      uart.ier := Mmio.Raised(uart.ier, RxInterrupts);
    }

    /**
     * interrupt(iir), reached through recv_context for every code but THRE.
     * RLS fails the waitable when a line error is flagged, whatever its
     * status; RDA and CTI drain the FIFO into the context; other codes do
     * nothing.
     */
    method Interrupt(iir: bv32)
      modifies this, uart
      ensures iir == IirRls ==>
        status == (if Mmio.Masked(uart.lsr, LineErrors) != 0 then RecvFailed else old(status))
        && context == old(context) && uart.rxFifo == old(uart.rxFifo) && uart.ier == old(uart.ier)
      ensures iir == IirRda || iir == IirCti ==>
        var d := Drain(consume, old(context), old(uart.rxFifo));
        context == d.state && uart.rxFifo == d.rest
        && status == (if d.done then RecvComplete else old(status))
        && uart.ier == (if d.done then Mmio.Cleared(old(uart.ier), RxInterrupts) else old(uart.ier))
      ensures iir !in {IirRls, IirRda, IirCti} ==>
        status == old(status) && context == old(context) && uart.rxFifo == old(uart.rxFifo) && uart.ier == old(uart.ier)
      ensures uart.writes == old(uart.writes) && uart.lsr == old(uart.lsr)
      ensures uart.sendValid == old(uart.sendValid) && uart.recvValid == old(uart.recvValid)
    {
      if iir == IirRls {
        if Mmio.Masked(uart.lsr, LineErrors) != 0 {
          status := RecvFailed;
        }
      } else if iir == IirRda || iir == IirCti {
        while uart.rxFifo != []
          invariant Drain(consume, old(context), old(uart.rxFifo)) == Drain(consume, context, uart.rxFifo)
          invariant status == old(status) && uart.ier == old(uart.ier)
          invariant uart.writes == old(uart.writes) && uart.lsr == old(uart.lsr)
          invariant uart.sendValid == old(uart.sendValid) && uart.recvValid == old(uart.recvValid)
          decreases |uart.rxFifo|
        {
          var b := uart.rxFifo[0];
          uart.rxFifo := uart.rxFifo[1..];
          var next := consume(context, b);
          context := next.0;
          if next.1 {
            status := RecvComplete;
            uart.ier := Mmio.Cleared(uart.ier, RxInterrupts);
            break;
          }
        }
      }
    }

    predicate IsPending()
      reads this
    {
      status == RecvPending
    }

    predicate IsComplete()
      reads this
    {
      status == RecvComplete
    }

    predicate IsFailed()
      reads this
    {
      status == RecvFailed
    }

    /** ~recv_waitable(): resets recv_context and leaves the receive interrupts enabled. */
    method Destroy()
      modifies uart
      ensures !uart.recvValid && uart.ier == old(uart.ier)
      ensures uart.writes == old(uart.writes) && uart.lsr == old(uart.lsr) && uart.rxFifo == old(uart.rxFifo)
      ensures uart.sendValid == old(uart.sendValid)
    {
      uart.recvValid := false;
    }
  }

  // --------------------------------------------------------- the vector handler

  datatype Target = ToSend | ToRecv(iir: bv32)

  /** interrupt::handlers::uart: IIR under the mask 0b1110; THRE goes to send_context, the rest to recv_context. */
  function Route(iirRegister: bv32): (t: Target)
    ensures t == ToSend <==> Mmio.Masked(iirRegister, 0xE) == IirThre
    ensures t.ToRecv? ==> t.iir == Mmio.Masked(iirRegister, 0xE)
  {
    var iir := Mmio.Masked(iirRegister, 0xE);
    if iir == IirThre then ToSend else ToRecv(iir)
  }

  /** The handler, given the waitables the two contexts point to; calling an invalid context is undefined. */
  method Handler<S, T>(uart: Peripheral, send: SendWaitable<S>, recv: RecvWaitable<T>, iirRegister: bv32)
    requires send.uart == uart && recv.uart == uart
    requires Route(iirRegister) == ToSend ==> uart.sendValid
    requires Route(iirRegister).ToRecv? ==> uart.recvValid
    modifies send, recv, uart
    ensures Route(iirRegister) == ToSend ==>
      var r := SendInterrupt(send.produce, old(SendState(send.status, send.context)));
      SendState(send.status, send.context) == r.after
      && uart.writes == old(uart.writes) + Transmits(r.bytes)
      && uart.ier == (if old(send.status) == Finishing then Mmio.Cleared(old(uart.ier), TxInterrupt) else old(uart.ier))
      && uart.rxFifo == old(uart.rxFifo)
      && recv.status == old(recv.status) && recv.context == old(recv.context)
    ensures Route(iirRegister).ToRecv? ==>
      send.status == old(send.status) && send.context == old(send.context) && uart.writes == old(uart.writes)
    ensures Route(iirRegister) == ToRecv(IirRls) ==>
      recv.status == (if Mmio.Masked(uart.lsr, LineErrors) != 0 then RecvFailed else old(recv.status))
      && recv.context == old(recv.context) && uart.rxFifo == old(uart.rxFifo) && uart.ier == old(uart.ier)
    ensures Route(iirRegister) == ToRecv(IirRda) || Route(iirRegister) == ToRecv(IirCti) ==>
      var d := Drain(recv.consume, old(recv.context), old(uart.rxFifo));
      recv.context == d.state && uart.rxFifo == d.rest
      && recv.status == (if d.done then RecvComplete else old(recv.status))
      && uart.ier == (if d.done then Mmio.Cleared(old(uart.ier), RxInterrupts) else old(uart.ier))
    ensures Route(iirRegister).ToRecv? && Route(iirRegister).iir !in {IirRls, IirRda, IirCti} ==>
      recv.status == old(recv.status) && recv.context == old(recv.context)
      && uart.rxFifo == old(uart.rxFifo) && uart.ier == old(uart.ier)
    ensures uart.lsr == old(uart.lsr)
  {
    var target := Route(iirRegister);
    match target
    case ToSend => send.Interrupt();
    case ToRecv(iir) => recv.Interrupt(iir);
  }

  // ----------------------------------------------------------- baud divisor

  datatype Divisor = Divisor(dlm: Byte, dll: Byte)

  /**
   * configure_uart's divisor: Fdiv = core_clock / UARTCLKDIV / 16 / baud,
   * with UARTCLKDIV just set to 1; DLM gets Fdiv / 256 and DLL Fdiv % 256,
   * each truncated to the 8-bit register.
   */
  function Fdiv(coreClock: nat, clockDivider: nat, baud: nat): nat
    requires clockDivider >= 1 && baud >= 1
  {
    coreClock / clockDivider / 16 / baud
  }

  function ConfigureDivisor(coreClock: nat, baud: nat): (d: Divisor)
    requires baud >= 1
    ensures d.dll == Fdiv(coreClock, 1, baud) % 256
  {
    var f := Fdiv(coreClock, 1, baud);
    Divisor((f / 256) % 256, f % 256)
  }

  /** The two registers together hold Fdiv whenever it fits in 16 bits. */
  lemma DivisorRoundTrip(coreClock: nat, baud: nat)
    requires baud >= 1 && Fdiv(coreClock, 1, baud) < 0x1_0000
    ensures ConfigureDivisor(coreClock, baud).dlm * 256 + ConfigureDivisor(coreClock, baud).dll
         == Fdiv(coreClock, 1, baud)
  {
  }

  /** At the 48 MHz the driver assumes, 9600 baud gives Fdiv = 312: DLM 1, DLL 56. */
  lemma Divisor9600()
    ensures Fdiv(48_000_000, 1, 9600) == 312
    ensures ConfigureDivisor(48_000_000, 9600) == Divisor(1, 56)
  {
  }
}
