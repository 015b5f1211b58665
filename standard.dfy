/**
 * The standard test protocol (sys/spec/standard.hpp): the board reads the
 * parameter block, runs the handler, and answers `ok` and a 0x00 byte; a
 * failed test answers its message, a newline and `fail`, then 0x00.
 */
module StandardProtocol {
  import opened Bytes
  import opened Waitable
  import opened Session
  import Fiber

  const Newline: seq<Byte> := [0x0A]
  /** "ok" */
  const Ok: seq<Byte> := [0x6F, 0x6B]
  /** "\nfail" */
  const NewlineFail: seq<Byte> := [0x0A, 0x66, 0x61, 0x69, 0x6C]

  /** run(handler): parameters, one handler call, `ok`, 0x00. */
  method Run(link: Link, size: nat) returns (params: seq<Byte>)
    requires 1 <= size <= |link.incoming| && size < SizeMod
    modifies link
    ensures params == old(link.incoming[..size]) && link.incoming == old(link.incoming[size..])
    ensures link.log == old(link.log) + [Handled(params)] + Transmitted(Ok + [0])
  {
    var block := new Byte[size](_ => 0);
    link.ReadInto(block);
    params := block[..];
    link.Handle(params);
    link.WriteFormat(Ok);
    link.WriteByte(0);
    TransmittedConcat(Ok, [0]);
  }

  /** fail(m): m, then "\nfail", then 0x00. */
  method Fail(link: Link, m: seq<Byte>)
    requires IsCString(m)
    modifies link
    ensures link.log == old(link.log) + Transmitted(m + NewlineFail + [0]) && link.incoming == old(link.incoming)
  {
    link.WriteFormat(m);
    link.WriteFormat(NewlineFail);
    link.WriteByte(0);
    TransmittedConcat(m, NewlineFail);
    TransmittedConcat(m + NewlineFail, [0]);
  }

  /** event(m): m and a newline. */
  method Event(link: Link, m: seq<Byte>)
    requires IsCString(m)
    modifies link
    ensures link.log == old(link.log) + Transmitted(m + Newline) && link.incoming == old(link.incoming)
  {
    link.WriteFormat(m);
    link.WriteFormat(Newline);
    TransmittedConcat(m, Newline);
  }

  /** until(b): complete exactly when the byte received is b; it keeps no state. */
  function Until(b: Byte, data: Byte): (r: Status)
    ensures r != Failed
  {
    if data == b then Complete else Pending
  }

  function UntilFiber(b: Byte): Fiber.Step<(), Byte>
  {
    (u: (), data: Byte) => ((), Until(b, data))
  }

  /** Over any input, call i of until(b) completes iff byte i is b. */
  lemma {:induction false} UntilMatches(b: Byte, inputs: seq<Byte>)
    ensures var r := Fiber.Run(UntilFiber(b), (), inputs).1;
            forall i | 0 <= i < |inputs| :: r[i] == Until(b, inputs[i]) && (r[i] == Complete <==> inputs[i] == b)
    decreases |inputs|
  {
    if inputs != [] {
      UntilMatches(b, inputs[1..]);
      Fiber.RunFirst(UntilFiber(b), (), inputs);
      var r := Fiber.Run(UntilFiber(b), (), inputs).1;
      var rest := Fiber.Run(UntilFiber(b), (), inputs[1..]).1;
      assert r == [Until(b, inputs[0])] + rest;
      forall i | 1 <= i < |inputs|
        ensures r[i] == Until(b, inputs[i])
      {
        assert r[i] == rest[i - 1] && inputs[i] == inputs[1..][i - 1];
      }
    }
  }

  /** Fed bytes that end with the first b, until(b) is pending until exactly that b, which completes it. */
  lemma UntilCompletesAtFirst(b: Byte, inputs: seq<Byte>)
    requires |inputs| >= 1 && inputs[|inputs| - 1] == b && b !in inputs[..|inputs| - 1]
    ensures Fiber.CompletesAfter(UntilFiber(b), (), inputs)
  {
    UntilMatches(b, inputs);
    var r := Fiber.Run(UntilFiber(b), (), inputs).1;
    var n := |inputs|;
    forall i | 0 <= i < n
      ensures r[i] == (Fiber.Pendings(n - 1) + [Complete])[i]
    {
      if i < n - 1 {
        assert inputs[i] == inputs[..n - 1][i] != b;
      }
    }
    assert r == Fiber.Pendings(n - 1) + [Complete];
  }
}
