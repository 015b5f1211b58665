/**
 * The formatting fibers (src/sys/format.hpp). A formatting fiber is called
 * once per byte the UART wants: it writes the next byte and reports pending,
 * or reports complete and writes nothing. `format_str` walks a NUL-terminated
 * string; `format_int` renders an integer into a static 32-byte buffer and
 * walks that; `format(fragments...)` chains one fiber per fragment with the
 * stage semantics of `rtl::sequence`, each fiber created only when its stage
 * begins.
 */
module Format {
  import opened Wrappers
  import opened Bytes
  import opened Decimal
  import opened Waitable

  // ------------------------------------------------------------ format_str

  /**
   * One call of the format_str closure over a string with the given
   * contents, at `index`: the new index, the status and the byte written.
   */
  function StrStep(text: seq<Byte>, index: nat): (r: (nat, Status, Option<Byte>))
    requires index <= |text|
    ensures r.0 <= |text|
  {
    if index == |text| then (index, Complete, None) else (index + 1, Pending, Some(text[index]))
  }

  /** Before the first NUL no byte is NUL. */
  lemma StrlenFirst(memory: seq<Byte>, index: nat)
    requires 0 in memory && index <= Strlen(memory)
    ensures memory[index] == 0 <==> index == Strlen(memory)
    ensures index < Strlen(memory) ==> CStringAt(memory)[index] == memory[index]
  {
    var n := Strlen(memory);
    if index < n {
      assert memory[..n][index] == memory[index];
    }
  }

  /** The closure format_str(buf) returns: the memory buf points at and the captured index. */
  class StrFiber {
    const memory: seq<Byte>
    var index: nat

    constructor (memory: seq<Byte>)
      requires 0 in memory
      ensures this.memory == memory && index == 0 && Valid()
    {
      this.memory := memory;
      index := 0;
    }

    ghost predicate Valid()
      reads this
    {
      0 in memory && index <= Strlen(memory)
    }

    /** operator()(data): at the NUL, complete without writing; otherwise write the byte, advance, pending. */
    method Call() returns (status: Status, data: Option<Byte>)
      requires Valid()
      modifies this
      ensures (index, status, data) == StrStep(CStringAt(memory), old(index)) && Valid()
    {
      StrlenFirst(memory, index);
      if memory[index] == 0 {
        return Complete, None;
      }
      data := Some(memory[index]);
      index := index + 1;
      status := Pending;
    }
  }

  /** The statuses and bytes of k calls of a format_str closure started at `index`. */
  function StrRun(text: seq<Byte>, index: nat, k: nat): (seq<Status>, seq<Byte>)
    requires index <= |text|
    decreases k
  {
    if k == 0 then ([], [])
    else
      var r := StrStep(text, index);
      var rest := StrRun(text, r.0, k - 1);
      ([r.1] + rest.0, (if r.2.Some? then [r.2.value] else []) + rest.1)
  }

  function Repeat(status: Status, n: nat): (r: seq<Status>)
    ensures |r| == n && forall i | 0 <= i < n :: r[i] == status
  {
    seq(n, i => status)
  }

  /**
   * A string of length L: the first L calls write its characters in order and
   * report pending; every later call reports complete and writes nothing.
   */
  lemma {:induction false} StrEmits(text: seq<Byte>, index: nat, k: nat)
    requires index <= |text|
    ensures var n := |text| - index;
            StrRun(text, index, k) ==
            if k <= n then (Repeat(Pending, k), text[index..index + k])
            else (Repeat(Pending, n) + Repeat(Complete, k - n), text[index..])
    decreases k
  {
    if k > 0 {
      var n := |text| - index;
      var rest := StrRun(text, StrStep(text, index).0, k - 1);
      if n == 0 {
        assert StrStep(text, index) == (index, Complete, None);
        assert StrRun(text, index, k).0 == [Complete] + rest.0;
        assert StrRun(text, index, k).1 == [] + rest.1;
        StrEmits(text, index, k - 1);
        assert rest.1 == text[index..];
        assert rest.0 == Repeat(Complete, k - 1);
        assert [Complete] + Repeat(Complete, k - 1) == Repeat(Pending, 0) + Repeat(Complete, k);
      } else {
        assert StrRun(text, index, k) == ([Pending] + rest.0, [text[index]] + rest.1);
        StrEmits(text, index + 1, k - 1);
        if k <= n {
          assert [Pending] + Repeat(Pending, k - 1) == Repeat(Pending, k);
          assert [text[index]] + text[index + 1..index + k] == text[index..index + k];
        } else {
          assert [Pending] + (Repeat(Pending, n - 1) + Repeat(Complete, k - n)) == Repeat(Pending, n) + Repeat(Complete, k - n);
          assert [text[index]] + text[index + 1..] == text[index..];
        }
      }
    } else {
      assert StrRun(text, index, 0) == ([], []);
      assert Repeat(Pending, 0) == [];
      assert text[index..index] == [];
    }
  }

  // ------------------------------------------------------------ format_int

  /**
   * format_int(n): n arrives as an `rtl::i64`, an unsigned 64-bit value, so
   * the source's negative branch is dead and is not modelled. The NUL goes
   * to buffer[31], then the digits right to left, and the fiber starts at the
   * first digit.
   */
  method FormatInt(n: int, buffer: array<Byte>) returns (start: nat)
    requires buffer.Length == 32
    modifies buffer
    ensures 11 <= start <= 30
    ensures buffer[start..] == Digits(ToI64(n)) + [0]
    ensures buffer[..start] == old(buffer[..start])
  {
    var x := ToI64(n);
    ghost var x0 := x;
    AtMost20Digits(x0);
    var pos := 31;
    buffer[pos] := 0;
    pos := pos - 1;
    if x == 0 {
      buffer[pos] := 0x30;
      pos := pos - 1;
    } else {
      SignificantShape(x0);
      while x != 0
        invariant 10 <= pos <= 30
        invariant Significant(x0) == Significant(x) + buffer[pos + 1..31]
        invariant |Significant(x0)| == |Significant(x)| + 30 - pos
        invariant buffer[31] == 0
        invariant buffer[..pos + 1] == old(buffer[..pos + 1])
        decreases x
      {
        SignificantShape(x);
        ghost var tail := buffer[pos + 1..31];
        buffer[pos] := DigitChar(x % 10);
        assert buffer[pos..31] == [DigitChar(x % 10)] + tail;
        assert Significant(x) == Significant(x / 10) + [DigitChar(x % 10)];
        pos := pos - 1;
        x := x / 10;
      }
    }
    start := pos + 1;
    assert buffer[start..] == buffer[start..31] + [buffer[31]];
  }

  // -------------------------------------------------------- formatter, format

  /** A fragment pair: the format-string half and a string (its contents up to the NUL) or an integer value. */
  datatype Fragment = Text(spec: seq<Byte>, text: seq<Byte>) | Integer(spec: seq<Byte>, value: int)

  /** Every string fragment is a C string: no NUL inside its contents. */
  predicate WellFormed(fragments: seq<Fragment>)
  {
    forall i | 0 <= i < |fragments| :: fragments[i].Text? ==> IsCString(fragments[i].text)
  }

  /**
   * The characters the fiber formatter(fragment) writes: the string for the
   * `const char*` specialisation, the digits format_int leaves in its buffer
   * for the integer ones. The format-string half plays no part.
   */
  function FragmentText(f: Fragment): seq<Byte>
  {
    match f
    case Text(_, text) => text
    case Integer(_, value) => Digits(ToI64(value))
  }

  /**
   * The integer formatters' fiber walks the digits and the NUL format_int
   * leaves in its buffer, which as a C string are exactly the decimal digits.
   */
  lemma IntegerFiberText(value: int)
    ensures 0 in Digits(ToI64(value)) + [0]
    ensures CStringAt(Digits(ToI64(value)) + [0]) == Digits(ToI64(value))
  {
    var d := Digits(ToI64(value));
    DigitsRoundTrip(ToI64(value));
    assert IsCString(d);
    StrlenOfText(d);
  }

  /** strlen of a string followed by its NUL is its length. */
  lemma {:induction false} StrlenOfText(t: seq<Byte>)
    requires IsCString(t)
    ensures 0 in t + [0] && Strlen(t + [0]) == |t|
    decreases |t|
  {
    assert (t + [0])[|t|] == 0;
    if t != [] {
      StrlenOfText(t[1..]);
      assert (t + [0])[1..] == t[1..] + [0];
    }
  }

  /** The text of each fragment, in order. */
  function Texts(fragments: seq<Fragment>): (r: seq<seq<Byte>>)
    ensures |r| == |fragments| && forall i | 0 <= i < |r| :: r[i] == FragmentText(fragments[i])
  {
    if fragments == [] then [] else [FragmentText(fragments[0])] + Texts(fragments[1..])
  }

  /** Everything format(fragments...) writes: each fragment's text, left to right. */
  function Output(fragments: seq<Fragment>): seq<Byte>
  {
    Concat(Texts(fragments))
  }

  /** The strings of a sequence of fibers, one after the other. */
  function Concat(texts: seq<seq<Byte>>): seq<Byte>
  {
    if texts == [] then []
    else Concat(texts[..|texts| - 1]) + texts[|texts| - 1]
  }

  /** The state of the fiber format returns: the stage, and the index of that stage's format_str fiber. */
  datatype FormatState = FormatState(stage: nat, index: nat)

  /** The stage's fiber has not run past its NUL. */
  predicate Ready(texts: seq<seq<Byte>>, st: FormatState)
  {
    st.stage < |texts| ==> st.index <= |texts[st.stage]|
  }

  /** The fiber right after construction: the first generator has been called. */
  function FormatStart(texts: seq<seq<Byte>>): (st: FormatState)
    ensures Ready(texts, st)
  {
    FormatState(0, 0)
  }

  /**
   * One call of format's fiber (rtl::sequence over the formatter generators):
   * a stage that completes creates the next stage's fiber and runs it in the
   * same call; the last stage answers for itself; with no texts every
   * call is complete.
   */
  function FormatStep(texts: seq<seq<Byte>>, st: FormatState): (r: (FormatState, Status, Option<Byte>))
    requires Ready(texts, st)
    ensures Ready(texts, r.0)
    decreases |texts| - st.stage
  {
    if st.stage >= |texts| then (st, Complete, None)
    else
      var s := StrStep(texts[st.stage], st.index);
      if s.1 != Complete || st.stage + 1 == |texts| then (st.(index := s.0), s.1, s.2)
      else FormatStep(texts, FormatState(st.stage + 1, 0))
  }

  /** The position in Output that a state has reached. */
  predicate At(texts: seq<seq<Byte>>, st: FormatState, p: nat)
  {
    st.stage < |texts| && st.index <= |texts[st.stage]|
    && p == |Concat(texts[..st.stage])| + st.index
  }

  /** The first k + 1 texts write what the first k do, then the text of fragment k. */
  lemma OutputStep(texts: seq<seq<Byte>>, k: nat)
    requires k < |texts|
    ensures Concat(texts[..k + 1]) == Concat(texts[..k]) + texts[k]
  {
    assert texts[..k + 1][..k] == texts[..k];
  }

  /** What the first k texts write begins what all of them write. */
  lemma {:induction false} OutputPrefix(texts: seq<seq<Byte>>, k: nat)
    requires k <= |texts|
    ensures |Concat(texts[..k])| <= |Concat(texts)|
    ensures Concat(texts)[..|Concat(texts[..k])|] == Concat(texts[..k])
    decreases |texts| - k
  {
    if k == |texts| {
      assert texts[..k] == texts;
    } else {
      OutputPrefix(texts, k + 1);
      OutputStep(texts, k);
      var a := Concat(texts[..k]);
      var b := Concat(texts[..k + 1]);
      assert b[..|a|] == a;
    }
  }

  /**
   * Short of the end of Output, a call writes the byte at the position
   * reached and moves one on; at the end it reports complete, writes nothing
   * and stays.
   */
  lemma {:induction false} FormatStepAt(texts: seq<seq<Byte>>, st: FormatState, p: nat)
    requires At(texts, st, p) && p <= |Concat(texts)|
    ensures var r := FormatStep(texts, st);
            if p < |Concat(texts)| then r.1 == Pending && r.2 == Some(Concat(texts)[p]) && At(texts, r.0, p + 1)
            else r.1 == Complete && r.2 == None && At(texts, r.0, p)
    decreases |texts| - st.stage
  {
    var k := st.stage;
    var text := texts[k];
    OutputStep(texts, k);
    OutputPrefix(texts, k + 1);
    if st.index < |text| {
      assert Concat(texts[..k + 1])[p] == text[st.index];
    } else if k + 1 == |texts| {
      assert texts[..k + 1] == texts;
    } else {
      var next := FormatState(k + 1, 0);
      OutputPrefix(texts, k + 2);
      FormatStepAt(texts, next, p);
    }
  }

  /** The state after k calls of format's fiber, with the statuses and bytes of those calls. */
  function FormatRun(texts: seq<seq<Byte>>, st: FormatState, k: nat): (r: (FormatState, seq<Status>, seq<Byte>))
    requires Ready(texts, st)
    ensures Ready(texts, r.0)
    decreases k
  {
    if k == 0 then (st, [], [])
    else
      var r := FormatStep(texts, st);
      var rest := FormatRun(texts, r.0, k - 1);
      (rest.0, [r.1] + rest.1, (if r.2.Some? then [r.2.value] else []) + rest.2)
  }

  /** From a position p, the next k calls, all short of the end, reach position p + k ... */
  lemma {:induction false} FormatRunAt(texts: seq<seq<Byte>>, st: FormatState, p: nat, k: nat)
    requires At(texts, st, p) && p + k <= |Concat(texts)|
    ensures At(texts, FormatRun(texts, st, k).0, p + k)
    decreases k
  {
    if k > 0 {
      FormatStepAt(texts, st, p);
      var r := FormatStep(texts, st);
      RunUnfold(texts, st, k);
      FormatRunAt(texts, r.0, p + 1, k - 1);
    }
  }

  /** ... report pending ... */
  lemma {:induction false} FormatRunPending(texts: seq<seq<Byte>>, st: FormatState, p: nat, k: nat)
    requires At(texts, st, p) && p + k <= |Concat(texts)|
    ensures FormatRun(texts, st, k).1 == Repeat(Pending, k)
    decreases k
  {
    if k > 0 {
      FormatStepAt(texts, st, p);
      var r := FormatStep(texts, st);
      RunUnfold(texts, st, k);
      FormatRunPending(texts, r.0, p + 1, k - 1);
      RepeatCons(Pending, k);
    }
  }

  /** ... and write Output[p..p + k]. */
  lemma {:induction false} FormatRunWrites(texts: seq<seq<Byte>>, st: FormatState, p: nat, k: nat)
    requires At(texts, st, p) && p + k <= |Concat(texts)|
    ensures FormatRun(texts, st, k).2 == Concat(texts)[p..p + k]
    decreases k
  {
    if k > 0 {
      FormatStepAt(texts, st, p);
      var r := FormatStep(texts, st);
      RunUnfold(texts, st, k);
      FormatRunWrites(texts, r.0, p + 1, k - 1);
      SliceCons(Concat(texts), p, k);
    }
  }

  lemma RunUnfold(texts: seq<seq<Byte>>, st: FormatState, k: nat)
    requires Ready(texts, st) && k > 0
    ensures var r := FormatStep(texts, st);
            var rest := FormatRun(texts, r.0, k - 1);
            FormatRun(texts, st, k) == (rest.0, [r.1] + rest.1, (if r.2.Some? then [r.2.value] else []) + rest.2)
  {
  }

  lemma RepeatCons(status: Status, k: nat)
    requires k > 0
    ensures [status] + Repeat(status, k - 1) == Repeat(status, k)
  {
  }

  lemma SliceCons(s: seq<Byte>, p: nat, k: nat)
    requires 0 < k && p + k <= |s|
    ensures [s[p]] + s[p + 1..p + k] == s[p..p + k]
  {
  }

  /**
   * A sequence of string fibers writes the strings one after the other, one
   * byte per call reporting pending, and completes on the call after the
   * last byte, writing nothing.
   */
  lemma SequenceEmits(texts: seq<seq<Byte>>)
    ensures var n := |Concat(texts)|;
            var r := FormatRun(texts, FormatStart(texts), n);
            r.1 == Repeat(Pending, n) && r.2 == Concat(texts)
            && FormatStep(texts, r.0).1 == Complete && FormatStep(texts, r.0).2 == None
  {
    var n := |Concat(texts)|;
    if texts != [] {
      var st := FormatStart(texts);
      assert At(texts, st, 0);
      FormatRunAt(texts, st, 0, n);
      FormatRunWrites(texts, st, 0, n);
      FormatRunPending(texts, st, 0, n);
      FormatStepAt(texts, FormatRun(texts, st, n).0, n);
    }
  }

  /**
   * format(fragments...) writes the texts of its fragments, left to right,
   * the strings as they are and the integers as their decimal digits.
   */
  lemma FormatEmits(fragments: seq<Fragment>)
    ensures var texts := Texts(fragments);
            var n := |Output(fragments)|;
            var r := FormatRun(texts, FormatStart(texts), n);
            r.1 == Repeat(Pending, n) && r.2 == Output(fragments)
            && FormatStep(texts, r.0).1 == Complete && FormatStep(texts, r.0).2 == None
  {
    SequenceEmits(Texts(fragments));
  }
}
