/**
 * The JSON writer of the on-target test drivers (spec/support/simple_json.hpp):
 * numbers, booleans, strings, objects and arrays, each with a size() that
 * predicts how many characters dump() writes, and a dump() that writes them
 * through a char cursor and leaves a NUL after them.
 *
 * A number holds an `rtl::i64`, which is unsigned, so its negative branches
 * are dead and a negative C++ value arrives wrapped modulo 2^64. Strings are
 * written without escaping.
 */
module SimpleJson {
  import opened Bytes
  import opened Decimal

  const Quote: Byte := 0x22
  const Colon: Byte := 0x3A
  const Comma: Byte := 0x2C
  const LeftBrace: Byte := 0x7B
  const RightBrace: Byte := 0x7D
  const LeftBracket: Byte := 0x5B
  const RightBracket: Byte := 0x5D

  datatype Member = Member(key: seq<Byte>, value: Json)

  datatype Json =
    | Number(value: nat)
    | Boolean(b: bool)
    | String(s: seq<Byte>)
    | Object(members: seq<Member>)
    | Array(elements: seq<Json>)

  /** number(T value): the value is cast to `rtl::i64`. */
  function NumberOf(x: int): (j: Json)
    ensures j.Number? && j.value < Two64
    ensures 0 <= x < Two64 ==> j.value == x
  {
    Number(ToI64(x))
  }

  /** Every string and key is a C string, and every number fits an i64. */
  predicate Valid(j: Json)
    decreases j
  {
    match j
    case Number(v) => v < Two64
    case Boolean(_) => true
    case String(s) => IsCString(s)
    case Object(ms) => ValidMembers(ms)
    case Array(es) => ValidElements(es)
  }

  predicate ValidMembers(ms: seq<Member>)
    decreases ms
  {
    ms != [] ==> ValidMembers(ms[..|ms| - 1]) && IsCString(ms[|ms| - 1].key) && Valid(ms[|ms| - 1].value)
  }

  predicate ValidElements(es: seq<Json>)
    decreases es
  {
    es != [] ==> ValidElements(es[..|es| - 1]) && Valid(es[|es| - 1])
  }

  // ------------------------------------------------------------------ size()

  function Max(x: nat, y: nat): nat
  {
    if x < y then y else x
  }

  /**
   * size(): the digit count for a number (the count number::size's loop
   * arrives at), 4 or 5 for a boolean, the length plus two quotes for a
   * string, and for a container max(2, 1 + (4 per member or 1 per element) +
   * the members' or elements' sizes).
   */
  function Size(j: Json): nat
    decreases j
  {
    match j
    case Number(v) => |Digits(v)|
    case Boolean(b) => if b then 4 else 5
    case String(s) => 2 + |s|
    case Object(ms) => Max(2, 1 + 4 * |ms| + MembersSize(ms))
    case Array(es) => Max(2, 1 + |es| + ElementsSize(es))
  }

  /** The sum of strlen(key) + value.size() over the members. */
  function MembersSize(ms: seq<Member>): nat
    decreases ms
  {
    if ms == [] then 0 else MembersSize(ms[..|ms| - 1]) + |ms[|ms| - 1].key| + Size(ms[|ms| - 1].value)
  }

  function ElementsSize(es: seq<Json>): nat
    decreases es
  {
    if es == [] then 0 else ElementsSize(es[..|es| - 1]) + Size(es[|es| - 1])
  }

  // ------------------------------------------------------------- JSON text

  /**
   * The JSON text of a value, in the grammar of sections 4 to 7 of RFC 8259
   * except that strings are copied verbatim: decimal digits, `true`/`false`,
   * a quoted string, an object as comma-separated `"key":value` pairs in
   * braces, an array as comma-separated values in brackets.
   */
  function Text(j: Json): seq<Byte>
    decreases j
  {
    match j
    case Number(v) => Digits(v)
    case Boolean(b) => if b then [0x74, 0x72, 0x75, 0x65] else [0x66, 0x61, 0x6C, 0x73, 0x65]
    case String(s) => [Quote] + s + [Quote]
    case Object(ms) => [LeftBrace] + Join(MemberTexts(ms)) + [RightBrace]
    case Array(es) => [LeftBracket] + Join(ElementTexts(es)) + [RightBracket]
  }

  function MemberText(m: Member): seq<Byte>
    decreases m
  {
    [Quote] + m.key + [Quote, Colon] + Text(m.value)
  }

  function MemberTexts(ms: seq<Member>): (r: seq<seq<Byte>>)
    decreases ms
  {
    if ms == [] then [] else MemberTexts(ms[..|ms| - 1]) + [MemberText(ms[|ms| - 1])]
  }

  function ElementTexts(es: seq<Json>): seq<seq<Byte>>
    decreases es
  {
    if es == [] then [] else ElementTexts(es[..|es| - 1]) + [Text(es[|es| - 1])]
  }

  /** The parts separated by commas. */
  function Join(parts: seq<seq<Byte>>): seq<Byte>
  {
    if |parts| == 0 then []
    else if |parts| == 1 then parts[0]
    else Join(parts[..|parts| - 1]) + [Comma] + parts[|parts| - 1]
  }

  // ------------------------------------------------- size() matches dump()

  /** size() is exactly the number of characters in the text dump() writes. */
  lemma {:induction false} SizeIsLength(j: Json)
    ensures Size(j) == |Text(j)|
    decreases j
  {
    match j
    case Number(_) =>
    case Boolean(_) =>
    case String(_) =>
    case Object(ms) =>
      MembersLength(ms);
    case Array(es) =>
      ElementsLength(es);
  }

  /** Each member contributes its key, two quotes, a colon and a comma (the last comma is the closing brace). */
  lemma {:induction false} MembersLength(ms: seq<Member>)
    ensures ms != [] ==> |Join(MemberTexts(ms))| + 1 == 4 * |ms| + MembersSize(ms)
    ensures |MemberTexts(ms)| == |ms|
    decreases ms
  {
    if ms != [] {
      var init := ms[..|ms| - 1];
      var last := ms[|ms| - 1];
      MembersLength(init);
      SizeIsLength(last.value);
      var parts := MemberTexts(ms);
      assert parts[..|parts| - 1] == MemberTexts(init);
    }
  }

  lemma {:induction false} ElementsLength(es: seq<Json>)
    ensures es != [] ==> |Join(ElementTexts(es))| + 1 == |es| + ElementsSize(es)
    ensures |ElementTexts(es)| == |es|
    decreases es
  {
    if es != [] {
      var init := es[..|es| - 1];
      ElementsLength(init);
      SizeIsLength(es[|es| - 1]);
      var parts := ElementTexts(es);
      assert parts[..|parts| - 1] == ElementTexts(init);
    }
  }

  /** A number's text reads back as its value, without a leading zero. */
  lemma NumberRoundTrip(v: nat)
    ensures Canonical(Text(Number(v))) && Value(Text(Number(v))) == v
  {
    DigitsRoundTrip(v);
  }

  /** The empty containers are written `{}` and `[]`. */
  lemma EmptyContainers()
    ensures Text(Object([])) == [LeftBrace, RightBrace] && Size(Object([])) == 2
    ensures Text(Array([])) == [LeftBracket, RightBracket] && Size(Array([])) == 2
  {
    assert MemberTexts([]) == [] && ElementTexts([]) == [];
  }

  // ----------------------------------------------------------------- dump()

  /** Every character the comma-terminated list of parts holds: each part followed by a comma. */
  function Listed(parts: seq<seq<Byte>>): seq<Byte>
  {
    if parts == [] then [] else Listed(parts[..|parts| - 1]) + parts[|parts| - 1] + [Comma]
  }

  /** Writing a comma after every part and then replacing the last one leaves the parts joined by commas. */
  lemma {:induction false} ListedJoin(parts: seq<seq<Byte>>)
    requires parts != []
    ensures Listed(parts) == Join(parts) + [Comma]
    decreases |parts|
  {
    if |parts| > 1 {
      ListedJoin(parts[..|parts| - 1]);
    } else {
      assert parts[..0] == [];
    }
  }

  /** number::size(): the do-while loop counts one digit per division by ten. */
  method NumberSize(v: nat) returns (size: nat)
    ensures size == |Digits(v)|
  {
    var number := v;
    SignificantShape(v);
    number := number / 10;
    size := 1;
    while number != 0
      invariant size + |Significant(number)| == |Digits(v)|
      decreases number
    {
      number := number / 10;
      size := size + 1;
    }
  }

  /**
   * number::dump(buffer): the digits are written right to left, ending at
   * buffer + size(); the NUL goes there and that is the pointer returned.
   */
  method DumpNumber(v: nat, buffer: array<Byte>, pos: nat) returns (end: nat)
    requires pos + |Digits(v)| < buffer.Length
    modifies buffer
    ensures end == pos + |Digits(v)| && buffer[pos..end] == Digits(v) && buffer[end] == 0
    ensures buffer[..pos] == old(buffer[..pos]) && buffer[end + 1..] == old(buffer[end + 1..])
  {
    var size := NumberSize(v);
    end := pos + size;
    WriteDigits(v, buffer, pos, end);
    buffer[end] := 0;
  }

  /** The do-while loop of number::dump: one digit per division, right to left from `end`. */
  method WriteDigits(v: nat, buffer: array<Byte>, pos: nat, end: nat)
    requires end == pos + |Digits(v)| && end <= buffer.Length
    modifies buffer
    ensures buffer[pos..end] == Digits(v)
    ensures buffer[..pos] == old(buffer[..pos]) && buffer[end..] == old(buffer[end..])
  {
    var copy := end;
    var number := v;
    FirstDigit(v);
    copy := copy - 1;
    buffer[copy] := DigitChar(number % 10);
    number := number / 10;
    while number != 0
      invariant pos <= copy < end
      invariant Digits(v) == Significant(number) + buffer[copy..end]
      invariant copy - pos == |Significant(number)|
      invariant buffer[..pos] == old(buffer[..pos]) && buffer[end..] == old(buffer[end..])
      decreases number
    {
      NextDigit(number);
      ghost var tail := buffer[copy..end];
      copy := copy - 1;
      buffer[copy] := DigitChar(number % 10);
      assert buffer[copy..end] == [DigitChar(number % 10)] + tail;
      number := number / 10;
    }
  }

  /** The do-while's first pass leaves the significant digits of v / 10 still to write. */
  lemma FirstDigit(v: nat)
    ensures Digits(v) == Significant(v / 10) + [DigitChar(v % 10)]
  {
    if v == 0 {
      assert Significant(0) == [];
    }
  }

  lemma NextDigit(n: nat)
    requires n != 0
    ensures Significant(n) == Significant(n / 10) + [DigitChar(n % 10)]
    ensures |Significant(n)| == |Significant(n / 10)| + 1
  {
  }

  /** boolean::dump(buffer) */
  method DumpBoolean(b: bool, buffer: array<Byte>, pos: nat) returns (end: nat)
    requires pos + Size(Boolean(b)) < buffer.Length
    modifies buffer
    ensures end == pos + Size(Boolean(b)) && buffer[pos..end] == Text(Boolean(b)) && buffer[end] == 0
    ensures buffer[..pos] == old(buffer[..pos]) && buffer[end + 1..] == old(buffer[end + 1..])
  {
    if b {
      buffer[pos], buffer[pos + 1], buffer[pos + 2], buffer[pos + 3] := 0x74, 0x72, 0x75, 0x65;
      end := pos + 4;
    } else {
      buffer[pos], buffer[pos + 1], buffer[pos + 2], buffer[pos + 3], buffer[pos + 4] := 0x66, 0x61, 0x6C, 0x73, 0x65;
      end := pos + 5;
    }
    buffer[end] := 0;
  }

  /** Copies the characters of a C string up to its NUL (copy_str, and string::dump's loop). */
  method CopyString(s: seq<Byte>, buffer: array<Byte>, pos: nat) returns (end: nat)
    requires IsCString(s) && pos + |s| <= buffer.Length
    modifies buffer
    ensures end == pos + |s| && buffer[pos..end] == s
    ensures buffer[..pos] == old(buffer[..pos]) && buffer[end..] == old(buffer[end..])
  {
    var memory := s + [0];
    var i := 0;
    while memory[i] != 0
      invariant 0 <= i <= |s| && buffer[pos..pos + i] == s[..i]
      invariant buffer[..pos] == old(buffer[..pos]) && buffer[pos + i..] == old(buffer[pos + i..])
      decreases |s| - i
    {
      assert i < |s|;
      buffer[pos + i] := memory[i];
      i := i + 1;
      assert buffer[pos..pos + i] == buffer[pos..pos + i - 1] + [s[i - 1]];
    }
    end := pos + i;
    assert i == |s|;
  }

  /** string::dump(buffer): the characters in quotes, without escaping. */
  method DumpString(s: seq<Byte>, buffer: array<Byte>, pos: nat) returns (end: nat)
    requires IsCString(s) && pos + Size(String(s)) < buffer.Length
    modifies buffer
    ensures end == pos + Size(String(s)) && buffer[pos..end] == Text(String(s)) && buffer[end] == 0
    ensures buffer[..pos] == old(buffer[..pos]) && buffer[end + 1..] == old(buffer[end + 1..])
  {
    buffer[pos] := Quote;
    end := CopyString(s, buffer, pos + 1);
    buffer[end] := Quote;
    end := end + 1;
    buffer[end] := 0;
    assert buffer[pos..end] == [Quote] + buffer[pos + 1..end - 1] + [Quote];
  }

  /** dump(buffer) for any value: the text, the NUL after it, and nothing outside touched. */
  method Dump(j: Json, buffer: array<Byte>, pos: nat) returns (end: nat)
    requires Valid(j) && pos + |Text(j)| < buffer.Length
    modifies buffer
    ensures end == pos + |Text(j)| && end == pos + Size(j) && buffer[pos..end] == Text(j) && buffer[end] == 0
    ensures buffer[..pos] == old(buffer[..pos]) && buffer[end + 1..] == old(buffer[end + 1..])
    decreases j, 0
  {
    SizeIsLength(j);
    match j
    case Number(v) =>
      end := DumpNumber(v, buffer, pos);
    case Boolean(b) =>
      end := DumpBoolean(b, buffer, pos);
    case String(s) =>
      end := DumpString(s, buffer, pos);
    case Object(ms) =>
      end := DumpObject(ms, buffer, pos);
    case Array(es) =>
      end := DumpArray(es, buffer, pos);
  }

  /** The body of object::dump's lambda for one member: `"key":value`. */
  method DumpMember(m: Member, buffer: array<Byte>, pos: nat) returns (end: nat)
    requires IsCString(m.key) && Valid(m.value) && pos + |MemberText(m)| < buffer.Length
    modifies buffer
    ensures end == pos + |MemberText(m)| && buffer[pos..end] == MemberText(m) && buffer[end] == 0
    ensures buffer[..pos] == old(buffer[..pos]) && buffer[end + 1..] == old(buffer[end + 1..])
    decreases m, 0
  {
    var cur := DumpKey(m.key, buffer, pos);
    ghost var head := buffer[pos..cur];
    end := Dump(m.value, buffer, cur);
    assert buffer[pos..end] == head + buffer[cur..end];
  }

  /** `"key":` */
  method DumpKey(key: seq<Byte>, buffer: array<Byte>, pos: nat) returns (end: nat)
    requires IsCString(key) && pos + |key| + 3 <= buffer.Length
    modifies buffer
    ensures end == pos + |key| + 3 && buffer[pos..end] == [Quote] + key + [Quote, Colon]
    ensures buffer[..pos] == old(buffer[..pos]) && buffer[end..] == old(buffer[end..])
  {
    buffer[pos] := Quote;
    var cur := CopyString(key, buffer, pos + 1);
    buffer[cur] := Quote;
    buffer[cur + 1] := Colon;
    end := cur + 2;
    assert buffer[pos..end] == [Quote] + buffer[pos + 1..cur] + [Quote, Colon];
  }

  /**
   * object::dump(buffer): `{`, then each member followed by a comma; with
   * members the last comma becomes `}`, without them `}` follows `{`.
   */
  method DumpObject(ms: seq<Member>, buffer: array<Byte>, pos: nat) returns (end: nat)
    requires ValidMembers(ms) && pos + |Join(MemberTexts(ms))| + 2 < buffer.Length
    modifies buffer
    ensures end == pos + |Join(MemberTexts(ms))| + 2
    ensures buffer[pos..end] == [LeftBrace] + Join(MemberTexts(ms)) + [RightBrace] && buffer[end] == 0
    ensures buffer[..pos] == old(buffer[..pos]) && buffer[end + 1..] == old(buffer[end + 1..])
    decreases ms, 1
  {
    ghost var parts := MemberTexts(ms);
    MemberTextsAt(ms);
    if |ms| > 0 {
      ListedJoin(parts);
    }
    buffer[pos] := LeftBrace;
    var cur := DumpMembersListed(ms, buffer, pos + 1);
    end := CloseList(buffer, pos, cur, LeftBrace, parts, |ms| > 0, RightBrace);
  }

  /** The loop of object::dump: every member's text followed by a comma. */
  method DumpMembersListed(ms: seq<Member>, buffer: array<Byte>, start: nat) returns (cur: nat)
    requires ValidMembers(ms) && start + |Listed(MemberTexts(ms))| < buffer.Length
    modifies buffer
    ensures cur == start + |Listed(MemberTexts(ms))|
    ensures buffer[start..cur] == Listed(MemberTexts(ms))
    ensures buffer[..start] == old(buffer[..start]) && buffer[cur..] == old(buffer[cur..])
    decreases ms, 0
  {
    ghost var parts := MemberTexts(ms);
    MemberTextsAt(ms);
    ghost var done: seq<Byte> := [];
    cur := start;
    var i := 0;
    while i < |ms|
      invariant 0 <= i <= |ms|
      invariant done == Listed(parts[..i])
      invariant cur == start + |done| && |done| <= |Listed(parts)|
      invariant buffer[start..cur] == done
      invariant buffer[..start] == old(buffer[..start]) && buffer[cur..] == old(buffer[cur..])
    {
      ListedPrefix(parts, i);
      ValidMemberAt(ms, i);
      cur := DumpMemberComma(ms[i], buffer, start, cur);
      done := done + parts[i] + [Comma];
      i := i + 1;
    }
    assert parts[..|ms|] == parts;
  }

  /**
   * The end of object::dump and array::dump: after `open` and the listed
   * parts, the last comma becomes `close`, or `close` follows `open` when
   * there are no parts; then the NUL.
   */
  method CloseList(buffer: array<Byte>, pos: nat, cur: nat, open: Byte, ghost parts: seq<seq<Byte>>, some: bool, close: Byte)
      returns (end: nat)
    requires pos + |Join(parts)| + 2 < buffer.Length && (some <==> parts != [])
    requires parts != [] ==> Listed(parts) == Join(parts) + [Comma]
    requires cur == pos + 1 + |Listed(parts)| && buffer[pos..cur] == [open] + Listed(parts)
    modifies buffer
    ensures end == pos + |Join(parts)| + 2
    ensures buffer[pos..end] == [open] + Join(parts) + [close] && buffer[end] == 0
    ensures buffer[..pos] == old(buffer[..pos]) && buffer[end + 1..] == old(buffer[end + 1..])
  {
    if some {
      buffer[cur - 1] := close;
      end := cur;
    } else {
      buffer[cur] := close;
      end := cur + 1;
    }
    buffer[end] := 0;
  }

  /** The texts of the members, one per member, in order. */
  lemma {:induction false} MemberTextsAt(ms: seq<Member>)
    ensures |MemberTexts(ms)| == |ms|
    ensures forall i | 0 <= i < |ms| :: MemberTexts(ms)[i] == MemberText(ms[i])
    decreases ms
  {
    if ms != [] {
      MemberTextsAt(ms[..|ms| - 1]);
    }
  }

  lemma {:induction false} ElementTextsAt(es: seq<Json>)
    ensures |ElementTexts(es)| == |es|
    ensures forall i | 0 <= i < |es| :: ElementTexts(es)[i] == Text(es[i])
    decreases es
  {
    if es != [] {
      ElementTextsAt(es[..|es| - 1]);
    }
  }

  lemma {:induction false} ValidMemberAt(ms: seq<Member>, i: nat)
    requires ValidMembers(ms) && i < |ms|
    ensures IsCString(ms[i].key) && Valid(ms[i].value)
    decreases |ms|
  {
    if i < |ms| - 1 {
      ValidMemberAt(ms[..|ms| - 1], i);
    }
  }

  lemma {:induction false} ValidElementAt(es: seq<Json>, i: nat)
    requires ValidElements(es) && i < |es|
    ensures Valid(es[i])
    decreases |es|
  {
    if i < |es| - 1 {
      ValidElementAt(es[..|es| - 1], i);
    }
  }

  /** Listing one more part appends it and a comma, and stays within the full list. */
  lemma {:induction false} ListedPrefix(parts: seq<seq<Byte>>, i: nat)
    requires i < |parts|
    ensures Listed(parts[..i + 1]) == Listed(parts[..i]) + parts[i] + [Comma]
    ensures |Listed(parts[..i + 1])| <= |Listed(parts)|
    decreases |parts| - i
  {
    assert parts[..i + 1][..i] == parts[..i];
    if i + 1 < |parts| {
      ListedPrefix(parts, i + 1);
    } else {
      assert parts[..i + 1] == parts;
    }
  }

  /**
   * array::dump(buffer): `[`, then each element followed by a comma; with
   * elements the last comma becomes `]`, without them `]` follows `[`.
   */
  method DumpArray(es: seq<Json>, buffer: array<Byte>, pos: nat) returns (end: nat)
    requires ValidElements(es) && pos + |Join(ElementTexts(es))| + 2 < buffer.Length
    modifies buffer
    ensures end == pos + |Join(ElementTexts(es))| + 2
    ensures buffer[pos..end] == [LeftBracket] + Join(ElementTexts(es)) + [RightBracket] && buffer[end] == 0
    ensures buffer[..pos] == old(buffer[..pos]) && buffer[end + 1..] == old(buffer[end + 1..])
    decreases es, 1
  {
    ghost var parts := ElementTexts(es);
    ElementTextsAt(es);
    if |es| > 0 {
      ListedJoin(parts);
    }
    buffer[pos] := LeftBracket;
    var cur := DumpElementsListed(es, buffer, pos + 1);
    end := CloseList(buffer, pos, cur, LeftBracket, parts, |es| > 0, RightBracket);
  }

  /** The loop of array::dump: every element's text followed by a comma. */
  method DumpElementsListed(es: seq<Json>, buffer: array<Byte>, start: nat) returns (cur: nat)
    requires ValidElements(es) && start + |Listed(ElementTexts(es))| < buffer.Length
    modifies buffer
    ensures cur == start + |Listed(ElementTexts(es))|
    ensures buffer[start..cur] == Listed(ElementTexts(es))
    ensures buffer[..start] == old(buffer[..start]) && buffer[cur..] == old(buffer[cur..])
    decreases es, 0
  {
    ghost var parts := ElementTexts(es);
    ElementTextsAt(es);
    ghost var done: seq<Byte> := [];
    cur := start;
    var i := 0;
    while i < |es|
      invariant 0 <= i <= |es|
      invariant done == Listed(parts[..i])
      invariant cur == start + |done| && |done| <= |Listed(parts)|
      invariant buffer[start..cur] == done
      invariant buffer[..start] == old(buffer[..start]) && buffer[cur..] == old(buffer[cur..])
    {
      ListedPrefix(parts, i);
      ValidElementAt(es, i);
      cur := DumpElementComma(es[i], buffer, start, cur);
      done := done + parts[i] + [Comma];
      i := i + 1;
    }
    assert parts[..|es|] == parts;
  }

  /** One step of the loop: the member's text, then a comma, after what is already written. */
  method DumpMemberComma(m: Member, buffer: array<Byte>, pos: nat, cur: nat) returns (next: nat)
    requires IsCString(m.key) && Valid(m.value) && pos <= cur && cur + |MemberText(m)| < buffer.Length
    modifies buffer
    ensures next == cur + |MemberText(m)| + 1
    ensures buffer[pos..next] == old(buffer[pos..cur]) + MemberText(m) + [Comma]
    ensures buffer[..pos] == old(buffer[..pos]) && buffer[next..] == old(buffer[next..])
    decreases m, 1
  {
    ghost var before := buffer[pos..cur];
    next := DumpMember(m, buffer, cur);
    buffer[next] := Comma;
    next := next + 1;
    assert buffer[pos..next] == before + buffer[cur..next - 1] + [Comma];
  }

  /** One step of the loop: the element's text, then a comma, after what is already written. */
  method DumpElementComma(m: Json, buffer: array<Byte>, pos: nat, cur: nat) returns (next: nat)
    requires Valid(m) && pos <= cur && cur + |Text(m)| < buffer.Length
    modifies buffer
    ensures next == cur + |Text(m)| + 1
    ensures buffer[pos..next] == old(buffer[pos..cur]) + Text(m) + [Comma]
    ensures buffer[..pos] == old(buffer[..pos]) && buffer[next..] == old(buffer[next..])
    decreases m, 1
  {
    ghost var before := buffer[pos..cur];
    next := Dump(m, buffer, cur);
    buffer[next] := Comma;
    next := next + 1;
    assert buffer[pos..next] == before + buffer[cur..next - 1] + [Comma];
  }

  // ------------------------------------------------------- no NUL inside

  /** A dump holds no NUL before its terminator, so it reads back as a C string of exactly Text(j). */
  lemma {:induction false} TextIsCString(j: Json)
    requires Valid(j)
    ensures IsCString(Text(j))
    decreases j, 1
  {
    match j
    case Number(v) =>
      DigitsRoundTrip(v);
      DigitsHaveNoNul(Digits(v));
    case Boolean(_) =>
    case String(_) =>
    case Object(ms) =>
      MemberTextsAreCStrings(ms);
      JoinIsCString(MemberTexts(ms));
    case Array(es) =>
      ElementTextsAreCStrings(es);
      JoinIsCString(ElementTexts(es));
  }

  lemma DigitsHaveNoNul(s: seq<Byte>)
    requires AllDigits(s)
    ensures IsCString(s)
  {
  }

  lemma {:induction false} MemberTextsAreCStrings(ms: seq<Member>)
    requires ValidMembers(ms)
    ensures forall i | 0 <= i < |MemberTexts(ms)| :: IsCString(MemberTexts(ms)[i])
    decreases ms, 0
  {
    if ms != [] {
      var m := ms[|ms| - 1];
      MemberTextsAreCStrings(ms[..|ms| - 1]);
      TextIsCString(m.value);
    }
  }

  lemma {:induction false} ElementTextsAreCStrings(es: seq<Json>)
    requires ValidElements(es)
    ensures forall i | 0 <= i < |ElementTexts(es)| :: IsCString(ElementTexts(es)[i])
    decreases es, 0
  {
    if es != [] {
      ElementTextsAreCStrings(es[..|es| - 1]);
      TextIsCString(es[|es| - 1]);
    }
  }

  lemma {:induction false} JoinIsCString(parts: seq<seq<Byte>>)
    requires forall i | 0 <= i < |parts| :: IsCString(parts[i])
    ensures IsCString(Join(parts))
    decreases |parts|
  {
    if |parts| > 1 {
      JoinIsCString(parts[..|parts| - 1]);
    }
  }
}
