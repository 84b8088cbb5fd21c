/** Writing strings, numbers and player commands as JSON, and what a reader makes of them. */
module JsonWriter {
  import opened Octets
  import opened JsonSyntax
  import P = JsonParser
  import C = JsonComplete

  predicate IsInt64(n: int) {
    -0x8000_0000_0000_0000 <= n < 0x8000_0000_0000_0000
  }

  type Int64 = n: int | IsInt64(n)

  // --- strings ---

  function HexDigit(v: nat): Byte
    requires v < 16
  {
    if v < 10 then 48 + v else 97 + (v - 10)
  }

  /** How one byte is written inside quotes. */
  function Escaped(b: Byte): Item {
    if b == QUOTE || b == BACKSLASH then Short(b)
    else if b == 8 then Short(SMALL_B)
    else if b == 12 then Short(SMALL_F)
    else if b == NEWLINE then Short(SMALL_N)
    else if b == RETURN then Short(SMALL_R)
    else if b == TAB then Short(SMALL_T)
    else if b < 32 then Hex([ZERO, ZERO, HexDigit(b / 16), HexDigit(b % 16)])
    else Plain(b)
  }

  function EscapedAll(value: Bytes): (items: seq<Item>)
    ensures |items| == |value|
  {
    if value == [] then [] else [Escaped(value[0])] + EscapedAll(value[1..])
  }

  predicate Printable(s: Bytes) {
    forall i :: 0 <= i < |s| ==> s[i] >= 32
  }

  lemma EscapedByte(b: Byte)
    ensures LegalItem(Escaped(b)) && ItemMeaning(Escaped(b)) == [b] && Printable(ItemText(Escaped(b)))
    ensures Escaped(b).Hex? ==> !IsHigh(CodeUnit(Escaped(b).digits))
  {
  }

  /** Reading back an escaped string gives the string, for every byte string. */
  lemma {:induction false} EscapeThenRead(value: Bytes)
    ensures LegalItems(EscapedAll(value)) && Decoded(EscapedAll(value)) == value
  {
    if value != [] {
      var rest := EscapedAll(value[1..]);
      EscapedByte(value[0]);
      EscapeThenRead(value[1..]);
      assert EscapedAll(value)[1..] == rest;
      assert !StartsPair(EscapedAll(value));
    }
  }

  /** Escaped text holds no newline, nor any other control character. */
  lemma {:induction false} EscapedIsPrintable(value: Bytes)
    ensures Printable(ItemsText(EscapedAll(value)))
  {
    if value != [] {
      EscapedByte(value[0]);
      EscapedIsPrintable(value[1..]);
      assert EscapedAll(value)[1..] == EscapedAll(value[1..]);
    }
  }

  lemma {:induction false} ItemsSnoc(items: seq<Item>, item: Item)
    ensures ItemsText(items + [item]) == ItemsText(items) + ItemText(item)
  {
    if items == [] {
      assert items + [item] == [item];
    } else {
      assert (items + [item])[1..] == items[1..] + [item];
      ItemsSnoc(items[1..], item);
    }
  }

  lemma {:induction false} EscapedSnoc(value: Bytes, b: Byte)
    ensures EscapedAll(value + [b]) == EscapedAll(value) + [Escaped(b)]
  {
    if value == [] {
      assert value + [b] == [b];
    } else {
      assert (value + [b])[1..] == value[1..] + [b];
      EscapedSnoc(value[1..], b);
    }
  }

  /** The bytes appended for one byte of the value. */
  method EscapeByte(b: Byte) returns (text: Bytes)
    ensures text == ItemText(Escaped(b))
  {
    if b == QUOTE {
      text := [BACKSLASH, QUOTE];
    } else if b == BACKSLASH {
      text := [BACKSLASH, BACKSLASH];
    } else if b == 8 {
      text := [BACKSLASH, SMALL_B];
    } else if b == 12 {
      text := [BACKSLASH, SMALL_F];
    } else if b == NEWLINE {
      text := [BACKSLASH, SMALL_N];
    } else if b == RETURN {
      text := [BACKSLASH, SMALL_R];
    } else if b == TAB {
      text := [BACKSLASH, SMALL_T];
    } else if b < 32 {
      text := [BACKSLASH, SMALL_U, ZERO, ZERO, HexDigit(b / 16), HexDigit(b % 16)];
    } else {
      text := [b];
    }
  }

  lemma EscapedMore(value: Bytes, i: nat)
    requires i < |value|
    ensures ItemsText(EscapedAll(value[..i + 1])) == ItemsText(EscapedAll(value[..i])) + ItemText(Escaped(value[i]))
  {
    assert value[..i + 1] == value[..i] + [value[i]];
    EscapedSnoc(value[..i], value[i]);
    ItemsSnoc(EscapedAll(value[..i]), Escaped(value[i]));
  }

  /** JsonEscapeTo: the buffer comes in and goes out. */
  method EscapeTo(buffer: Bytes, value: Bytes) returns (out: Bytes)
    ensures out == buffer + StringText(EscapedAll(value))
  {
    out := buffer + [QUOTE];
    var i := 0;
    while i < |value|
      invariant 0 <= i <= |value|
      invariant out == buffer + [QUOTE] + ItemsText(EscapedAll(value[..i]))
    {
      var text := EscapeByte(value[i]);
      EscapedMore(value, i);
      P.Glue2(buffer + [QUOTE], ItemsText(EscapedAll(value[..i])), text);
      out := out + text;
      i := i + 1;
    }
    assert value[..i] == value;
    out := out + [QUOTE];
  }

  // --- numbers ---

  /** Decimal digits of a number, as std::to_string writes them. */
  function DecimalDigits(n: nat): (d: Bytes)
    ensures d != []
  {
    if n < 10 then [48 + n] else DecimalDigits(n / 10) + [48 + n % 10]
  }

  function Decimal(n: int): Bytes {
    if n < 0 then [MINUS] + DecimalDigits(-n) else DecimalDigits(n)
  }

  function DigitsValue(d: Bytes): int {
    if d == [] then 0 else DigitsValue(d[..|d| - 1]) * 10 + (d[|d| - 1] as int - 48)
  }

  /** The number that a decimal text stands for. */
  function DecimalValue(text: Bytes): int {
    if text != [] && text[0] == MINUS then -DigitsValue(text[1..]) else DigitsValue(text)
  }

  lemma {:induction false} DigitsReadBack(n: nat)
    ensures var d := DecimalDigits(n);
            AllDigits(d) && DigitsValue(d) == n && (d[0] == ZERO ==> n == 0) && (n == 0 ==> |d| == 1)
  {
    if n < 10 {
      assert DecimalDigits(n)[..0] == [];
    } else {
      DigitsReadBack(n / 10);
      assert DecimalDigits(n)[..|DecimalDigits(n)| - 1] == DecimalDigits(n / 10);
    }
  }

  lemma DecimalReadsBack(n: int)
    ensures DecimalValue(Decimal(n)) == n
  {
    DigitsReadBack(if n < 0 then -n else n);
    if n < 0 {
      assert Decimal(n)[1..] == DecimalDigits(-n);
    }
  }

  function NumberSyntax(n: int): (v: Syntax)
    ensures v.Number?
  {
    Number(n < 0, DecimalDigits(if n < 0 then -n else n), NoFraction, NoExponent)
  }

  lemma NumberSyntaxText(n: int)
    ensures NumberText(NumberSyntax(n)) == Decimal(n)
  {
    var d := DecimalDigits(if n < 0 then -n else n);
    assert (if n < 0 then [MINUS] else []) + d + [] + [] == (if n < 0 then [MINUS] else []) + d;
  }

  lemma NumberSyntaxLegal(n: int)
    ensures LegalDigits(NumberSyntax(n)) && Printable(Decimal(n))
  {
    DigitsReadBack(if n < 0 then -n else n);
    assert forall b: Byte :: IsDigit(b) ==> b >= 32;
  }

  // --- commands ---

  datatype Arg = Quoted(bytes: Bytes) | Id(number: Int64)

  datatype Command = Command(args: seq<Arg>, requestId: Int64)

  function ArgSyntax(w: Arg): Syntax {
    match w
    case Quoted(bytes) => String(EscapedAll(bytes))
    case Id(n) => NumberSyntax(n)
  }

  function Bare(v: Syntax): Entry {
    Entry(NoName, [], v, [])
  }

  function ArgEntries(args: seq<Arg>): (es: seq<Entry>)
    ensures |es| == |args|
  {
    if args == [] then [] else [Bare(ArgSyntax(args[0]))] + ArgEntries(args[1..])
  }

  function Named(name: Bytes, v: Syntax): Entry {
    Entry(Name([], EscapedAll(name), []), [], v, [])
  }

  const COMMAND_KEY: Bytes := [99, 111, 109, 109, 97, SMALL_N, 100]
  const REQUEST_KEY: Bytes := [SMALL_R, SMALL_E, 113, SMALL_U, SMALL_E, 115, SMALL_T, 95, 105, 100]
  const OBSERVE_WORD: Bytes := [111, SMALL_B, 115, SMALL_E, SMALL_R, 118, SMALL_E, 95, 112, SMALL_R, 111, 112,
                                SMALL_E, SMALL_R, SMALL_T, 121]

  function ArgList(args: seq<Arg>): Syntax {
    Group(false, [], ArgEntries(args))
  }

  function CommandSyntax(c: Command): Syntax {
    Group(true, [], [Named(COMMAND_KEY, ArgList(c.args)), Named(REQUEST_KEY, NumberSyntax(c.requestId))])
  }

  /** What is read out of a document that came from a command. */
  datatype Read = ReadCommand(command: Command) | NotACommand

  function ArgOf(v: Value): Arg {
    match v
    case VString(bytes) => Quoted(bytes)
    case VNumber(text) => if IsInt64(DecimalValue(text)) then Id(DecimalValue(text)) else Quoted([])
    case _ => Quoted([])
  }

  function ArgsOf(ms: seq<Member>): seq<Arg> {
    if ms == [] then [] else [ArgOf(ms[0].value)] + ArgsOf(ms[1..])
  }

  function CommandOf(v: Value): Read {
    if v.VGroup? && |v.members| == 2
       && v.members[0].key == COMMAND_KEY && v.members[0].value.VGroup?
       && v.members[1].key == REQUEST_KEY && v.members[1].value.VNumber?
       && IsInt64(DecimalValue(v.members[1].value.text))
    then ReadCommand(Command(ArgsOf(v.members[0].value.members), DecimalValue(v.members[1].value.text)))
    else NotACommand
  }

  lemma ArgReadsBack(w: Arg)
    ensures ArgOf(Meaning(ArgSyntax(w))) == w
  {
    match w
    case Quoted(bytes) => EscapeThenRead(bytes);
    case Id(n) =>
      NumberSyntaxText(n);
      DecimalReadsBack(n);
  }

  lemma {:induction false} ArgsReadBack(args: seq<Arg>)
    ensures ArgsOf(Members(ArgEntries(args))) == args
  {
    if args != [] {
      ArgReadsBack(args[0]);
      ArgsReadBack(args[1..]);
      assert ArgEntries(args)[1..] == ArgEntries(args[1..]);
    }
  }

  lemma NamedMember(name: Bytes, v: Syntax)
    ensures MemberOf(Named(name, v)) == Member(name, Meaning(v))
  {
    EscapeThenRead(name);
  }

  lemma TwoMembers(a: Entry, b: Entry)
    ensures Members([a, b]) == [MemberOf(a), MemberOf(b)]
  {
    assert [a, b][1..] == [b];
  }

  /** The words and the ids come back out of a command's document. */
  lemma CommandReadsBack(c: Command)
    ensures CommandOf(Meaning(CommandSyntax(c))) == ReadCommand(c)
  {
    var args, id := ArgList(c.args), NumberSyntax(c.requestId);
    TwoMembers(Named(COMMAND_KEY, args), Named(REQUEST_KEY, id));
    NamedMember(COMMAND_KEY, args);
    NamedMember(REQUEST_KEY, id);
    ArgsReadBack(c.args);
    NumberSyntaxText(c.requestId);
    DecimalReadsBack(c.requestId);
  }

  // --- a command's document is legal ---

  /** Commands nest two deep, and the conversion accepts every 64-bit integer. */
  ghost predicate SuitsCommands(limits: Limits) {
    limits.depth >= 2 && forall n: Int64 :: limits.fits(Decimal(n))
  }

  lemma NumberIsLegal(n: Int64, depth: nat, limits: Limits)
    requires depth <= limits.depth && SuitsCommands(limits)
    ensures Legal(NumberSyntax(n), depth, limits)
  {
    NumberSyntaxText(n);
    NumberSyntaxLegal(n);
    assert limits.fits(Decimal(n));
  }

  lemma ArgIsLegal(w: Arg, limits: Limits)
    requires SuitsCommands(limits)
    ensures LegalEntry(Bare(ArgSyntax(w)), false, 1, limits)
  {
    match w
    case Quoted(bytes) => EscapeThenRead(bytes);
    case Id(n) => NumberIsLegal(n, 2, limits);
  }

  lemma {:induction false} ArgsAreLegal(args: seq<Arg>, limits: Limits)
    requires SuitsCommands(limits)
    ensures LegalEntries(ArgEntries(args), false, 1, limits)
    ensures forall i :: 0 <= i < |args| ==> FirstSpace(ArgEntries(args)[i]) == []
  {
    if args != [] {
      ArgIsLegal(args[0], limits);
      ArgsAreLegal(args[1..], limits);
    }
  }

  lemma CommandIsLegal(c: Command, limits: Limits)
    requires SuitsCommands(limits)
    ensures LegalDocument(Document([], CommandSyntax(c), []), limits)
  {
    ArgsAreLegal(c.args, limits);
    EscapeThenRead(COMMAND_KEY);
    EscapeThenRead(REQUEST_KEY);
    NumberIsLegal(c.requestId, 1, limits);
    P.LegalGroup(false, [], ArgEntries(c.args), 1, limits);
    P.LegalGroup(true, [], CommandSyntax(c).entries, 0, limits);
  }

  /** The line of a command, without its newline. */
  function CommandLine(c: Command): Bytes {
    Text(CommandSyntax(c))
  }

  /** Reading a command's line gives the command back, for any words and any ids. */
  lemma CommandRoundTrip(c: Command, limits: Limits)
    requires SuitsCommands(limits)
    ensures var p := P.ParseDocument(CommandLine(c), limits);
            p.Parsed? && CommandOf(Meaning(p.value.value)) == ReadCommand(c)
  {
    CommandIsLegal(c, limits);
    var d := Document([], CommandSyntax(c), []);
    C.DocumentComplete(d, limits);
    assert DocumentText(d) == CommandLine(c);
    CommandReadsBack(c);
  }

  // --- the text of a command ---

  function Before(key: Bytes): Bytes {
    [OPEN_BRACE, QUOTE] + key + [QUOTE, COLON, OPEN_BRACKET]
  }

  function After(key: Bytes, id: Bytes): Bytes {
    [CLOSE_BRACKET, COMMA, QUOTE] + key + [QUOTE, COLON] + id + [CLOSE_BRACE]
  }

  predicate PlainText(key: Bytes) {
    forall i :: 0 <= i < |key| ==> Escaped(key[i]) == Plain(key[i])
  }

  lemma {:induction false} PlainKey(key: Bytes)
    requires PlainText(key)
    ensures ItemsText(EscapedAll(key)) == key
  {
    if key != [] {
      PlainKey(key[1..]);
      assert EscapedAll(key)[1..] == EscapedAll(key[1..]);
    }
  }

  lemma NothingBetween(name: Bytes, value: Bytes)
    ensures [] + name + [] + [COLON] + [] + value + [] == name + [COLON] + value
  {
  }

  lemma NamedText(key: Bytes, v: Syntax)
    requires PlainText(key)
    ensures EntryText(Named(key, v)) == [QUOTE] + key + [QUOTE, COLON] + Text(v)
  {
    PlainKey(key);
    NothingBetween([QUOTE] + key + [QUOTE], Text(v));
    assert [QUOTE] + key + [QUOTE] + [COLON] == [QUOTE] + key + [QUOTE, COLON];
  }

  lemma TwoEntries(a: Entry, b: Entry)
    ensures EntriesText([a, b]) == EntryText(a) + [COMMA] + EntryText(b)
  {
    assert [a, b][1..] == [b];
  }

  lemma Flatten(key: Bytes, list: Bytes, key2: Bytes, id: Bytes)
    ensures [OPEN_BRACE] + [] + ([QUOTE] + key + [QUOTE, COLON] + ([OPEN_BRACKET] + [] + list + [CLOSE_BRACKET]) +
                                 [COMMA] + ([QUOTE] + key2 + [QUOTE, COLON] + id)) + [CLOSE_BRACE] ==
            Before(key) + list + After(key2, id)
  {
    var first, last := [QUOTE] + key + [QUOTE, COLON], [QUOTE] + key2 + [QUOTE, COLON] + id;
    assert [OPEN_BRACE] + first + [OPEN_BRACKET] == Before(key);
    assert [CLOSE_BRACKET] + [COMMA] + last + [CLOSE_BRACE] == After(key2, id);
    FlattenAround(first, list, last);
  }

  lemma FlattenAround(first: Bytes, list: Bytes, last: Bytes)
    ensures [OPEN_BRACE] + [] + (first + ([OPEN_BRACKET] + [] + list + [CLOSE_BRACKET]) + [COMMA] + last) +
            [CLOSE_BRACE] ==
            ([OPEN_BRACE] + first + [OPEN_BRACKET]) + list + ([CLOSE_BRACKET] + [COMMA] + last + [CLOSE_BRACE])
  {
  }

  lemma ListText(args: seq<Arg>)
    ensures Text(ArgList(args)) == [OPEN_BRACKET] + [] + EntriesText(ArgEntries(args)) + [CLOSE_BRACKET]
  {
  }

  lemma PairText(key: Bytes, v: Syntax, key2: Bytes, w: Syntax)
    requires PlainText(key) && PlainText(key2)
    ensures Text(Group(true, [], [Named(key, v), Named(key2, w)])) ==
            [OPEN_BRACE] + [] + ([QUOTE] + key + [QUOTE, COLON] + Text(v) + [COMMA] +
                                 ([QUOTE] + key2 + [QUOTE, COLON] + Text(w))) + [CLOSE_BRACE]
  {
    NamedText(key, v);
    NamedText(key2, w);
    TwoEntries(Named(key, v), Named(key2, w));
  }

  /** The fixed text around the words and the id. */
  lemma CommandText(c: Command)
    ensures CommandLine(c) == Before(COMMAND_KEY) + EntriesText(ArgEntries(c.args)) +
            After(REQUEST_KEY, Decimal(c.requestId))
  {
    KeysArePlain();
    KeyedText(COMMAND_KEY, REQUEST_KEY, c);
  }

  lemma KeysArePlain()
    ensures PlainText(COMMAND_KEY) && PlainText(REQUEST_KEY) && PlainText(OBSERVE_WORD)
  {
  }

  lemma KeyedText(key: Bytes, key2: Bytes, c: Command)
    requires PlainText(key) && PlainText(key2)
    ensures Text(Group(true, [], [Named(key, ArgList(c.args)), Named(key2, NumberSyntax(c.requestId))])) ==
            Before(key) + EntriesText(ArgEntries(c.args)) + After(key2, Decimal(c.requestId))
  {
    PairText(key, ArgList(c.args), key2, NumberSyntax(c.requestId));
    ListText(c.args);
    NumberSyntaxText(c.requestId);
    Flatten(key, EntriesText(ArgEntries(c.args)), key2, Decimal(c.requestId));
  }

  lemma ArgIsPrintable(w: Arg)
    ensures Printable(Text(ArgSyntax(w)))
  {
    match w
    case Quoted(bytes) => EscapedIsPrintable(bytes);
    case Id(n) =>
      NumberSyntaxText(n);
      NumberSyntaxLegal(n);
  }

  lemma BareText(v: Syntax)
    ensures EntryText(Bare(v)) == Text(v)
  {
    assert [] + [] + Text(v) + [] == Text(v);
  }

  lemma {:induction false} ArgsArePrintable(args: seq<Arg>)
    ensures Printable(EntriesText(ArgEntries(args)))
  {
    if args != [] {
      ArgIsPrintable(args[0]);
      BareText(ArgSyntax(args[0]));
      ArgsArePrintable(args[1..]);
      assert ArgEntries(args)[1..] == ArgEntries(args[1..]);
    }
  }

  lemma PrintableParts(key: Bytes, list: Bytes, key2: Bytes, id: Bytes)
    requires Printable(key) && Printable(list) && Printable(key2) && Printable(id)
    ensures Printable(Before(key) + list + After(key2, id))
  {
    assert Printable(Before(key));
    assert Printable(After(key2, id));
  }

  /** A command's line holds no newline, whatever its words hold. */
  lemma CommandIsPrintable(c: Command)
    ensures Printable(CommandLine(c))
  {
    ArgsArePrintable(c.args);
    NumberSyntaxLegal(c.requestId);
    CommandText(c);
    PrintableParts(COMMAND_KEY, EntriesText(ArgEntries(c.args)), REQUEST_KEY, Decimal(c.requestId));
  }

  // --- the builders ---

  lemma {:induction false} EntriesSnoc(es: seq<Entry>, e: Entry)
    requires es != []
    ensures EntriesText(es + [e]) == EntriesText(es) + [COMMA] + EntryText(e)
    decreases |es|
  {
    if |es| == 1 {
      assert (es + [e])[1..] == [e];
    } else {
      assert (es + [e])[1..] == es[1..] + [e];
      EntriesSnoc(es[1..], e);
      P.Glue3(EntryText(es[0]), [COMMA], EntriesText(es[1..]), [COMMA] + EntryText(e));
    }
  }

  lemma {:induction false} ArgEntriesSnoc(args: seq<Arg>, w: Arg)
    ensures ArgEntries(args + [w]) == ArgEntries(args) + [Bare(ArgSyntax(w))]
  {
    if args == [] {
      assert args + [w] == [w];
    } else {
      assert (args + [w])[1..] == args[1..] + [w];
      ArgEntriesSnoc(args[1..], w);
    }
  }

  function QuotedAll(args: seq<Bytes>): (r: seq<Arg>)
    ensures |r| == |args|
  {
    seq(|args|, i requires 0 <= i < |args| => Quoted(args[i]))
  }

  lemma MoreArgs(args: seq<Bytes>, i: nat)
    requires i < |args|
    ensures var before, now := ArgEntries(QuotedAll(args[..i])), ArgEntries(QuotedAll(args[..i + 1]));
            EntriesText(now) == (if i == 0 then [] else EntriesText(before) + [COMMA]) + StringText(EscapedAll(args[i]))
  {
    var before, w := QuotedAll(args[..i]), Quoted(args[i]);
    assert QuotedAll(args[..i + 1]) == before + [w];
    ArgEntriesSnoc(before, w);
    BareText(ArgSyntax(w));
    if i > 0 {
      EntriesSnoc(ArgEntries(before), Bare(ArgSyntax(w)));
    } else {
      assert ArgEntries(before) + [Bare(ArgSyntax(w))] == [Bare(ArgSyntax(w))];
    }
  }

  method BuildMpvCommand(args: seq<Bytes>, requestId: Int64) returns (out: Bytes)
    ensures out == CommandLine(Command(QuotedAll(args), requestId)) + [NEWLINE]
  {
    out := Before(COMMAND_KEY);
    for i := 0 to |args|
      invariant out == Before(COMMAND_KEY) + EntriesText(ArgEntries(QuotedAll(args[..i])))
    {
      MoreArgs(args, i);
      if i != 0 {
        out := out + [COMMA];
      }
      out := EscapeTo(out, args[i]);
    }
    assert args[..|args|] == args;
    CommandText(Command(QuotedAll(args), requestId));
    out := out + After(REQUEST_KEY, Decimal(requestId));
    out := out + [NEWLINE];
  }

  method BuildMpvObserveCommand(observeId: Int64, property: Bytes, requestId: Int64) returns (out: Bytes)
    ensures out == CommandLine(Command([Quoted(OBSERVE_WORD), Id(observeId), Quoted(property)], requestId)) + [NEWLINE]
  {
    out := Before(COMMAND_KEY) + ([QUOTE] + OBSERVE_WORD + [QUOTE, COMMA]);
    out := out + Decimal(observeId);
    out := out + [COMMA];
    out := EscapeTo(out, property);
    KeysArePlain();
    ObserveText(OBSERVE_WORD, observeId, property);
    ObserveJoins(Before(COMMAND_KEY), [QUOTE] + OBSERVE_WORD + [QUOTE, COMMA], Decimal(observeId),
                 StringText(EscapedAll(property)));
    CommandText(Command([Quoted(OBSERVE_WORD), Id(observeId), Quoted(property)], requestId));
    out := out + After(REQUEST_KEY, Decimal(requestId));
    out := out + [NEWLINE];
  }

  lemma ObserveJoins(before: Bytes, word: Bytes, id: Bytes, text: Bytes)
    ensures before + word + id + [COMMA] + text == before + (word + id + [COMMA] + text)
  {
  }

  lemma ObserveText(word: Bytes, observeId: Int64, property: Bytes)
    requires PlainText(word)
    ensures EntriesText(ArgEntries([Quoted(word), Id(observeId), Quoted(property)])) ==
            [QUOTE] + word + [QUOTE, COMMA] + Decimal(observeId) + [COMMA] + StringText(EscapedAll(property))
  {
    var a, b, c := Quoted(word), Id(observeId), Quoted(property);
    ThreeArgs(a, b, c);
    NumberSyntaxText(observeId);
    PlainKey(word);
    assert [QUOTE] + word + [QUOTE] + [COMMA] == [QUOTE] + word + [QUOTE, COMMA];
  }

  lemma ThreeArgs(a: Arg, b: Arg, c: Arg)
    ensures EntriesText(ArgEntries([a, b, c])) ==
            Text(ArgSyntax(a)) + [COMMA] + Text(ArgSyntax(b)) + [COMMA] + Text(ArgSyntax(c))
  {
    var x, y, z := Bare(ArgSyntax(a)), Bare(ArgSyntax(b)), Bare(ArgSyntax(c));
    assert [a, b, c][1..] == [b, c] && [b, c][1..] == [c];
    assert ArgEntries([c]) == [z];
    assert ArgEntries([b, c]) == [y, z];
    assert ArgEntries([a, b, c]) == [x, y, z];
    EntriesSnoc([x], y);
    EntriesSnoc([x, y], z);
    assert [x] + [y] == [x, y] && [x, y] + [z] == [x, y, z];
    BareText(ArgSyntax(a));
    BareText(ArgSyntax(b));
    BareText(ArgSyntax(c));
  }

  // --- spelled out ---

  /** The names in a command's document. */
  lemma KeysAre()
    ensures COMMAND_KEY == Ascii("command") && REQUEST_KEY == Ascii("request_id")
    ensures OBSERVE_WORD == Ascii("observe_property")
  {
  }

  lemma DecimalIsBaseTen()
    ensures Decimal(9018) == Ascii("9018") && Decimal(-7) == Ascii("-7")
  {
    assert DecimalDigits(90) == [57, 48];
    assert DecimalDigits(9018) == [57, 48, 49, 56] == Ascii("9018");
    assert Decimal(-7) == [45, 55] == Ascii("-7");
  }
}
