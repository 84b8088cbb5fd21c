/** The reader as a function from bytes to the syntax it recognises, decision for decision. */
module JsonParser {
  import opened Octets
  import opened JsonSyntax

  datatype Parse<T> = Parsed(value: T, rest: Bytes) | Failed

  function Spaces(s: Bytes): (n: nat)
    ensures n <= |s| && AllSpace(s[..n]) && (n < |s| ==> !IsSpace(s[n]))
  {
    if s == [] || !IsSpace(s[0]) then 0
    else
      var n := 1 + Spaces(s[1..]);
      assert s[..n] == [s[0]] + s[1..][..n - 1];
      n
  }

  function Digits(s: Bytes): (n: nat)
    ensures n <= |s| && AllDigits(s[..n]) && (n < |s| ==> !IsDigit(s[n]))
  {
    if s == [] || !IsDigit(s[0]) then 0
    else
      var n := 1 + Digits(s[1..]);
      assert s[..n] == [s[0]] + s[1..][..n - 1];
      n
  }

  /** One character of a string. The text does not start with a quote. */
  function ParseItem(s: Bytes): (p: Parse<Item>)
    requires s != []
    ensures p.Parsed? ==> |p.rest| < |s|
  {
    if s[0] != BACKSLASH then
      if s[0] < 32 then Failed else Parsed(Plain(s[0]), s[1..])
    else if |s| < 2 then Failed
    else if s[1] != SMALL_U then
      if IsShortEscape(s[1]) then Parsed(Short(s[1]), s[2..]) else Failed
    else if |s| >= 6 && IsHex(s[2]) && IsHex(s[3]) && IsHex(s[4]) && IsHex(s[5]) then Parsed(Hex(s[2..6]), s[6..])
    else Failed
  }

  /** The characters of a string and its closing quote. */
  function ParseItems(s: Bytes): (p: Parse<seq<Item>>)
    ensures p.Parsed? ==> |p.rest| < |s|
    decreases |s|
  {
    if s == [] then Failed
    else if s[0] == QUOTE then Parsed([], s[1..])
    else
      match ParseItem(s)
      case Failed => Failed
      case Parsed(item, rest) =>
        match ParseItems(rest)
        case Failed => Failed
        case Parsed(items, after) => Parsed([item] + items, after)
  }

  function ParseFraction(s: Bytes): (p: Parse<Fraction>)
    ensures p.Parsed? && |p.rest| <= |s|
  {
    if s == [] || s[0] != DOT then Parsed(NoFraction, s)
    else
      var n := Digits(s[1..]);
      Parsed(Fraction(s[1..][..n]), s[1..][n..])
  }

  function ParseSign(s: Bytes): (p: Parse<Bytes>)
    ensures p.Parsed? && |p.rest| <= |s|
  {
    if s != [] && (s[0] == PLUS || s[0] == MINUS) then Parsed([s[0]], s[1..]) else Parsed([], s)
  }

  function ParseExponent(s: Bytes): (p: Parse<Exponent>)
    ensures p.Parsed? && |p.rest| <= |s|
  {
    if s == [] || (s[0] != SMALL_E && s[0] != BIG_E) then Parsed(NoExponent, s)
    else
      var sign := ParseSign(s[1..]);
      var n := Digits(sign.rest);
      Parsed(Exponent(s[0], sign.value, sign.rest[..n]), sign.rest[n..])
  }

  /** What may follow the first digits of a number. */
  function ParseTail(s: Bytes): (p: Parse<(Fraction, Exponent)>)
    ensures p.Parsed? && |p.rest| <= |s|
  {
    var fraction := ParseFraction(s);
    var exponent := ParseExponent(fraction.rest);
    Parsed((fraction.value, exponent.value), exponent.rest)
  }

  /** Scans a number after its sign. */
  function ScanMagnitude(negative: bool, s: Bytes): (p: Parse<Syntax>)
    ensures p.Parsed? ==> |p.rest| < |s| && p.value.Number?
  {
    var n := Digits(s);
    if n == 0 || (s[0] == ZERO && n > 1) then Failed
    else
      var tail := ParseTail(s[n..]);
      Parsed(Number(negative, s[..n], tail.value.0, tail.value.1), tail.rest)
  }

  function ScanNumber(s: Bytes): (p: Parse<Syntax>)
    ensures p.Parsed? ==> |p.rest| < |s| && p.value.Number?
  {
    if s != [] && s[0] == MINUS then ScanMagnitude(true, s[1..]) else ScanMagnitude(false, s)
  }

  /** The conversion wants digits in the exponent, or it stops before it, and a value it can represent. */
  predicate Converts(v: Syntax, limits: Limits)
    requires v.Number?
  {
    (v.exponent.Exponent? ==> v.exponent.digits != []) && limits.fits(NumberText(v))
  }

  function ParseNumber(s: Bytes, limits: Limits): (p: Parse<Syntax>)
    ensures p.Parsed? ==> |p.rest| < |s|
  {
    var p := ScanNumber(s);
    if p.Parsed? && Converts(p.value, limits) then p else Failed
  }

  function ParseWord(s: Bytes, l: Literal): (p: Parse<Syntax>)
    ensures p.Parsed? ==> |p.rest| < |s|
  {
    if |s| >= |WordText(l)| && s[..|WordText(l)|] == WordText(l) then Parsed(Word(l), s[|WordText(l)|..]) else Failed
  }

  function ParseQuotes(s: Bytes): (p: Parse<Syntax>)
    requires s != []
    ensures p.Parsed? ==> |p.rest| < |s|
  {
    match ParseItems(s[1..])
    case Failed => Failed
    case Parsed(items, rest) => Parsed(String(items), rest)
  }

  predicate StartsNumber(b: Byte) {
    b == MINUS || IsDigit(b)
  }

  /** A value that starts with neither bracket nor brace. */
  function ParseLeaf(s: Bytes, limits: Limits): (p: Parse<Syntax>)
    requires s != []
    ensures p.Parsed? ==> |p.rest| < |s|
  {
    if StartsNumber(s[0]) then ParseNumber(s, limits)
    else if s[0] == QUOTE then ParseQuotes(s)
    else if s[0] == SMALL_T then ParseWord(s, True)
    else if s[0] == SMALL_F then ParseWord(s, False)
    else if s[0] == SMALL_N then ParseWord(s, Null)
    else Failed
  }

  predicate Opens(b: Byte) {
    b == OPEN_BRACE || b == OPEN_BRACKET
  }

  /** A value with no space before it. */
  function ParseValue(s: Bytes, depth: nat, limits: Limits): (p: Parse<Syntax>)
    ensures p.Parsed? ==> |p.rest| < |s|
    decreases |s|, 0
  {
    if depth > limits.depth || s == [] then Failed
    else if Opens(s[0]) then ParseGroup(s[1..], s[0] == OPEN_BRACE, depth, limits)
    else ParseLeaf(s, limits)
  }

  /** What follows an opening bracket or brace. */
  function ParseGroup(s: Bytes, isObject: bool, depth: nat, limits: Limits): (p: Parse<Syntax>)
    ensures p.Parsed? ==> |p.rest| < |s|
    decreases |s|, 4
  {
    var n := Spaces(s);
    var t := s[n..];
    if t != [] && t[0] == Close(isObject) then Parsed(Group(isObject, s[..n], []), t[1..])
    else
      match ParseEntries(t, isObject, depth, limits)
      case Failed => Failed
      case Parsed(entries, rest) => Parsed(Group(isObject, s[..n], entries), rest)
  }

  /** One or more entries and the closing bracket or brace. */
  function ParseEntries(s: Bytes, isObject: bool, depth: nat, limits: Limits): (p: Parse<seq<Entry>>)
    ensures p.Parsed? ==> |p.rest| < |s| && |p.value| >= 1
    decreases |s|, 3
  {
    match ParseEntry(s, isObject, depth, limits)
    case Failed => Failed
    case Parsed(entry, rest) =>
      if rest == [] then Failed
      else if rest[0] == COMMA then
        (match ParseEntries(rest[1..], isObject, depth, limits)
         case Failed => Failed
         case Parsed(entries, after) => Parsed([entry] + entries, after))
      else if rest[0] == Close(isObject) then Parsed([entry], rest[1..])
      else Failed
  }

  /** Space and the colon after a member name. */
  function ParseGap(s: Bytes): (p: Parse<Bytes>)
    ensures p.Parsed? ==> |p.rest| < |s|
  {
    var n := Spaces(s);
    if n == |s| || s[n] != COLON then Failed else Parsed(s[..n], s[n + 1..])
  }

  /** A member name with no space before it, up to the colon. */
  function ParseQuoted(lead: Bytes, s: Bytes): (p: Parse<Name>)
    ensures p.Parsed? ==> |p.rest| < |s|
  {
    if s == [] || s[0] != QUOTE then Failed
    else
      match ParseItems(s[1..])
      case Failed => Failed
      case Parsed(items, rest) =>
        match ParseGap(rest)
        case Failed => Failed
        case Parsed(gap, after) => Parsed(Name(lead, items, gap), after)
  }

  function ParseName(s: Bytes): (p: Parse<Name>)
    ensures p.Parsed? ==> |p.rest| < |s|
  {
    ParseQuoted(s[..Spaces(s)], s[Spaces(s)..])
  }

  function MaybeName(s: Bytes, isObject: bool): (p: Parse<Name>)
    ensures p.Parsed? ==> |p.rest| <= |s|
  {
    if isObject then ParseName(s) else Parsed(NoName, s)
  }

  function ParseEntry(s: Bytes, isObject: bool, depth: nat, limits: Limits): (p: Parse<Entry>)
    ensures p.Parsed? ==> |p.rest| < |s|
    decreases |s|, 2
  {
    var name := MaybeName(s, isObject);
    if name.Failed? then Failed else ParseSpaced(name.rest, name.value, depth, limits)
  }

  /** A value with the space around it, which completes the entry of the given name. */
  function ParseSpaced(s: Bytes, name: Name, depth: nat, limits: Limits): (p: Parse<Entry>)
    ensures p.Parsed? ==> |p.rest| < |s|
    decreases |s|, 1
  {
    var n := Spaces(s);
    match ParseValue(s[n..], depth + 1, limits)
    case Failed => Failed
    case Parsed(v, rest) =>
      var m := Spaces(rest);
      Parsed(Entry(name, s[..n], v, rest[..m]), rest[m..])
  }

  function ParseDocument(s: Bytes, limits: Limits): Parse<Document> {
    var n := Spaces(s);
    match ParseValue(s[n..], 0, limits)
    case Failed => Failed
    case Parsed(v, rest) =>
      var m := Spaces(rest);
      if m < |rest| then Failed else Parsed(Document(s[..n], v, rest), [])
  }

  // --- what is recognised is in the language, and is the text that was read ---

  lemma ItemSound(s: Bytes)
    requires s != [] && s[0] != QUOTE && ParseItem(s).Parsed?
    ensures LegalItem(ParseItem(s).value) && ItemText(ParseItem(s).value) + ParseItem(s).rest == s
  {
  }

  lemma {:induction false} ItemsSound(s: Bytes)
    requires ParseItems(s).Parsed?
    ensures LegalItems(ParseItems(s).value)
    ensures ItemsText(ParseItems(s).value) + [QUOTE] + ParseItems(s).rest == s
    decreases |s|
  {
    if s[0] != QUOTE {
      var p := ParseItem(s);
      ItemSound(s);
      ItemsSound(p.rest);
      var q := ParseItems(p.rest);
      OneMoreItem(p.value, q.value, q.rest);
    }
  }

  lemma OneMoreItem(item: Item, items: seq<Item>, r: Bytes)
    ensures ItemsText([item] + items) + [QUOTE] + r == ItemText(item) + (ItemsText(items) + [QUOTE] + r)
  {
    assert ([item] + items)[1..] == items;
  }

  lemma Split(s: Bytes, n: nat)
    requires n <= |s|
    ensures s[..n] + s[n..] == s
  {
  }

  lemma Glue2(a: Bytes, b: Bytes, r: Bytes)
    ensures (a + b) + r == a + (b + r)
  {
  }

  lemma Glue3(a: Bytes, b: Bytes, c: Bytes, r: Bytes)
    ensures (a + b + c) + r == a + (b + (c + r))
  {
  }

  lemma Glue4(a: Bytes, b: Bytes, c: Bytes, d: Bytes, r: Bytes)
    ensures (a + b + c + d) + r == a + (b + (c + (d + r)))
  {
  }

  lemma FractionSound(s: Bytes)
    ensures FractionText(ParseFraction(s).value) + ParseFraction(s).rest == s
    ensures ParseFraction(s).value.Fraction? ==> AllDigits(ParseFraction(s).value.digits)
  {
    if s != [] && s[0] == DOT {
      var n := Digits(s[1..]);
      Split(s[1..], n);
      Glue2([DOT], s[1..][..n], s[1..][n..]);
    }
  }

  lemma SignSound(s: Bytes)
    ensures var p := ParseSign(s); p.value + p.rest == s && (p.value == [] || p.value == [PLUS] || p.value == [MINUS])
  {
  }

  lemma ExponentSound(s: Bytes)
    ensures ExponentText(ParseExponent(s).value) + ParseExponent(s).rest == s
    ensures ParseExponent(s).value.Exponent? && ParseExponent(s).value.digits != [] ==>
            LegalExponent(ParseExponent(s).value)
  {
    if s != [] && (s[0] == SMALL_E || s[0] == BIG_E) {
      var t := s[1..];
      SignSound(t);
      var sign := ParseSign(t);
      var n := Digits(sign.rest);
      Split(sign.rest, n);
      Glue3([s[0]], sign.value, sign.rest[..n], sign.rest[n..]);
      assert [s[0]] + t == s;
    }
  }

  lemma TailSound(s: Bytes)
    ensures var p := ParseTail(s);
            FractionText(p.value.0) + (ExponentText(p.value.1) + p.rest) == s &&
            (p.value.0.Fraction? ==> AllDigits(p.value.0.digits)) &&
            (p.value.1.Exponent? && p.value.1.digits != [] ==> LegalExponent(p.value.1))
  {
    FractionSound(s);
    ExponentSound(ParseFraction(s).rest);
  }

  lemma MagnitudeSound(negative: bool, s: Bytes)
    requires ScanMagnitude(negative, s).Parsed?
    ensures var p := ScanMagnitude(negative, s);
            LegalDigits(p.value) && NumberText(p.value) + p.rest == (if negative then [MINUS] else []) + s
  {
    var n := Digits(s);
    TailSound(s[n..]);
    var tail := ParseTail(s[n..]);
    Split(s, n);
    Glue4(if negative then [MINUS] else [], s[..n], FractionText(tail.value.0), ExponentText(tail.value.1), tail.rest);
  }

  lemma ScanSound(s: Bytes)
    requires ScanNumber(s).Parsed?
    ensures var p := ScanNumber(s);
            LegalDigits(p.value) && NumberText(p.value) + p.rest == s
  {
    if s != [] && s[0] == MINUS {
      MagnitudeSound(true, s[1..]);
      assert [MINUS] + s[1..] == s;
    } else {
      MagnitudeSound(false, s);
      assert [] + s == s;
    }
  }

  lemma NumberSound(s: Bytes, limits: Limits)
    requires ParseNumber(s, limits).Parsed?
    ensures var p := ParseNumber(s, limits);
            p.value.Number? && LegalNumber(p.value, limits) && NumberText(p.value) + p.rest == s
  {
    ScanSound(s);
  }

  lemma StringGlue(items: seq<Item>, r: Bytes)
    ensures StringText(items) + r == [QUOTE] + (ItemsText(items) + [QUOTE] + r)
  {
  }

  lemma GapSound(s: Bytes)
    requires ParseGap(s).Parsed?
    ensures AllSpace(ParseGap(s).value) && ParseGap(s).value + ([COLON] + ParseGap(s).rest) == s
  {
    Split(s, Spaces(s));
  }

  lemma QuotedSound(lead: Bytes, s: Bytes)
    requires AllSpace(lead) && ParseQuoted(lead, s).Parsed?
    ensures var p := ParseQuoted(lead, s);
            LegalName(p.value, true) && p.value.lead == lead && NameText(p.value) + p.rest == lead + s
  {
    var items := ParseItems(s[1..]);
    var gap := ParseGap(items.rest);
    ItemsSound(s[1..]);
    GapSound(items.rest);
    QuotedTextIs(lead, s, items.value, items.rest, gap.value, gap.rest);
  }

  lemma QuotedTextIs(lead: Bytes, s: Bytes, items: seq<Item>, after: Bytes, gap: Bytes, r: Bytes)
    requires s != [] && s[0] == QUOTE && ItemsText(items) + [QUOTE] + after == s[1..] && gap + ([COLON] + r) == after
    ensures NameText(Name(lead, items, gap)) + r == lead + s
  {
    assert [QUOTE] + s[1..] == s;
    StringGlue(items, after);
    Glue4(lead, StringText(items), gap, [COLON], r);
  }

  lemma NameSound(s: Bytes)
    requires ParseName(s).Parsed?
    ensures LegalName(ParseName(s).value, true) && NameText(ParseName(s).value) + ParseName(s).rest == s
    ensures s != [] && !IsSpace(s[0]) ==> ParseName(s).value.lead == []
  {
    Split(s, Spaces(s));
    QuotedSound(s[..Spaces(s)], s[Spaces(s)..]);
  }

  lemma QuotesSound(s: Bytes)
    requires s != [] && s[0] == QUOTE && ParseQuotes(s).Parsed?
    ensures var p := ParseQuotes(s);
            p.value.String? && LegalItems(p.value.items) && StringText(p.value.items) + p.rest == s
  {
    ItemsSound(s[1..]);
    StringGlue(ParseItems(s[1..]).value, ParseItems(s[1..]).rest);
    assert [QUOTE] + s[1..] == s;
  }

  lemma WordSound(s: Bytes, l: Literal)
    requires ParseWord(s, l).Parsed?
    ensures WordText(l) + ParseWord(s, l).rest == s
  {
    Split(s, |WordText(l)|);
  }

  lemma LeafSound(s: Bytes, depth: nat, limits: Limits)
    requires s != [] && depth <= limits.depth && ParseLeaf(s, limits).Parsed?
    ensures Legal(ParseLeaf(s, limits).value, depth, limits)
    ensures Text(ParseLeaf(s, limits).value) + ParseLeaf(s, limits).rest == s
  {
    if StartsNumber(s[0]) {
      NumberSound(s, limits);
    } else if s[0] == QUOTE {
      QuotesSound(s);
    } else if s[0] == SMALL_T {
      WordSound(s, True);
    } else if s[0] == SMALL_F {
      WordSound(s, False);
    } else {
      WordSound(s, Null);
    }
  }

  lemma {:induction false} ValueSound(s: Bytes, depth: nat, limits: Limits)
    requires ParseValue(s, depth, limits).Parsed?
    ensures Legal(ParseValue(s, depth, limits).value, depth, limits)
    ensures Text(ParseValue(s, depth, limits).value) + ParseValue(s, depth, limits).rest == s
    decreases |s|, 0
  {
    if Opens(s[0]) {
      GroupSound(s[1..], s[0] == OPEN_BRACE, depth, limits);
    } else {
      LeafSound(s, depth, limits);
    }
  }

  lemma {:induction false} GroupSound(s: Bytes, isObject: bool, depth: nat, limits: Limits)
    requires depth <= limits.depth && ParseGroup(s, isObject, depth, limits).Parsed?
    ensures Legal(ParseGroup(s, isObject, depth, limits).value, depth, limits)
    ensures Text(ParseGroup(s, isObject, depth, limits).value) + ParseGroup(s, isObject, depth, limits).rest ==
            [Open(isObject)] + s
    decreases |s|, 4
  {
    var inner, t := s[..Spaces(s)], s[Spaces(s)..];
    Split(s, Spaces(s));
    if t != [] && t[0] == Close(isObject) {
      assert EntriesText([]) + [Close(isObject)] + t[1..] == t;
      GroupTextIs(isObject, inner, [], t[1..], t);
      LegalGroup(isObject, inner, [], depth, limits);
    } else {
      EntriesSound(t, isObject, depth, limits);
      var p := ParseEntries(t, isObject, depth, limits);
      GroupTextIs(isObject, inner, p.value, p.rest, t);
      LegalGroup(isObject, inner, p.value, depth, limits);
    }
  }

  lemma LegalGroup(isObject: bool, inner: Bytes, es: seq<Entry>, depth: nat, limits: Limits)
    requires depth <= limits.depth && AllSpace(inner) && LegalEntries(es, isObject, depth, limits)
    requires es != [] ==> FirstSpace(es[0]) == []
    ensures Legal(Group(isObject, inner, es), depth, limits)
  {
  }

  lemma GroupTextIs(isObject: bool, inner: Bytes, es: seq<Entry>, r: Bytes, t: Bytes)
    requires EntriesText(es) + [Close(isObject)] + r == t
    ensures Text(Group(isObject, inner, es)) + r == [Open(isObject)] + (inner + t)
  {
    Glue2(EntriesText(es), [Close(isObject)], r);
    Glue4([Open(isObject)], inner, EntriesText(es), [Close(isObject)], r);
  }

  lemma {:induction false} EntriesSound(s: Bytes, isObject: bool, depth: nat, limits: Limits)
    requires depth <= limits.depth && ParseEntries(s, isObject, depth, limits).Parsed?
    ensures LegalEntries(ParseEntries(s, isObject, depth, limits).value, isObject, depth, limits)
    ensures EntriesText(ParseEntries(s, isObject, depth, limits).value) + [Close(isObject)] +
            ParseEntries(s, isObject, depth, limits).rest == s
    ensures s != [] && !IsSpace(s[0]) ==> FirstSpace(ParseEntries(s, isObject, depth, limits).value[0]) == []
    decreases |s|, 3
  {
    EntrySound(s, isObject, depth, limits);
    var p := ParseEntry(s, isObject, depth, limits);
    assert [p.rest[0]] + p.rest[1..] == p.rest;
    if p.rest[0] == COMMA {
      EntriesSound(p.rest[1..], isObject, depth, limits);
      var q := ParseEntries(p.rest[1..], isObject, depth, limits);
      EntriesOneMore(p.value, q.value, isObject, depth, limits);
      Glue2(EntriesText(q.value), [Close(isObject)], q.rest);
      Glue4(EntryText(p.value), [COMMA], EntriesText(q.value), [Close(isObject)], q.rest);
    } else {
      Glue2(EntryText(p.value), [Close(isObject)], p.rest[1..]);
    }
  }

  lemma EntriesOneMore(e: Entry, es: seq<Entry>, isObject: bool, depth: nat, limits: Limits)
    requires LegalEntry(e, isObject, depth, limits) && LegalEntries(es, isObject, depth, limits) && es != []
    ensures LegalEntries([e] + es, isObject, depth, limits)
    ensures EntriesText([e] + es) == EntryText(e) + [COMMA] + EntriesText(es)
  {
    assert ([e] + es)[1..] == es;
  }

  lemma {:induction false} EntrySound(s: Bytes, isObject: bool, depth: nat, limits: Limits)
    requires depth <= limits.depth && ParseEntry(s, isObject, depth, limits).Parsed?
    ensures LegalEntry(ParseEntry(s, isObject, depth, limits).value, isObject, depth, limits)
    ensures EntryText(ParseEntry(s, isObject, depth, limits).value) + ParseEntry(s, isObject, depth, limits).rest == s
    ensures s != [] && !IsSpace(s[0]) ==> FirstSpace(ParseEntry(s, isObject, depth, limits).value) == []
    decreases |s|, 2
  {
    var name := MaybeName(s, isObject);
    MaybeNameSound(s, isObject);
    SpacedSound(name.rest, name.value, isObject, depth, limits);
    EntryTextIs(ParseSpaced(name.rest, name.value, depth, limits).value);
    var p := ParseSpaced(name.rest, name.value, depth, limits);
    Glue2(NameText(name.value), SpacedText(p.value), p.rest);
  }

  function SpacedText(e: Entry): Bytes {
    e.lead + Text(e.value) + e.trail
  }

  lemma EntryTextIs(e: Entry)
    ensures EntryText(e) == NameText(e.name) + SpacedText(e)
  {
    Glue3(NameText(e.name), e.lead, Text(e.value), e.trail);
    Glue2(e.lead, Text(e.value), e.trail);
  }

  lemma MaybeNameSound(s: Bytes, isObject: bool)
    requires MaybeName(s, isObject).Parsed?
    ensures var p := MaybeName(s, isObject);
            LegalName(p.value, isObject) && NameText(p.value) + p.rest == s &&
            (s != [] && !IsSpace(s[0]) ==> if isObject then p.value.lead == [] else p.rest == s)
  {
    if isObject {
      NameSound(s);
    } else {
      assert [] + s == s;
    }
  }

  lemma {:induction false} SpacedSound(s: Bytes, name: Name, isObject: bool, depth: nat, limits: Limits)
    requires LegalName(name, isObject) && ParseSpaced(s, name, depth, limits).Parsed?
    ensures var p := ParseSpaced(s, name, depth, limits);
            p.value.name == name && LegalEntry(p.value, isObject, depth, limits) && SpacedText(p.value) + p.rest == s &&
            (s != [] && !IsSpace(s[0]) ==> p.value.lead == [])
    decreases |s|, 1
  {
    var n := Spaces(s);
    ValueSound(s[n..], depth + 1, limits);
    var v := ParseValue(s[n..], depth + 1, limits);
    var m := Spaces(v.rest);
    Split(v.rest, m);
    Split(s, n);
    Glue3(s[..n], Text(v.value), v.rest[..m], v.rest[m..]);
  }

  /** Whatever the reader accepts is a legal document, and exactly the text it was given. */
  lemma DocumentSound(s: Bytes, limits: Limits)
    requires ParseDocument(s, limits).Parsed?
    ensures LegalDocument(ParseDocument(s, limits).value, limits) && DocumentText(ParseDocument(s, limits).value) == s
  {
    var n := Spaces(s);
    ValueSound(s[n..], 0, limits);
    var v := ParseValue(s[n..], 0, limits);
    assert v.rest[..Spaces(v.rest)] == v.rest;
    Split(s, n);
    Glue2(s[..n], Text(v.value), v.rest);
  }
}
