/** The reader accepts every legal document, recovering exactly the syntax it was written from. */
module JsonComplete {
  import opened Octets
  import opened JsonSyntax
  import opened JsonParser

  lemma Taken(a: Bytes, b: Bytes)
    ensures (a + b)[..|a|] == a && (a + b)[|a|..] == b
  {
  }

  predicate NoSpaceNext(r: Bytes) {
    r == [] || !IsSpace(r[0])
  }

  lemma {:induction false} SpacesOf(w: Bytes, r: Bytes)
    requires AllSpace(w) && NoSpaceNext(r)
    ensures Spaces(w + r) == |w| && (w + r)[..|w|] == w && (w + r)[|w|..] == r
  {
    Taken(w, r);
    if w == [] {
      assert w + r == r;
    } else {
      SpacesOf(w[1..], r);
      assert (w + r)[1..] == w[1..] + r;
    }
  }

  lemma {:induction false} DigitsOf(d: Bytes, r: Bytes)
    requires AllDigits(d) && (r == [] || !IsDigit(r[0]))
    ensures Digits(d + r) == |d| && (d + r)[..|d|] == d && (d + r)[|d|..] == r
  {
    Taken(d, r);
    if d == [] {
      assert d + r == r;
    } else {
      DigitsOf(d[1..], r);
      assert (d + r)[1..] == d[1..] + r;
    }
  }

  // --- strings ---

  lemma ItemComplete(item: Item, r: Bytes)
    requires LegalItem(item)
    ensures (ItemText(item) + r)[0] != QUOTE && ParseItem(ItemText(item) + r) == Parsed(item, r)
  {
    var s := ItemText(item) + r;
    Taken(ItemText(item), r);
    match item {
      case Plain(b) =>
      case Short(e) =>
      case Hex(digits) =>
        assert s[2..6] == digits;
    }
  }

  lemma {:induction false} ItemsComplete(items: seq<Item>, r: Bytes)
    requires LegalItems(items)
    ensures ParseItems(ItemsText(items) + ([QUOTE] + r)) == Parsed(items, r)
  {
    if items == [] {
      assert ItemsText(items) + ([QUOTE] + r) == [QUOTE] + r;
    } else {
      var rest := ItemsText(items[1..]) + ([QUOTE] + r);
      Glue2(ItemText(items[0]), ItemsText(items[1..]), [QUOTE] + r);
      ItemComplete(items[0], rest);
      ItemsComplete(items[1..], r);
      assert [items[0]] + items[1..] == items;
    }
  }

  lemma StringComplete(items: seq<Item>, r: Bytes)
    requires LegalItems(items)
    ensures var s := StringText(items) + r;
            s[0] == QUOTE && ParseItems(s[1..]) == Parsed(items, r)
  {
    var tail := ItemsText(items) + ([QUOTE] + r);
    assert StringText(items) + r == [QUOTE] + tail;
    ItemsComplete(items, r);
  }

  // --- numbers ---

  /** Nothing that could continue a number. */
  predicate Stops(r: Bytes) {
    r == [] || !(IsDigit(r[0]) || r[0] == DOT || r[0] == SMALL_E || r[0] == BIG_E)
  }

  lemma FractionComplete(f: Fraction, r: Bytes)
    requires f.Fraction? ==> AllDigits(f.digits)
    requires r == [] || !(IsDigit(r[0]) || r[0] == DOT)
    ensures ParseFraction(FractionText(f) + r) == Parsed(f, r)
  {
    if f.Fraction? {
      Glue2([DOT], f.digits, r);
      DigitsOf(f.digits, r);
      assert ([DOT] + (f.digits + r))[1..] == f.digits + r;
    } else {
      assert FractionText(f) + r == r;
    }
  }

  lemma SignComplete(sign: Bytes, r: Bytes)
    requires sign == [] || sign == [PLUS] || sign == [MINUS]
    requires r != [] && IsDigit(r[0])
    ensures ParseSign(sign + r) == Parsed(sign, r)
  {
    if sign == [] {
      assert sign + r == r;
    }
  }

  lemma ExponentComplete(e: Exponent, r: Bytes)
    requires (e.Exponent? ==> LegalExponent(e)) && Stops(r)
    ensures ParseExponent(ExponentText(e) + r) == Parsed(e, r)
  {
    if e.Exponent? {
      Glue3([e.marker], e.sign, e.digits, r);
      SignComplete(e.sign, e.digits + r);
      DigitsOf(e.digits, r);
      assert ([e.marker] + (e.sign + (e.digits + r)))[1..] == e.sign + (e.digits + r);
    } else {
      assert ExponentText(e) + r == r;
    }
  }

  lemma TailComplete(f: Fraction, e: Exponent, r: Bytes)
    requires (f.Fraction? ==> AllDigits(f.digits)) && (e.Exponent? ==> LegalExponent(e)) && Stops(r)
    ensures ParseTail(FractionText(f) + (ExponentText(e) + r)) == Parsed((f, e), r)
  {
    FractionComplete(f, ExponentText(e) + r);
    ExponentComplete(e, r);
  }

  lemma MagnitudeComplete(v: Syntax, r: Bytes, limits: Limits)
    requires v.Number? && LegalNumber(v, limits) && Stops(r)
    ensures var s := v.whole + (FractionText(v.fraction) + (ExponentText(v.exponent) + r));
            s != [] && IsDigit(s[0]) && ScanMagnitude(v.negative, s) == Parsed(v, r)
  {
    var tail := FractionText(v.fraction) + (ExponentText(v.exponent) + r);
    DigitsOf(v.whole, tail);
    TailComplete(v.fraction, v.exponent, r);
  }

  lemma SignedMagnitude(negative: bool, s: Bytes)
    requires s != [] && IsDigit(s[0])
    ensures var t := (if negative then [MINUS] else []) + s;
            (t[0] == MINUS || IsDigit(t[0])) && ScanNumber(t) == ScanMagnitude(negative, s)
  {
    if negative {
      assert ([MINUS] + s)[1..] == s;
    } else {
      assert [] + s == s;
    }
  }

  lemma NumberComplete(v: Syntax, r: Bytes, limits: Limits)
    requires v.Number? && LegalNumber(v, limits) && Stops(r)
    ensures ParseNumber(NumberText(v) + r, limits) == Parsed(v, r)
    ensures var c := (NumberText(v) + r)[0]; c == MINUS || IsDigit(c)
  {
    var s := v.whole + (FractionText(v.fraction) + (ExponentText(v.exponent) + r));
    Glue4(if v.negative then [MINUS] else [], v.whole, FractionText(v.fraction), ExponentText(v.exponent), r);
    MagnitudeComplete(v, r, limits);
    SignedMagnitude(v.negative, s);
  }

  // --- values ---

  lemma WordComplete(l: Literal, r: Bytes)
    ensures ParseWord(WordText(l) + r, l) == Parsed(Word(l), r)
    ensures (WordText(l) + r)[0] == if l.True? then SMALL_T else if l.False? then SMALL_F else SMALL_N
  {
    Taken(WordText(l), r);
  }

  /** The first byte of a value is no space and closes nothing. */
  lemma FirstByte(v: Syntax, depth: nat, limits: Limits)
    requires Legal(v, depth, limits)
    ensures Text(v) != [] && !IsSpace(Text(v)[0]) && Text(v)[0] != CLOSE_BRACE && Text(v)[0] != CLOSE_BRACKET
    ensures Text(v)[0] != COMMA
  {
  }

  lemma NameComplete(n: Name, r: Bytes)
    requires LegalName(n, true)
    ensures ParseName(NameText(n) + r) == Parsed(n, r)
  {
    var after := n.gap + ([COLON] + r);
    Glue4(n.lead, StringText(n.items), n.gap, [COLON], r);
    StringComplete(n.items, after);
    SpacesOf(n.lead, StringText(n.items) + after);
    GapComplete(n.gap, r);
  }

  lemma GapComplete(gap: Bytes, r: Bytes)
    requires AllSpace(gap)
    ensures ParseGap(gap + ([COLON] + r)) == Parsed(gap, r)
  {
    var s := gap + ([COLON] + r);
    SpacesOf(gap, [COLON] + r);
    assert s[|gap|] == COLON && s[|gap| + 1..] == r;
  }

  lemma {:induction false} ValueComplete(v: Syntax, r: Bytes, depth: nat, limits: Limits)
    requires Legal(v, depth, limits) && Stops(r)
    ensures ParseValue(Text(v) + r, depth, limits) == Parsed(v, r)
    decreases v, 1
  {
    match v
    case Word(l) =>
      WordComplete(l, r);
    case Number(_, _, _, _) =>
      NumberComplete(v, r, limits);
    case String(items) =>
      StringComplete(items, r);
    case Group(isObject, inner, entries) =>
      GroupComplete(v, r, depth, limits);
      GroupStart(v, r);
      OpensGroup(GroupBody(v, r), isObject, depth, limits);
  }

  /** What follows the opening bracket or brace of a group. */
  function GroupBody(v: Syntax, r: Bytes): Bytes
    requires v.Group?
  {
    v.inner + (EntriesText(v.entries) + ([Close(v.isObject)] + r))
  }

  lemma GroupStart(v: Syntax, r: Bytes)
    requires v.Group?
    ensures Text(v) + r == [Open(v.isObject)] + GroupBody(v, r)
  {
    Glue4([Open(v.isObject)], v.inner, EntriesText(v.entries), [Close(v.isObject)], r);
  }

  lemma OpensGroup(s: Bytes, isObject: bool, depth: nat, limits: Limits)
    requires depth <= limits.depth
    ensures ParseValue([Open(isObject)] + s, depth, limits) == ParseGroup(s, isObject, depth, limits)
  {
    assert ([Open(isObject)] + s)[1..] == s;
  }

  lemma {:induction false} GroupComplete(v: Syntax, r: Bytes, depth: nat, limits: Limits)
    requires v.Group? && Legal(v, depth, limits)
    ensures ParseGroup(GroupBody(v, r), v.isObject, depth, limits) == Parsed(v, r)
    decreases v, 0
  {
    var body := EntriesText(v.entries) + ([Close(v.isObject)] + r);
    if v.entries == [] {
      EmptyComplete(v.inner, r, v.isObject, depth, limits);
      assert body == [Close(v.isObject)] + r;
    } else {
      EntriesStart(v.entries, v.isObject, depth, limits);
      EntriesComplete(v.entries, r, v.isObject, depth, limits);
      FilledComplete(v.inner, v.entries, body, r, v.isObject, depth, limits);
    }
  }

  lemma EmptyComplete(inner: Bytes, r: Bytes, isObject: bool, depth: nat, limits: Limits)
    requires AllSpace(inner)
    ensures ParseGroup(inner + ([Close(isObject)] + r), isObject, depth, limits) ==
            Parsed(Group(isObject, inner, []), r)
  {
    SpacesOf(inner, [Close(isObject)] + r);
    assert ([Close(isObject)] + r)[1..] == r;
  }

  lemma FilledComplete(inner: Bytes, es: seq<Entry>, body: Bytes, r: Bytes, isObject: bool, depth: nat, limits: Limits)
    requires AllSpace(inner) && body != [] && !IsSpace(body[0]) && body[0] != Close(isObject)
    requires ParseEntries(body, isObject, depth, limits) == Parsed(es, r)
    ensures ParseGroup(inner + body, isObject, depth, limits) == Parsed(Group(isObject, inner, es), r)
  {
    SpacesOf(inner, body);
  }

  lemma EntriesStart(es: seq<Entry>, isObject: bool, depth: nat, limits: Limits)
    requires es != [] && LegalEntries(es, isObject, depth, limits) && FirstSpace(es[0]) == []
    ensures var t := EntriesText(es); t != [] && !IsSpace(t[0]) && t[0] != Close(isObject)
  {
    EntryStart(es[0], isObject, depth, limits);
  }

  lemma EntryStart(e: Entry, isObject: bool, depth: nat, limits: Limits)
    requires LegalEntry(e, isObject, depth, limits) && FirstSpace(e) == []
    ensures var t := EntryText(e); t != [] && !IsSpace(t[0]) && t[0] != Close(isObject)
  {
    FirstByte(e.value, depth + 1, limits);
  }

  lemma {:induction false} EntriesComplete(es: seq<Entry>, r: Bytes, isObject: bool, depth: nat, limits: Limits)
    requires es != [] && LegalEntries(es, isObject, depth, limits)
    ensures ParseEntries(EntriesText(es) + ([Close(isObject)] + r), isObject, depth, limits) == Parsed(es, r)
    decreases es, 2
  {
    var end := [Close(isObject)] + r;
    assert end[1..] == r;
    if |es| == 1 {
      EntryComplete(es[0], end, isObject, depth, limits);
      assert [es[0]] == es;
    } else {
      var rest := EntriesText(es[1..]) + end;
      Glue3(EntryText(es[0]), [COMMA], EntriesText(es[1..]), end);
      EntryComplete(es[0], [COMMA] + rest, isObject, depth, limits);
      EntriesComplete(es[1..], r, isObject, depth, limits);
      MoreEntries(EntryText(es[0]) + ([COMMA] + rest), es[0], es[1..], rest, r, isObject, depth, limits);
      assert [es[0]] + es[1..] == es;
    }
  }

  lemma MoreEntries(s: Bytes, e: Entry, es: seq<Entry>, rest: Bytes, r: Bytes, isObject: bool, depth: nat,
                    limits: Limits)
    requires ParseEntry(s, isObject, depth, limits) == Parsed(e, [COMMA] + rest)
    requires ParseEntries(rest, isObject, depth, limits) == Parsed(es, r)
    ensures ParseEntries(s, isObject, depth, limits) == Parsed([e] + es, r)
  {
    assert ([COMMA] + rest)[1..] == rest;
  }

  lemma {:induction false} EntryComplete(e: Entry, r: Bytes, isObject: bool, depth: nat, limits: Limits)
    requires LegalEntry(e, isObject, depth, limits)
    requires r != [] && (r[0] == COMMA || r[0] == Close(isObject))
    ensures ParseEntry(EntryText(e) + r, isObject, depth, limits) == Parsed(e, r)
    decreases e, 1
  {
    var body := SpacedText(e) + r;
    EntryTextIs(e);
    Glue2(NameText(e.name), SpacedText(e), r);
    MaybeNameComplete(e.name, body, isObject);
    SpacedComplete(e, r, isObject, depth, limits);
  }

  lemma MaybeNameComplete(n: Name, r: Bytes, isObject: bool)
    requires LegalName(n, isObject)
    ensures MaybeName(NameText(n) + r, isObject) == Parsed(n, r)
  {
    if isObject {
      NameComplete(n, r);
    } else {
      assert NameText(n) + r == r;
    }
  }

  lemma {:induction false} SpacedComplete(e: Entry, r: Bytes, isObject: bool, depth: nat, limits: Limits)
    requires LegalEntry(e, isObject, depth, limits)
    requires r != [] && (r[0] == COMMA || r[0] == Close(isObject))
    ensures ParseSpaced(SpacedText(e) + r, e.name, depth, limits) == Parsed(e, r)
    decreases e, 0
  {
    var tail := e.trail + r;
    var body := Text(e.value) + tail;
    Glue3(e.lead, Text(e.value), e.trail, r);
    FirstByte(e.value, depth + 1, limits);
    SpacesOf(e.lead, body);
    ValueComplete(e.value, tail, depth + 1, limits);
    SpacesOf(e.trail, r);
  }

  lemma DocumentComplete(d: Document, limits: Limits)
    requires LegalDocument(d, limits)
    ensures ParseDocument(DocumentText(d), limits) == Parsed(d, [])
  {
    Glue2(d.lead, Text(d.value), d.trail);
    FirstByte(d.value, 0, limits);
    SpacesOf(d.lead, Text(d.value) + d.trail);
    ValueComplete(d.value, d.trail, 0, limits);
    SpacesOf(d.trail, []);
    assert d.trail + [] == d.trail;
  }

  /** The reader accepts exactly the texts of legal documents, and each text has one syntax. */
  lemma AcceptsExactly(s: Bytes, limits: Limits)
    ensures ParseDocument(s, limits).Parsed? <==> exists d: Document :: LegalDocument(d, limits) && DocumentText(d) == s
    ensures forall d: Document :: LegalDocument(d, limits) && DocumentText(d) == s ==>
            ParseDocument(s, limits) == Parsed(d, [])
  {
    forall d: Document | LegalDocument(d, limits) && DocumentText(d) == s
      ensures ParseDocument(s, limits) == Parsed(d, [])
    {
      DocumentComplete(d, limits);
    }
    if ParseDocument(s, limits).Parsed? {
      DocumentSound(s, limits);
    }
  }

  /** A number may end in its decimal point, which section 6 of RFC 8259 rules out. */
  lemma PointWithoutDigits(limits: Limits)
    requires limits.fits([49, DOT])
    ensures var v := Number(false, [49], Fraction([]), NoExponent);
            ParseDocument([49, DOT], limits) == Parsed(Document([], v, []), [])
  {
    var v := Number(false, [49], Fraction([]), NoExponent);
    var d := Document([], v, []);
    assert NumberText(v) == [49, DOT];
    assert DocumentText(d) == [49, DOT];
    DocumentComplete(d, limits);
  }
}
