/** JSON texts by their grammar (sections 2 to 7 of RFC 8259, over bytes), as the reader accepts it,
    and what such a text means. Nothing here parses. */
module JsonSyntax {

  import opened Octets

  const TAB: Byte := '\t' as int
  const NEWLINE: Byte := '\n' as int
  const RETURN: Byte := '\r' as int
  const SPACE: Byte := ' ' as int
  const QUOTE: Byte := '"' as int
  const PLUS: Byte := '+' as int
  const COMMA: Byte := ',' as int
  const MINUS: Byte := '-' as int
  const DOT: Byte := '.' as int
  const SLASH: Byte := '/' as int
  const ZERO: Byte := '0' as int
  const COLON: Byte := ':' as int
  const BIG_E: Byte := 'E' as int
  const OPEN_BRACKET: Byte := '[' as int
  const BACKSLASH: Byte := '\\' as int
  const CLOSE_BRACKET: Byte := ']' as int
  const SMALL_B: Byte := 'b' as int
  const SMALL_E: Byte := 'e' as int
  const SMALL_F: Byte := 'f' as int
  const SMALL_N: Byte := 'n' as int
  const SMALL_R: Byte := 'r' as int
  const SMALL_T: Byte := 't' as int
  const SMALL_U: Byte := 'u' as int
  const OPEN_BRACE: Byte := '{' as int
  const CLOSE_BRACE: Byte := '}' as int

  const MAX_DEPTH: nat := 32

  /** How deep values may nest, and which number texts the number conversion can represent. */
  datatype Limits = Limits(depth: nat, fits: Bytes -> bool)

  const TRUE_TEXT: Bytes := [SMALL_T, SMALL_R, SMALL_U, SMALL_E]
  const FALSE_TEXT: Bytes := [SMALL_F, 'a' as int, 'l' as int, 's' as int, SMALL_E]
  const NULL_TEXT: Bytes := [SMALL_N, SMALL_U, 'l' as int, 'l' as int]

  predicate IsSpace(b: Byte) {
    b == SPACE || b == TAB || b == NEWLINE || b == RETURN
  }

  predicate IsDigit(b: Byte) {
    '0' as int <= b <= '9' as int
  }

  predicate IsHex(b: Byte) {
    IsDigit(b) || 'a' as int <= b <= 'f' as int || 'A' as int <= b <= 'F' as int
  }

  predicate AllSpace(s: Bytes) {
    forall i :: 0 <= i < |s| ==> IsSpace(s[i])
  }

  predicate AllDigits(s: Bytes) {
    forall i :: 0 <= i < |s| ==> IsDigit(s[i])
  }

  // --- concrete syntax ---

  /** One character of a string: itself, a two character escape, or an escape of four hex digits. */
  datatype Item = Plain(b: Byte) | Short(e: Byte) | Hex(digits: Bytes)

  datatype Fraction = NoFraction | Fraction(digits: Bytes)

  datatype Exponent = NoExponent | Exponent(marker: Byte, sign: Bytes, digits: Bytes)

  datatype Literal = True | False | Null

  /** A member name with the space before and after it. Array elements have none. */
  datatype Name = NoName | Name(lead: Bytes, items: seq<Item>, gap: Bytes)

  datatype Entry = Entry(name: Name, lead: Bytes, value: Syntax, trail: Bytes)

  /** A value as written, without space around it. inner is the space right after an opening bracket or brace. */
  datatype Syntax =
    | Word(literal: Literal)
    | Number(negative: bool, whole: Bytes, fraction: Fraction, exponent: Exponent)
    | String(items: seq<Item>)
    | Group(isObject: bool, inner: Bytes, entries: seq<Entry>)

  datatype Document = Document(lead: Bytes, value: Syntax, trail: Bytes)

  function ItemText(item: Item): Bytes {
    match item
    case Plain(b) => [b]
    case Short(e) => [BACKSLASH, e]
    case Hex(digits) => [BACKSLASH, SMALL_U] + digits
  }

  function ItemsText(items: seq<Item>): Bytes {
    if items == [] then [] else ItemText(items[0]) + ItemsText(items[1..])
  }

  function StringText(items: seq<Item>): Bytes {
    [QUOTE] + ItemsText(items) + [QUOTE]
  }

  function FractionText(f: Fraction): Bytes {
    if f.NoFraction? then [] else [DOT] + f.digits
  }

  function ExponentText(e: Exponent): Bytes {
    if e.NoExponent? then [] else [e.marker] + e.sign + e.digits
  }

  function NumberText(v: Syntax): Bytes
    requires v.Number?
  {
    (if v.negative then [MINUS] else []) + v.whole + FractionText(v.fraction) + ExponentText(v.exponent)
  }

  function WordText(l: Literal): Bytes {
    match l
    case True => TRUE_TEXT
    case False => FALSE_TEXT
    case Null => NULL_TEXT
  }

  function Open(isObject: bool): Byte {
    if isObject then OPEN_BRACE else OPEN_BRACKET
  }

  function Close(isObject: bool): Byte {
    if isObject then CLOSE_BRACE else CLOSE_BRACKET
  }

  function NameText(n: Name): Bytes {
    if n.NoName? then [] else n.lead + StringText(n.items) + n.gap + [COLON]
  }

  function Text(v: Syntax): Bytes
    decreases v, 0
  {
    match v
    case Word(l) => WordText(l)
    case Number(_, _, _, _) => NumberText(v)
    case String(items) => StringText(items)
    case Group(isObject, inner, entries) => [Open(isObject)] + inner + EntriesText(entries) + [Close(isObject)]
  }

  function EntryText(e: Entry): Bytes
    decreases e, 1
  {
    NameText(e.name) + e.lead + Text(e.value) + e.trail
  }

  function EntriesText(es: seq<Entry>): Bytes
    decreases es, 2
  {
    if es == [] then []
    else if |es| == 1 then EntryText(es[0])
    else EntryText(es[0]) + [COMMA] + EntriesText(es[1..])
  }

  function DocumentText(d: Document): Bytes {
    d.lead + Text(d.value) + d.trail
  }

  // --- which syntax trees are in the language ---

  predicate IsShortEscape(e: Byte) {
    e == QUOTE || e == BACKSLASH || e == SLASH || e == SMALL_B || e == SMALL_F || e == SMALL_N || e == SMALL_R ||
    e == SMALL_T
  }

  predicate LegalItem(item: Item) {
    match item
    case Plain(b) => b >= 32 && b != QUOTE && b != BACKSLASH
    case Short(e) => IsShortEscape(e)
    case Hex(digits) => |digits| == 4 && forall i :: 0 <= i < 4 ==> IsHex(digits[i])
  }

  predicate LegalItems(items: seq<Item>) {
    forall i :: 0 <= i < |items| ==> LegalItem(items[i])
  }

  predicate LegalExponent(e: Exponent)
    requires e.Exponent?
  {
    && (e.marker == SMALL_E || e.marker == BIG_E)
    && (e.sign == [] || e.sign == [PLUS] || e.sign == [MINUS])
    && e.digits != [] && AllDigits(e.digits)
  }

  /** Digits where there must be some, and an exponent whose marker and sign are right. */
  predicate LegalDigits(v: Syntax)
    requires v.Number?
  {
    && v.whole != [] && AllDigits(v.whole) && (v.whole[0] == ZERO ==> |v.whole| == 1)
    && (v.fraction.Fraction? ==> AllDigits(v.fraction.digits))
    && (v.exponent.Exponent? && v.exponent.digits != [] ==> LegalExponent(v.exponent))
  }

  /** No leading zero; the fraction may be empty, which section 6 of RFC 8259 does not allow; the exponent may not.
      The conversion has to be able to represent the value. */
  predicate LegalNumber(v: Syntax, limits: Limits)
    requires v.Number?
  {
    && LegalDigits(v)
    && (v.exponent.Exponent? ==> v.exponent.digits != [])
    && limits.fits(NumberText(v))
  }

  predicate LegalName(n: Name, isObject: bool) {
    && (isObject <==> n.Name?)
    && (n.Name? ==> AllSpace(n.lead) && LegalItems(n.items) && AllSpace(n.gap))
  }

  function FirstSpace(e: Entry): Bytes {
    if e.name.Name? then e.name.lead else e.lead
  }

  predicate Legal(v: Syntax, depth: nat, limits: Limits)
    decreases v, 0
  {
    && depth <= limits.depth
    && match v
       case Word(_) => true
       case Number(_, _, _, _) => LegalNumber(v, limits)
       case String(items) => LegalItems(items)
       case Group(isObject, inner, entries) =>
         && AllSpace(inner)
         && (entries != [] ==> FirstSpace(entries[0]) == [])
         && LegalEntries(entries, isObject, depth, limits)
  }

  predicate LegalEntry(e: Entry, isObject: bool, depth: nat, limits: Limits)
    decreases e, 1
  {
    LegalName(e.name, isObject) && AllSpace(e.lead) && AllSpace(e.trail) && Legal(e.value, depth + 1, limits)
  }

  predicate LegalEntries(es: seq<Entry>, isObject: bool, depth: nat, limits: Limits)
    decreases es, 2
  {
    forall i :: 0 <= i < |es| ==> LegalEntry(es[i], isObject, depth, limits)
  }

  predicate LegalDocument(d: Document, limits: Limits) {
    AllSpace(d.lead) && AllSpace(d.trail) && Legal(d.value, 0, limits)
  }

  // --- meaning ---

  /** What a document says: the tree a reader should see. Array elements have the empty key. */
  datatype Value =
    | VNull
    | VBool(boolean: bool)
    | VNumber(text: Bytes)
    | VString(bytes: Bytes)
    | VGroup(isObject: bool, members: seq<Member>)

  datatype Member = Member(key: Bytes, value: Value)

  /** Zero for anything that is not a hex digit. */
  function HexValue(b: Byte): (v: nat)
    ensures v < 16
  {
    if IsDigit(b) then b - '0' as int
    else if 'a' as int <= b <= 'f' as int then b - 'a' as int + 10
    else if 'A' as int <= b <= 'F' as int then b - 'A' as int + 10
    else 0
  }

  function CodeUnit(digits: Bytes): (v: nat)
    ensures v < 0x10000
  {
    if |digits| != 4 then 0
    else ((HexValue(digits[0]) * 16 + HexValue(digits[1])) * 16 + HexValue(digits[2])) * 16 + HexValue(digits[3])
  }

  /** UTF-8 (section 3 of RFC 3629). */
  function Utf8(cp: nat): Bytes
    requires cp <= 0x10FFFF
  {
    if cp <= 0x7F then [cp]
    else if cp <= 0x7FF then [0xC0 + cp / 64, 0x80 + cp % 64]
    else if cp <= 0xFFFF then [0xE0 + cp / 4096, 0x80 + cp / 64 % 64, 0x80 + cp % 64]
    else [0xF0 + cp / 262144, 0x80 + cp / 4096 % 64, 0x80 + cp / 64 % 64, 0x80 + cp % 64]
  }

  predicate IsHigh(unit: nat) {
    0xD800 <= unit <= 0xDBFF
  }

  predicate IsLow(unit: nat) {
    0xDC00 <= unit <= 0xDFFF
  }

  /** A lone surrogate stands for the replacement character. */
  function Scalar(unit: nat): (cp: nat)
    requires unit < 0x10000
    ensures cp < 0x10000
  {
    if IsHigh(unit) || IsLow(unit) then 0xFFFD else unit
  }

  function ShortMeaning(e: Byte): Byte {
    if e == SMALL_B then 8 else if e == SMALL_F then 12 else if e == SMALL_N then NEWLINE
    else if e == SMALL_R then RETURN else if e == SMALL_T then TAB else e
  }

  predicate StartsPair(items: seq<Item>) {
    |items| >= 2 && items[0].Hex? && IsHigh(CodeUnit(items[0].digits)) && items[1].Hex? &&
    IsLow(CodeUnit(items[1].digits))
  }

  function PairMeaning(high: nat, low: nat): Bytes
    requires IsHigh(high) && IsLow(low)
  {
    Utf8(0x10000 + (high - 0xD800) * 1024 + (low - 0xDC00))
  }

  function ItemMeaning(item: Item): Bytes {
    match item
    case Plain(b) => [b]
    case Short(e) => [ShortMeaning(e)]
    case Hex(digits) => Utf8(Scalar(CodeUnit(digits)))
  }

  /** The bytes a string stands for; a high and a low surrogate in a row are one code point. */
  function Decoded(items: seq<Item>): Bytes {
    if items == [] then []
    else if StartsPair(items) then
      PairMeaning(CodeUnit(items[0].digits), CodeUnit(items[1].digits)) + Decoded(items[2..])
    else ItemMeaning(items[0]) + Decoded(items[1..])
  }

  function Meaning(v: Syntax): Value
    decreases v, 0
  {
    match v
    case Word(l) => if l.Null? then VNull else VBool(l.True?)
    case Number(_, _, _, _) => VNumber(NumberText(v))
    case String(items) => VString(Decoded(items))
    case Group(isObject, inner, entries) => VGroup(isObject, Members(entries))
  }

  function MemberOf(e: Entry): Member
    decreases e, 1
  {
    Member(if e.name.NoName? then [] else Decoded(e.name.items), Meaning(e.value))
  }

  function Members(es: seq<Entry>): (ms: seq<Member>)
    ensures |ms| == |es|
    decreases es, 2
  {
    if es == [] then [] else [MemberOf(es[0])] + Members(es[1..])
  }
}
