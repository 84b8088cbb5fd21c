/** Values written out as JSON, and that the reader gives every one of them back. */
module JsonValues {
  import opened Octets
  import opened JsonSyntax
  import opened JsonTree
  import opened JsonReader
  import W = JsonWriter
  import P = JsonParser
  import C = JsonComplete

  /** A number as JSON has it, which the conversion accepts. */
  ghost predicate IsNumber(text: Bytes, limits: Limits) {
    exists n: Syntax :: n.Number? && LegalNumber(n, limits) && NumberText(n) == text
  }

  /** A value that a document can hold: nested within the limit, its numbers JSON, its array elements without names. */
  ghost predicate Writable(v: Value, depth: nat, limits: Limits)
    decreases v, 0
  {
    && depth <= limits.depth
    && match v
       case VNull => true
       case VBool(_) => true
       case VNumber(text) => IsNumber(text, limits)
       case VString(_) => true
       case VGroup(isObject, members) => AllWritable(members, isObject, depth, limits)
  }

  ghost predicate AllWritable(ms: seq<Member>, isObject: bool, depth: nat, limits: Limits)
    decreases ms, 1
  {
    forall i :: 0 <= i < |ms| ==> (isObject || ms[i].key == []) && Writable(ms[i].value, depth + 1, limits)
  }

  /** A value in JSON, without any space. */
  function Written(v: Value): Bytes
    decreases v, 0
  {
    match v
    case VNull => Ascii("null")
    case VBool(b) => if b then Ascii("true") else Ascii("false")
    case VNumber(text) => text
    case VString(bytes) => Quoted(bytes)
    case VGroup(isObject, ms) =>
      if isObject then Ascii("{") + WrittenAll(ms, true) + Ascii("}")
      else Ascii("[") + WrittenAll(ms, false) + Ascii("]")
  }

  function Quoted(bytes: Bytes): Bytes {
    Ascii("\"") + ItemsText(W.EscapedAll(bytes)) + Ascii("\"")
  }

  function WrittenMember(m: Member, isObject: bool): Bytes
    decreases m, 1
  {
    (if isObject then Quoted(m.key) + Ascii(":") else []) + Written(m.value)
  }

  function WrittenAll(ms: seq<Member>, isObject: bool): Bytes
    decreases ms, 2
  {
    if ms == [] then []
    else if |ms| == 1 then WrittenMember(ms[0], isObject)
    else WrittenMember(ms[0], isObject) + Ascii(",") + WrittenAll(ms[1..], isObject)
  }

  // --- the syntax that is written ---

  ghost function SyntaxOf(v: Value, depth: nat, limits: Limits): Syntax
    requires Writable(v, depth, limits)
    decreases v, 0
  {
    match v
    case VNull => Word(Null)
    case VBool(b) => Word(if b then True else False)
    case VNumber(text) => var n: Syntax :| n.Number? && LegalNumber(n, limits) && NumberText(n) == text; n
    case VString(bytes) => String(W.EscapedAll(bytes))
    case VGroup(isObject, ms) => Group(isObject, [], EntriesOf(ms, isObject, depth, limits))
  }

  ghost function EntryOf(m: Member, isObject: bool, depth: nat, limits: Limits): Entry
    requires Writable(m.value, depth + 1, limits)
    decreases m, 1
  {
    Entry(if isObject then Name([], W.EscapedAll(m.key), []) else NoName, [], SyntaxOf(m.value, depth + 1, limits), [])
  }

  ghost function EntriesOf(ms: seq<Member>, isObject: bool, depth: nat, limits: Limits): (es: seq<Entry>)
    requires AllWritable(ms, isObject, depth, limits)
    ensures |es| == |ms|
    decreases ms, 2
  {
    if ms == [] then [] else [EntryOf(ms[0], isObject, depth, limits)] + EntriesOf(ms[1..], isObject, depth, limits)
  }

  lemma QuotedIs(bytes: Bytes)
    ensures Quoted(bytes) == StringText(W.EscapedAll(bytes))
  {
    assert Ascii("\"") == [QUOTE];
  }

  lemma WordsAre()
    ensures Ascii("null") == NULL_TEXT && Ascii("true") == TRUE_TEXT && Ascii("false") == FALSE_TEXT
    ensures Ascii("{") == [Open(true)] && Ascii("}") == [Close(true)]
    ensures Ascii("[") == [Open(false)] && Ascii("]") == [Close(false)]
    ensures Ascii(",") == [COMMA] && Ascii(":") == [COLON]
  {
  }

  /** The syntax tree is legal, it is written that way, and it means the value. */
  ghost predicate Stands(x: Syntax, v: Value, depth: nat, limits: Limits) {
    Legal(x, depth, limits) && Text(x) == Written(v) && Meaning(x) == v
  }

  ghost predicate EntriesStand(es: seq<Entry>, ms: seq<Member>, isObject: bool, depth: nat, limits: Limits) {
    && LegalEntries(es, isObject, depth, limits) && EntriesText(es) == WrittenAll(ms, isObject) && Members(es) == ms
    && (forall i :: 0 <= i < |es| ==> FirstSpace(es[i]) == [])
  }

  lemma {:induction false} SyntaxStands(v: Value, depth: nat, limits: Limits)
    requires Writable(v, depth, limits)
    ensures Stands(SyntaxOf(v, depth, limits), v, depth, limits)
    decreases v, 0
  {
    WordsAre();
    match v
    case VNull =>
    case VBool(_) =>
    case VNumber(_) =>
    case VString(bytes) =>
      QuotedIs(bytes);
      W.EscapeThenRead(bytes);
    case VGroup(isObject, ms) =>
      EntriesAllStand(ms, isObject, depth, limits);
      GroupStands(EntriesOf(ms, isObject, depth, limits), ms, isObject, depth, limits);
  }

  lemma NothingInside(open: Bytes, text: Bytes, close: Bytes)
    ensures open + [] + text + close == open + text + close
  {
  }

  lemma {:induction false} GroupStands(es: seq<Entry>, ms: seq<Member>, isObject: bool, depth: nat, limits: Limits)
    requires depth <= limits.depth && EntriesStand(es, ms, isObject, depth, limits)
    ensures Stands(Group(isObject, [], es), VGroup(isObject, ms), depth, limits)
  {
    WordsAre();
    P.LegalGroup(isObject, [], es, depth, limits);
    NothingInside([Open(isObject)], EntriesText(es), [Close(isObject)]);
  }

  lemma NamedStands(m: Member, x: Syntax, e: Entry)
    requires Text(x) == Written(m.value) && e == Entry(Name([], W.EscapedAll(m.key), []), [], x, [])
    ensures EntryText(e) == WrittenMember(m, true)
  {
    WordsAre();
    QuotedIs(m.key);
    W.NothingBetween(StringText(W.EscapedAll(m.key)), Text(x));
  }

  lemma BareStands(m: Member, x: Syntax, e: Entry)
    requires Text(x) == Written(m.value) && e == Entry(NoName, [], x, [])
    ensures EntryText(e) == WrittenMember(m, false)
  {
    assert [] + [] + Text(x) + [] == Text(x) == [] + Text(x);
  }

  /** An entry of a group stands for a member. */
  ghost predicate EntryStands(e: Entry, m: Member, isObject: bool, depth: nat, limits: Limits) {
    && LegalEntry(e, isObject, depth, limits) && EntryText(e) == WrittenMember(m, isObject) && MemberOf(e) == m
    && FirstSpace(e) == []
  }

  lemma {:induction false} OneEntryStands(m: Member, isObject: bool, depth: nat, limits: Limits, x: Syntax, e: Entry)
    requires Stands(x, m.value, depth + 1, limits) && (isObject || m.key == [])
    requires e == Entry(if isObject then Name([], W.EscapedAll(m.key), []) else NoName, [], x, [])
    ensures EntryStands(e, m, isObject, depth, limits)
  {
    W.EscapeThenRead(m.key);
    if isObject {
      NamedStands(m, x, e);
    } else {
      BareStands(m, x, e);
    }
  }

  lemma {:induction false} EntriesAllStand(ms: seq<Member>, isObject: bool, depth: nat, limits: Limits)
    requires AllWritable(ms, isObject, depth, limits)
    ensures EntriesStand(EntriesOf(ms, isObject, depth, limits), ms, isObject, depth, limits)
    decreases ms, 1
  {
    if ms != [] {
      var m, rest := ms[0], ms[1..];
      var e, es := EntryOf(m, isObject, depth, limits), EntriesOf(rest, isObject, depth, limits);
      SyntaxStands(m.value, depth + 1, limits);
      OneEntryStands(m, isObject, depth, limits, SyntaxOf(m.value, depth + 1, limits), e);
      EntriesAllStand(rest, isObject, depth, limits);
      OneMoreStands(e, es, m, rest, isObject, depth, limits);
      assert [m] + rest == ms;
    }
  }

  lemma {:induction false} OneMoreStands(e: Entry, es: seq<Entry>, m: Member, ms: seq<Member>, isObject: bool,
                                         depth: nat, limits: Limits)
    requires EntryStands(e, m, isObject, depth, limits) && EntriesStand(es, ms, isObject, depth, limits)
    requires |es| == |ms|
    ensures EntriesStand([e] + es, [m] + ms, isObject, depth, limits)
  {
    WordsAre();
    assert ([e] + es)[1..] == es && ([m] + ms)[1..] == ms;
  }

  // --- reading it back ---

  /** A value that is written out, with any space around it, reads back as the value. */
  lemma WrittenReadsBack(v: Value, lead: Bytes, trail: Bytes, limits: Limits)
    requires Writable(v, 0, limits) && AllSpace(lead) && AllSpace(trail)
    ensures var p := P.ParseDocument(lead + Written(v) + trail, limits); p.Parsed? && Meaning(p.value.value) == v
  {
    SyntaxStands(v, 0, limits);
    C.DocumentComplete(Document(lead, SyntaxOf(v, 0, limits), trail), limits);
  }

  /** The reader turns the text of a value, with any space around it, into nodes that stand for the value. */
  method ParseWritten(doc: JsonDoc, text: Bytes, ghost v: Value, ghost lead: Bytes, ghost trail: Bytes)
    requires Writable(v, 0, doc.limits) && AllSpace(lead) && AllSpace(trail) && text == lead + Written(v) + trail
    modifies doc
    ensures Represents(doc.nodes, doc.pool, v)
  {
    WrittenReadsBack(v, lead, trail, doc.limits);
    var ok := doc.Parse(text);
  }

  /** For the literals that is one node: a null, or a boolean of that truth. */
  lemma LiteralNodes(nodes: seq<Node>, pool: Bytes, v: Value)
    requires Represents(nodes, pool, v) && (v.VNull? || v.VBool?)
    ensures |nodes| == 1
    ensures v == VNull ==> nodes[0].kind == NullNode
    ensures v == VBool(true) ==> nodes[0].kind == BoolNode && nodes[0].boolean
    ensures v == VBool(false) ==> nodes[0].kind == BoolNode && !nodes[0].boolean
  {
  }
}
