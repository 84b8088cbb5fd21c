/** The reader itself: one pass over the text that appends nodes and pool bytes in place. */
module JsonReader {
  import opened Octets
  import opened JsonSyntax
  import opened JsonTree
  import P = JsonParser

  lemma Drop(s: Bytes, a: nat, b: nat)
    requires a + b <= |s|
    ensures s[a..][b..] == s[a + b..]
  {
  }

  lemma SpacesStep(s: Bytes, at: nat)
    requires at < |s| && IsSpace(s[at])
    ensures P.Spaces(s[at..]) == 1 + P.Spaces(s[at + 1..])
  {
    Drop(s, at, 1);
  }

  lemma DigitsStep(s: Bytes, at: nat)
    requires at < |s| && IsDigit(s[at])
    ensures P.Digits(s[at..]) == 1 + P.Digits(s[at + 1..])
  {
    Drop(s, at, 1);
  }

  /** What ParseNumber rejects before the point. */
  predicate BadWhole(s: Bytes) {
    P.Digits(s) == 0 || (s[0] == ZERO && P.Digits(s) > 1)
  }

  lemma SameText(a: Bytes, r: Bytes, s: Bytes, from: nat, to: nat)
    requires from <= to <= |s| && a + r == s[from..] && r == s[to..]
    ensures a == s[from..to]
  {
    assert |a| == to - from;
    assert a == (a + r)[..|a|];
  }

  // --- one character of a string ---

  predicate HexAt(s: Bytes, at: nat) {
    at + 4 <= |s| && forall i :: at <= i < at + 4 ==> IsHex(s[i])
  }

  /** The next character is an escape of four hex digits. */
  predicate HexNext(s: Bytes) {
    |s| >= 6 && s[0] == BACKSLASH && s[1] == SMALL_U && HexAt(s, 2)
  }

  function HexUnit(s: Bytes): (unit: nat)
    requires HexNext(s)
    ensures unit < 0x10000
  {
    CodeUnit(s[2..6])
  }

  lemma HexOf(text: Bytes, at: nat)
    requires at + 6 <= |text|
    ensures HexAt(text[at..], 2) <==> HexAt(text, at + 2)
    ensures text[at..][2..6] == text[at + 2..at + 6]
  {
    if HexAt(text[at..], 2) {
      forall i | at + 2 <= i < at + 6 ensures IsHex(text[i]) {
        assert text[at..][i - at] == text[i];
      }
    }
  }

  predicate LowNext(s: Bytes) {
    HexNext(s) && IsLow(HexUnit(s))
  }

  /** The next two characters are the escapes of a surrogate pair. */
  predicate PairNext(s: Bytes) {
    HexNext(s) && IsHigh(HexUnit(s)) && LowNext(s[6..])
  }

  function PairText(s: Bytes): Bytes
    requires PairNext(s)
  {
    PairMeaning(HexUnit(s), HexUnit(s[6..]))
  }

  lemma ParsesHex(s: Bytes)
    requires HexNext(s)
    ensures P.ParseItem(s) == P.Parsed(Hex(s[2..6]), s[6..])
  {
  }

  lemma HexIsNext(s: Bytes)
    requires s != [] && P.ParseItem(s).Parsed? && P.ParseItem(s).value.Hex?
    ensures HexNext(s)
  {
    assert IsHex(s[2]) && IsHex(s[3]) && IsHex(s[4]) && IsHex(s[5]);
  }

  /** What is still to be read of a string, given what is already in the pool: from rest the same string results. */
  predicate StringLeads(whole: Bytes, before: Bytes, rest: Bytes, pool: Bytes) {
    var p, q := P.ParseItems(whole), P.ParseItems(rest);
    && p.Parsed? == q.Parsed?
    && (p.Parsed? ==> before + Decoded(p.value) == pool + Decoded(q.value) && p.rest == q.rest)
  }

  lemma Decodes(item: Item, items: seq<Item>)
    requires !StartsPair([item] + items)
    ensures Decoded([item] + items) == ItemMeaning(item) + Decoded(items)
  {
    assert ([item] + items)[1..] == items;
  }

  /** A character that starts no surrogate pair adds its own meaning. */
  lemma ItemLeads(whole: Bytes, before: Bytes, s: Bytes, pool: Bytes)
    requires s != [] && s[0] != QUOTE && P.ParseItem(s).Parsed? && StringLeads(whole, before, s, pool)
    requires var p := P.ParseItem(s); p.value.Hex? && IsHigh(CodeUnit(p.value.digits)) ==> !LowNext(p.rest)
    ensures var p := P.ParseItem(s); StringLeads(whole, before, p.rest, pool + ItemMeaning(p.value))
  {
    var p := P.ParseItem(s);
    var q := P.ParseItems(p.rest);
    if q.Parsed? {
      NoPair(p.value, p.rest);
      Decodes(p.value, q.value);
      P.Glue2(pool, ItemMeaning(p.value), Decoded(q.value));
    }
  }

  lemma NoPair(item: Item, s: Bytes)
    requires P.ParseItems(s).Parsed? && (item.Hex? && IsHigh(CodeUnit(item.digits)) ==> !LowNext(s))
    ensures !StartsPair([item] + P.ParseItems(s).value)
  {
    if P.ParseItems(s).value != [] && P.ParseItems(s).value[0].Hex? {
      HexIsNext(s);
      ParsesHex(s);
    }
  }

  /** Two escapes that make a surrogate pair add one code point. */
  lemma PairLeads(whole: Bytes, before: Bytes, s: Bytes, pool: Bytes)
    requires PairNext(s) && StringLeads(whole, before, s, pool)
    ensures StringLeads(whole, before, s[12..], pool + PairText(s))
  {
    PairParses(s, s[6..]);
    var q := P.ParseItems(s[12..]);
    if q.Parsed? {
      DecodesPair(Hex(s[2..6]), Hex(s[6..][2..6]), q.value);
      P.Glue2(pool, PairText(s), Decoded(q.value));
    }
  }

  lemma PairParses(s: Bytes, t: Bytes)
    requires HexNext(s) && t == s[6..] && HexNext(t)
    ensures var p, q := P.ParseItems(s), P.ParseItems(s[12..]);
            p.Parsed? == q.Parsed? &&
            (p.Parsed? ==> p.value == [Hex(s[2..6])] + ([Hex(t[2..6])] + q.value) && p.rest == q.rest)
  {
    ParsesHex(s);
    ParsesHex(t);
    Drop(s, 6, 6);
  }

  lemma DecodesPair(high: Item, low: Item, items: seq<Item>)
    requires high.Hex? && low.Hex? && IsHigh(CodeUnit(high.digits)) && IsLow(CodeUnit(low.digits))
    ensures Decoded([high] + ([low] + items)) == PairMeaning(CodeUnit(high.digits), CodeUnit(low.digits)) +
            Decoded(items)
  {
    var all := [high] + ([low] + items);
    assert all[0] == high && all[1] == low && all[2..] == items;
  }

  lemma EscapeLeads(whole: Bytes, before: Bytes, s: Bytes, pool: Bytes)
    requires HexNext(s) && StringLeads(whole, before, s, pool)
    ensures if PairNext(s) then StringLeads(whole, before, s[12..], pool + PairText(s))
            else StringLeads(whole, before, s[6..], pool + ItemMeaning(Hex(s[2..6])))
  {
    if PairNext(s) {
      PairLeads(whole, before, s, pool);
    } else {
      ParsesHex(s);
      ItemLeads(whole, before, s, pool);
    }
  }

  // --- members of an object or elements of an array ---

  /** What is still to be read of a group, given the members already done. */
  predicate EntriesLead(whole: Bytes, rest: Bytes, done: seq<Member>, isObject: bool, depth: nat, limits: Limits) {
    var p, q := P.ParseEntries(whole, isObject, depth, limits), P.ParseEntries(rest, isObject, depth, limits);
    && p.Parsed? == q.Parsed?
    && (p.Parsed? ==> Members(p.value) == done + Members(q.value) && p.rest == q.rest)
  }

  lemma MembersOf(e: Entry, es: seq<Entry>)
    ensures Members([e] + es) == [MemberOf(e)] + Members(es)
  {
    assert ([e] + es)[1..] == es;
  }

  /** A group by its first entry and the rest. */
  lemma EntriesOf(s: Bytes, isObject: bool, depth: nat, limits: Limits)
    requires var p := P.ParseEntry(s, isObject, depth, limits); p.Parsed? && p.rest != [] && p.rest[0] == COMMA
    ensures var p := P.ParseEntry(s, isObject, depth, limits);
            var q := P.ParseEntries(p.rest[1..], isObject, depth, limits);
            P.ParseEntries(s, isObject, depth, limits) ==
            if q.Parsed? then P.Parsed([p.value] + q.value, q.rest) else P.Failed
  {
  }

  lemma OneMoreDone(all: seq<Member>, done: seq<Member>, e: Entry, es: seq<Entry>)
    requires all == done + Members([e] + es)
    ensures all == done + [MemberOf(e)] + Members(es)
  {
    MembersOf(e, es);
    assert done + ([MemberOf(e)] + Members(es)) == done + [MemberOf(e)] + Members(es);
  }

  /** After an entry and a comma. */
  lemma EntryLeads(whole: Bytes, s: Bytes, done: seq<Member>, isObject: bool, depth: nat, limits: Limits)
    requires EntriesLead(whole, s, done, isObject, depth, limits)
    requires var p := P.ParseEntry(s, isObject, depth, limits); p.Parsed? && p.rest != [] && p.rest[0] == COMMA
    ensures var p := P.ParseEntry(s, isObject, depth, limits);
            EntriesLead(whole, p.rest[1..], done + [MemberOf(p.value)], isObject, depth, limits)
  {
    EntriesOf(s, isObject, depth, limits);
    var p := P.ParseEntry(s, isObject, depth, limits);
    var q := P.ParseEntries(p.rest[1..], isObject, depth, limits);
    if q.Parsed? {
      OneMoreDone(Members(P.ParseEntries(whole, isObject, depth, limits).value), done, p.value, q.value);
    }
  }

  /** After an entry and the closing bracket or brace. */
  lemma LastEntryLeads(whole: Bytes, s: Bytes, done: seq<Member>, isObject: bool, depth: nat, limits: Limits)
    requires EntriesLead(whole, s, done, isObject, depth, limits)
    requires var p := P.ParseEntry(s, isObject, depth, limits);
             p.Parsed? && p.rest != [] && p.rest[0] == Close(isObject)
    ensures var p, q := P.ParseEntry(s, isObject, depth, limits), P.ParseEntries(whole, isObject, depth, limits);
            q.Parsed? && Members(q.value) == done + [MemberOf(p.value)] && q.rest == p.rest[1..]
  {
    var p := P.ParseEntry(s, isObject, depth, limits);
    assert Close(isObject) != COMMA;
    assert P.ParseEntries(s, isObject, depth, limits) == P.Parsed([p.value], p.rest[1..]);
    assert [p.value] == [p.value] + [];
    MembersOf(p.value, []);
  }

  /** One more node array of a parsed value: what is appended by a parse, with an unlinked root at the old end. */
  predicate Appends(nodes: seq<Node>, pool: Bytes, nodes2: seq<Node>, pool2: Bytes, v: Value) {
    && nodes <= nodes2 && pool <= pool2
    && |nodes2| == |nodes| + Size(v)
    && TreeAt(nodes2, pool2, |nodes|, v)
    && nodes2[|nodes|].nextSibling == -1
  }

  /** A parse of a value, with an empty key so far. */
  predicate AppendsValue(nodes: seq<Node>, pool: Bytes, nodes2: seq<Node>, pool2: Bytes, v: Value) {
    Appends(nodes, pool, nodes2, pool2, v) && nodes2[|nodes|].keyFrom == 0 && nodes2[|nodes|].keySize == 0
  }

  predicate AppendsMember(nodes: seq<Node>, pool: Bytes, nodes2: seq<Node>, pool2: Bytes, m: Member) {
    Appends(nodes, pool, nodes2, pool2, m.value) && MemberAt(nodes2, pool2, |nodes|, m)
  }

  // --- linking members to their group ---

  /** The node array while the group at its old end has these members so far. */
  predicate GroupSoFar(base: seq<Node>, pool0: Bytes, nodes: seq<Node>, pool: Bytes, isObject: bool,
                       done: seq<Member>, last: int) {
    var index := |base|;
    && base < nodes && pool0 <= pool
    && |nodes| == index + 1 + SizeAll(done)
    && nodes[index] ==
       Fresh(GroupKind(isObject)).(firstChild := if done == [] then -1 else index + 1, childCount := |done|)
    && ChainAt(nodes, pool, index + 1, done)
    && last == LastLink(index + 1, done)
  }

  function Attached(nodes: seq<Node>, index: nat, last: int, child: nat): seq<Node>
    requires index < |nodes| && last < |nodes|
  {
    var linked :=
      if last < 0 then nodes[index := nodes[index].(firstChild := child)]
      else nodes[last := nodes[last].(nextSibling := child)];
    linked[index := linked[index].(childCount := linked[index].childCount + 1)]
  }

  lemma AttachLinks(base: seq<Node>, pool0: Bytes, a: seq<Node>, pool: Bytes, isObject: bool, done: seq<Member>,
                    last: int, b: seq<Node>, more: Bytes, m: Member)
    requires GroupSoFar(base, pool0, a, pool, isObject, done, last) && AppendsMember(a, pool, b, more, m)
    ensures var c := Attached(b, |base|, last, |a|);
            Relinked(a, c, |base| + 1, |a|, last) && SameTree(b, c, |a|, |b|) && c[|a|] == b[|a|] && base < c &&
            |c| == |b|
  {
  }

  lemma Attaches(base: seq<Node>, pool0: Bytes, a: seq<Node>, pool: Bytes, isObject: bool, done: seq<Member>, last: int,
                 b: seq<Node>, more: Bytes, m: Member)
    requires GroupSoFar(base, pool0, a, pool, isObject, done, last) && AppendsMember(a, pool, b, more, m)
    ensures GroupSoFar(base, pool0, Attached(b, |base|, last, |a|), more, isObject, done + [m], |a|)
  {
    var c := Attached(b, |base|, last, |a|);
    AttachLinks(base, pool0, a, pool, isObject, done, last, b, more, m);
    TreeKept(b, c, more, more, |a|, m.value);
    ChainGrows(a, c, pool, more, |base| + 1, done, m, |a|, last);
    LastGrows(|base| + 1, done, m);
  }

  lemma GroupDone(base: seq<Node>, pool0: Bytes, nodes: seq<Node>, pool: Bytes, isObject: bool, done: seq<Member>,
                  last: int)
    requires GroupSoFar(base, pool0, nodes, pool, isObject, done, last)
    ensures AppendsValue(base, pool0, nodes, pool, VGroup(isObject, done))
  {
  }

  // --- what the methods of the reader promise ---

  predicate ReadsString(s: Bytes, ok: bool, rest: Bytes, pool: Bytes, from: nat, size: nat, pool2: Bytes) {
    var p := P.ParseItems(s);
    && ok == p.Parsed?
    && (ok ==> rest == p.rest && pool2 == pool + Decoded(p.value) && from == |pool| && size == |Decoded(p.value)|)
  }

  predicate ReadsKey(s: Bytes, ok: bool, rest: Bytes, pool: Bytes, from: nat, size: nat, pool2: Bytes) {
    var p := P.ParseName(s);
    && ok == p.Parsed?
    && (ok ==> p.value.Name? && rest == p.rest && pool2 == pool + Decoded(p.value.items) && from == |pool| &&
               size == |Decoded(p.value.items)|)
  }

  predicate ReadsValue(s: Bytes, depth: nat, limits: Limits, ok: bool, rest: Bytes,
                       nodes: seq<Node>, pool: Bytes, nodes2: seq<Node>, pool2: Bytes) {
    var p := P.ParseValue(s, depth, limits);
    && ok == p.Parsed?
    && (ok ==> rest == p.rest && AppendsValue(nodes, pool, nodes2, pool2, Meaning(p.value)))
    && (!ok ==> nodes2 == [])
  }

  predicate ReadsLeaf(s: Bytes, limits: Limits, ok: bool, rest: Bytes,
                      nodes: seq<Node>, pool: Bytes, nodes2: seq<Node>, pool2: Bytes)
    requires s != []
  {
    var p := P.ParseLeaf(s, limits);
    && ok == p.Parsed?
    && (ok ==> rest == p.rest && AppendsValue(nodes, pool, nodes2, pool2, Meaning(p.value)))
    && (!ok ==> nodes2 == [])
  }

  predicate ReadsGroup(s: Bytes, isObject: bool, depth: nat, limits: Limits, ok: bool, rest: Bytes,
                       nodes: seq<Node>, pool: Bytes, nodes2: seq<Node>, pool2: Bytes) {
    var p := P.ParseGroup(s, isObject, depth, limits);
    && ok == p.Parsed?
    && (ok ==> rest == p.rest && AppendsValue(nodes, pool, nodes2, pool2, Meaning(p.value)))
    && (!ok ==> nodes2 == [])
  }

  predicate ReadsSpaced(s: Bytes, name: Name, depth: nat, limits: Limits, ok: bool, rest: Bytes,
                        nodes: seq<Node>, pool: Bytes, nodes2: seq<Node>, pool2: Bytes) {
    var p := P.ParseSpaced(s, name, depth, limits);
    && ok == p.Parsed?
    && (ok ==> rest == p.rest && AppendsMember(nodes, pool, nodes2, pool2, MemberOf(p.value)))
    && (!ok ==> nodes2 == [])
  }

  predicate ReadsEntry(s: Bytes, isObject: bool, depth: nat, limits: Limits, ok: bool, rest: Bytes,
                       nodes: seq<Node>, pool: Bytes, nodes2: seq<Node>, pool2: Bytes) {
    var p := P.ParseEntry(s, isObject, depth, limits);
    && ok == p.Parsed?
    && (ok ==> rest == p.rest && AppendsMember(nodes, pool, nodes2, pool2, MemberOf(p.value)))
    && (!ok ==> nodes2 == [])
  }

  lemma LeafDone(nodes: seq<Node>, pool: Bytes, leaf: Node, more: Bytes, v: Value)
    requires pool <= more && !v.VGroup? && TreeAt([leaf], more, 0, v)
    requires leaf.nextSibling == -1 && leaf.keyFrom == 0 && leaf.keySize == 0
    ensures AppendsValue(nodes, pool, nodes + [leaf], more, v)
  {
  }

  function KeyOf(name: Name): Bytes {
    if name.NoName? then [] else Decoded(name.items)
  }

  /** The text of an entry after its name, by its value. */
  lemma SpacedOf(s: Bytes, name: Name, depth: nat, limits: Limits)
    ensures var e, v := P.ParseSpaced(s, name, depth, limits), P.ParseValue(s[P.Spaces(s)..], depth + 1, limits);
            e.Parsed? == v.Parsed? &&
            (e.Parsed? ==> e.rest == v.rest[P.Spaces(v.rest)..] &&
                           MemberOf(e.value) == Member(KeyOf(name), Meaning(v.value)))
  {
  }

  /** A member name by its steps. */
  lemma NameOf(s: Bytes)
    ensures var t := s[P.Spaces(s)..];
            if t == [] || t[0] != QUOTE || P.ParseItems(t[1..]).Failed? then P.ParseName(s).Failed?
            else
              var p := P.ParseItems(t[1..]);
              var gap := P.ParseGap(p.rest);
              P.ParseName(s) ==
                if gap.Parsed? then P.Parsed(Name(s[..P.Spaces(s)], p.value, gap.value), gap.rest) else P.Failed
  {
  }

  lemma EntryDone(s: Bytes, isObject: bool, depth: nat, limits: Limits, ok: bool, rest: Bytes,
                  nodes: seq<Node>, pool: Bytes, keyed: Bytes, nodes2: seq<Node>, pool2: Bytes)
    requires P.MaybeName(s, isObject).Parsed? && pool <= keyed
    requires var name := P.MaybeName(s, isObject);
             ReadsSpaced(name.rest, name.value, depth, limits, ok, rest, nodes, keyed, nodes2, pool2)
    ensures ReadsEntry(s, isObject, depth, limits, ok, rest, nodes, pool, nodes2, pool2)
  {
  }

  lemma NoKey(s: Bytes, depth: nat, limits: Limits, rest: Bytes, nodes: seq<Node>, pool: Bytes, nodes2: seq<Node>,
              pool2: Bytes)
    requires P.ParseName(s).Failed? && nodes2 == []
    ensures ReadsEntry(s, true, depth, limits, false, rest, nodes, pool, nodes2, pool2)
  {
  }

  lemma NumberDispatch(s: Bytes, limits: Limits)
    requires s != [] && P.StartsNumber(s[0])
    ensures P.ParseLeaf(s, limits) == P.ParseNumber(s, limits)
  {
  }

  /** The text of the number that comes first, unless there is none or the conversion refuses it. */
  predicate ReadsNumber(s: Bytes, limits: Limits, ok: bool, rest: Bytes, text: Bytes) {
    var p := P.ParseNumber(s, limits);
    ok == p.Parsed? && (ok ==> p.value.Number? && rest == p.rest && text == NumberText(p.value))
  }

  lemma NumberDone(s: Bytes, limits: Limits, text: Bytes, rest: Bytes, nodes: seq<Node>, pool: Bytes)
    requires s != [] && P.StartsNumber(s[0]) && ReadsNumber(s, limits, true, rest, text)
    ensures ReadsLeaf(s, limits, true, rest, nodes, pool, nodes + [Fresh(NumberNode).(number := text)], pool)
  {
    NumberDispatch(s, limits);
    LeafDone(nodes, pool, Fresh(NumberNode).(number := text), pool, VNumber(text));
  }

  lemma NoNumber(s: Bytes, limits: Limits, rest: Bytes, nodes: seq<Node>, pool: Bytes)
    requires s != [] && P.StartsNumber(s[0]) && P.ParseNumber(s, limits).Failed?
    ensures ReadsLeaf(s, limits, false, rest, nodes, pool, [], pool)
  {
    NumberDispatch(s, limits);
  }

  predicate HasDigits(e: Exponent) {
    e.Exponent? ==> e.digits != []
  }

  /** An exponent by its steps. */
  lemma ExponentOf(s: Bytes)
    requires s != [] && (s[0] == SMALL_E || s[0] == BIG_E)
    ensures var w := P.ParseSign(s[1..]).rest;
            P.ParseExponent(s).rest == w[P.Digits(w)..] && (HasDigits(P.ParseExponent(s).value) <==> P.Digits(w) > 0)
  {
  }

  /** A number by its steps. */
  lemma ScanOf(s: Bytes)
    ensures var t := if s != [] && s[0] == MINUS then s[1..] else s;
            P.ScanNumber(s).Parsed? == !BadWhole(t) &&
            (!BadWhole(t) ==>
              var tail := P.ParseTail(t[P.Digits(t)..]);
              P.ScanNumber(s).rest == tail.rest && P.ScanNumber(s).value.exponent == tail.value.1)
  {
  }

  lemma KeyPatched(nodes: seq<Node>, pool: Bytes, keyed: Bytes, nodes2: seq<Node>, pool2: Bytes, v: Value, from: nat,
                   size: nat, key: Bytes)
    requires AppendsValue(nodes, keyed, nodes2, pool2, v) && pool <= keyed && TextAt(keyed, from, size, key)
    ensures AppendsMember(nodes, pool, nodes2[|nodes| := nodes2[|nodes|].(keyFrom := from, keySize := size)], pool2,
                          Member(key, v))
  {
    var b := nodes2[|nodes| := nodes2[|nodes|].(keyFrom := from, keySize := size)];
    TreeKept(nodes2, b, pool2, pool2, |nodes|, v);
    TextKept(keyed, pool2, from, size, key);
  }

  /** A group that is not closed at once by its entries. */
  lemma GroupOf(s: Bytes, isObject: bool, depth: nat, limits: Limits)
    ensures var t, g := s[P.Spaces(s)..], P.ParseGroup(s, isObject, depth, limits);
            if t != [] && t[0] == Close(isObject) then
              g.Parsed? && g.rest == t[1..] && Meaning(g.value) == VGroup(isObject, [])
            else
              var p := P.ParseEntries(t, isObject, depth, limits);
              g.Parsed? == p.Parsed? &&
              (g.Parsed? ==> g.rest == p.rest && Meaning(g.value) == VGroup(isObject, Members(p.value)))
  {
  }

  lemma EmptyGroup(base: seq<Node>, pool: Bytes, nodes: seq<Node>, isObject: bool)
    requires nodes == base + [Fresh(GroupKind(isObject))]
    ensures AppendsValue(base, pool, nodes, pool, VGroup(isObject, []))
  {
    GroupDone(base, pool, nodes, pool, isObject, [], -1);
  }

  lemma EmptyGroupReads(s: Bytes, isObject: bool, depth: nat, limits: Limits, nodes: seq<Node>, pool: Bytes,
                        nodes2: seq<Node>)
    requires var t := s[P.Spaces(s)..]; t != [] && t[0] == Close(isObject)
    requires AppendsValue(nodes, pool, nodes2, pool, VGroup(isObject, []))
    ensures ReadsGroup(s, isObject, depth, limits, true, s[P.Spaces(s)..][1..], nodes, pool, nodes2, pool)
  {
    GroupOf(s, isObject, depth, limits);
  }

  lemma FilledGroupReads(s: Bytes, isObject: bool, depth: nat, limits: Limits, ok: bool, rest: Bytes,
                         nodes: seq<Node>, pool: Bytes, nodes2: seq<Node>, pool2: Bytes)
    requires var t := s[P.Spaces(s)..]; t == [] || t[0] != Close(isObject)
    requires var p := P.ParseEntries(s[P.Spaces(s)..], isObject, depth, limits);
             ok == p.Parsed? && (!ok ==> nodes2 == []) &&
             (ok ==> rest == p.rest && AppendsValue(nodes, pool, nodes2, pool2, VGroup(isObject, Members(p.value))))
    ensures ReadsGroup(s, isObject, depth, limits, ok, rest, nodes, pool, nodes2, pool2)
  {
    GroupOf(s, isObject, depth, limits);
  }

  lemma GroupReadsValue(s: Bytes, depth: nat, limits: Limits, ok: bool, rest: Bytes,
                        nodes: seq<Node>, pool: Bytes, nodes2: seq<Node>, pool2: Bytes)
    requires depth <= limits.depth && s != [] && P.Opens(s[0])
    requires ReadsGroup(s[1..], s[0] == OPEN_BRACE, depth, limits, ok, rest, nodes, pool, nodes2, pool2)
    ensures ReadsValue(s, depth, limits, ok, rest, nodes, pool, nodes2, pool2)
  {
  }

  lemma LeafReadsValue(s: Bytes, depth: nat, limits: Limits, ok: bool, rest: Bytes,
                       nodes: seq<Node>, pool: Bytes, nodes2: seq<Node>, pool2: Bytes)
    requires depth <= limits.depth && s != [] && !P.Opens(s[0])
    requires ReadsLeaf(s, limits, ok, rest, nodes, pool, nodes2, pool2)
    ensures ReadsValue(s, depth, limits, ok, rest, nodes, pool, nodes2, pool2)
  {
  }

  /** After an entry and what follows it. */
  lemma AfterEntry(whole: Bytes, s: Bytes, done: seq<Member>, isObject: bool, depth: nat, limits: Limits,
                   ok: bool, more: bool, rest: Bytes)
    requires EntriesLead(whole, s, done, isObject, depth, limits) && P.ParseEntry(s, isObject, depth, limits).Parsed?
    requires Delimits(P.ParseEntry(s, isObject, depth, limits).rest, isObject, ok, more, rest)
    ensures var m := MemberOf(P.ParseEntry(s, isObject, depth, limits).value);
            var q := P.ParseEntries(whole, isObject, depth, limits);
            if !ok then q.Failed?
            else if more then EntriesLead(whole, rest, done + [m], isObject, depth, limits)
            else q.Parsed? && q.rest == rest && Members(q.value) == done + [m]
  {
    if !ok {
      NoEntryLeads(whole, s, done, isObject, depth, limits);
    } else if more {
      EntryLeads(whole, s, done, isObject, depth, limits);
    } else {
      LastEntryLeads(whole, s, done, isObject, depth, limits);
    }
  }

  /** A comma, or the closing bracket or brace, is next. */
  predicate Delimits(s: Bytes, isObject: bool, ok: bool, more: bool, rest: Bytes) {
    && ok == (s != [] && (s[0] == COMMA || s[0] == Close(isObject)))
    && (ok ==> more == (s[0] == COMMA) && rest == s[1..])
  }

  /** After an entry and anything else. */
  lemma NoEntryLeads(whole: Bytes, s: Bytes, done: seq<Member>, isObject: bool, depth: nat, limits: Limits)
    requires EntriesLead(whole, s, done, isObject, depth, limits)
    requires var p := P.ParseEntry(s, isObject, depth, limits);
             p.Parsed? ==> p.rest == [] || (p.rest[0] != COMMA && p.rest[0] != Close(isObject))
    ensures P.ParseEntries(whole, isObject, depth, limits).Failed?
  {
  }

  // --- the reader ---

  /** fits says which number texts the conversion to a double accepts. */
  class JsonDoc {
    const limits: Limits
    var src: Bytes
    var pos: nat
    var nodes: seq<Node>
    var pool: Bytes

    constructor (fits: Bytes -> bool)
      ensures limits.depth == 32 && limits.fits == fits && nodes == []
    {
      limits := Limits(MAX_DEPTH, fits);
      src, pos, nodes, pool := [], 0, [], [];
    }

    function Rest(): Bytes
      reads this
      requires pos <= |src|
    {
      src[pos..]
    }

    method Fail()
      modifies this`nodes
      ensures nodes == []
    {
      nodes := [];
    }

    method NewNode(kind: Kind) returns (index: nat)
      modifies this`nodes
      ensures index == |old(nodes)| && nodes == old(nodes) + [Fresh(kind)]
    {
      nodes := nodes + [Fresh(kind)];
      index := |nodes| - 1;
    }

    method SkipWhitespace()
      requires pos <= |src|
      modifies this`pos
      ensures pos == old(pos) + P.Spaces(old(Rest()))
      ensures pos <= |src| && Rest() == old(Rest())[P.Spaces(old(Rest()))..]
      ensures pos < |src| ==> !IsSpace(src[pos])
    {
      while pos < |src| && IsSpace(src[pos])
        invariant old(pos) <= pos <= |src| && P.Spaces(src[old(pos)..]) == (pos - old(pos)) + P.Spaces(src[pos..])
      {
        SpacesStep(src, pos);
        pos := pos + 1;
      }
      assert P.Spaces(src[pos..]) == 0;
      Drop(src, old(pos), pos - old(pos));
    }

    method AppendUtf8(cp: nat) returns (ok: bool)
      modifies this`pool
      ensures ok == (cp <= 0x10FFFF)
      ensures pool == old(pool) + (if ok then Utf8(cp) else [])
    {
      ok := true;
      if cp <= 0x7F {
        pool := pool + [cp];
      } else if cp <= 0x7FF {
        pool := pool + [0xC0 + cp / 64];
        pool := pool + [0x80 + cp % 64];
      } else if cp <= 0xFFFF {
        pool := pool + [0xE0 + cp / 4096];
        pool := pool + [0x80 + cp / 64 % 64];
        pool := pool + [0x80 + cp % 64];
      } else if cp <= 0x10FFFF {
        pool := pool + [0xF0 + cp / 262144];
        pool := pool + [0x80 + cp / 4096 % 64];
        pool := pool + [0x80 + cp / 64 % 64];
        pool := pool + [0x80 + cp % 64];
      } else {
        ok := false;
      }
    }

    /** Four hex digits as a code unit. */
    method ReadHex(at: nat) returns (ok: bool, unit: nat)
      requires at + 4 <= |src|
      ensures ok == HexAt(src, at)
      ensures ok ==> unit == CodeUnit(src[at..at + 4])
    {
      ok, unit := true, 0;
      var i := 0;
      ghost var digits := src[at..at + 4];
      while i < 4
        invariant 0 <= i <= 4 && (ok <==> forall k :: at <= k < at + i ==> IsHex(src[k]))
        invariant unit == HexPrefix(digits, i)
      {
        if !IsHex(src[at + i]) {
          ok := false;
          return;
        }
        unit := unit * 16 + HexValue(src[at + i]);
        i := i + 1;
      }
      PrefixIsUnit(digits);
    }

    method SkipDigits()
      requires pos <= |src|
      modifies this`pos
      ensures pos == old(pos) + P.Digits(old(Rest()))
      ensures pos <= |src| && Rest() == old(Rest())[P.Digits(old(Rest()))..]
    {
      while pos < |src| && IsDigit(src[pos])
        invariant old(pos) <= pos <= |src| && P.Digits(src[old(pos)..]) == (pos - old(pos)) + P.Digits(src[pos..])
      {
        DigitsStep(src, pos);
        pos := pos + 1;
      }
      assert P.Digits(src[pos..]) == 0;
      Drop(src, old(pos), pos - old(pos));
    }

    method SkipFraction()
      requires pos <= |src|
      modifies this`pos
      ensures old(pos) <= pos <= |src| && Rest() == P.ParseFraction(old(Rest())).rest
    {
      if pos < |src| && src[pos] == DOT {
        pos := pos + 1;
        Drop(src, old(pos), 1);
        SkipDigits();
      }
    }

    method SkipSign()
      requires pos <= |src|
      modifies this`pos
      ensures old(pos) <= pos <= |src| && Rest() == P.ParseSign(old(Rest())).rest
    {
      if pos < |src| && (src[pos] == PLUS || src[pos] == MINUS) {
        Drop(src, pos, 1);
        pos := pos + 1;
      }
    }

    /** Skips an exponent and says whether it has digits. */
    method SkipExponent() returns (complete: bool)
      requires pos <= |src|
      modifies this`pos
      ensures old(pos) <= pos <= |src| && Rest() == P.ParseExponent(old(Rest())).rest
      ensures complete == HasDigits(P.ParseExponent(old(Rest())).value)
    {
      complete := true;
      if pos < |src| && (src[pos] == SMALL_E || src[pos] == BIG_E) {
        ExponentOf(Rest());
        pos := pos + 1;
        Drop(src, old(pos), 1);
        SkipSign();
        var first := pos;
        SkipDigits();
        complete := pos > first;
      }
    }

    /** What may follow the first digits. */
    method SkipTail() returns (complete: bool)
      requires pos <= |src|
      modifies this`pos
      ensures old(pos) <= pos <= |src| && Rest() == P.ParseTail(old(Rest())).rest
      ensures complete == HasDigits(P.ParseTail(old(Rest())).value.1)
    {
      SkipFraction();
      complete := SkipExponent();
    }

    /** Skips the digits before the point: at least one, and no zero before others. */
    method SkipWhole() returns (ok: bool)
      requires pos <= |src|
      modifies this`pos
      ensures old(pos) <= pos <= |src| && ok == !BadWhole(old(Rest()))
      ensures ok ==> Rest() == old(Rest())[P.Digits(old(Rest()))..]
    {
      ok := false;
      if pos == |src| || !IsDigit(src[pos]) {
        return;
      }
      if src[pos] == ZERO {
        DigitsStep(src, pos);
        if pos + 1 < |src| && IsDigit(src[pos + 1]) {
          DigitsStep(src, pos + 1);
          return;
        }
      }
      SkipDigits();
      ok := true;
    }

    method SkipMinus()
      requires pos <= |src|
      modifies this`pos
      ensures old(pos) <= pos <= |src|
      ensures var s := old(Rest()); Rest() == if s != [] && s[0] == MINUS then s[1..] else s
    {
      if pos < |src| && src[pos] == MINUS {
        Drop(src, pos, 1);
        pos := pos + 1;
      }
    }

    /** Skips a number and says whether its exponent, if it has one, has digits. */
    method SkipNumber() returns (ok: bool, complete: bool)
      requires pos <= |src|
      modifies this`pos
      ensures old(pos) <= pos <= |src| && ok == P.ScanNumber(old(Rest())).Parsed?
      ensures ok ==> Rest() == P.ScanNumber(old(Rest())).rest &&
                     complete == HasDigits(P.ScanNumber(old(Rest())).value.exponent)
    {
      ScanOf(Rest());
      complete := false;
      SkipMinus();
      ok := SkipWhole();
      if ok {
        complete := SkipTail();
      }
    }

    /** The conversion is given the whole number; it fails on an exponent without digits and on a value out of range. */
    method ConvertNumber() returns (ok: bool, text: Bytes)
      requires pos <= |src|
      modifies this`pos
      ensures old(pos) <= pos <= |src| && ReadsNumber(old(Rest()), limits, ok, if ok then Rest() else [], text)
    {
      var start := pos;
      ghost var s := Rest();
      var complete;
      text := [];
      ok, complete := SkipNumber();
      if ok {
        P.ScanSound(s);
        SameText(NumberText(P.ScanNumber(s).value), P.ScanNumber(s).rest, src, start, pos);
        text := src[start..pos];
        ok := complete && limits.fits(text);
      }
    }

    method ParseNumber(index: nat) returns (ok: bool)
      requires pos < |src| && P.StartsNumber(src[pos]) && index == |nodes| - 1 && nodes[index] == Fresh(NumberNode)
      modifies this`pos, this`nodes
      ensures old(pos) <= pos <= |src|
      ensures ReadsLeaf(old(Rest()), limits, ok, Rest(), old(nodes[..index]), pool, nodes, pool)
    {
      ghost var s, base := Rest(), nodes[..index];
      var start := pos;
      var converted, text := ConvertNumber();
      ok := converted;
      if !ok {
        pos := start;
        Fail();
        NoNumber(s, limits, Rest(), base, pool);
        return;
      }
      SetNumber(index, text);
      NumberDone(s, limits, text, Rest(), base, pool);
    }

    method SetNumber(index: nat, text: Bytes)
      requires index == |nodes| - 1 && nodes[index] == Fresh(NumberNode)
      modifies this`nodes
      ensures nodes == old(nodes[..index]) + [Fresh(NumberNode).(number := text)]
    {
      nodes := nodes[index := nodes[index].(number := text)];
    }

    method ParseLiteral(literal: Literal) returns (ok: bool)
      requires pos <= |src|
      modifies this`pos, this`nodes
      ensures old(pos) <= pos <= |src| && ok == P.ParseWord(old(Rest()), literal).Parsed?
      ensures ok ==> Rest() == P.ParseWord(old(Rest()), literal).rest && nodes == old(nodes)
      ensures !ok ==> nodes == []
    {
      var n := |WordText(literal)|;
      if |src| - pos < n || src[pos..][..n] != WordText(literal) {
        Fail();
        return false;
      }
      Drop(src, pos, n);
      pos := pos + n;
      return true;
    }

    /** The code point of a high surrogate: with the low one that follows, or alone. */
    method TakeLow(high: nat) returns (cp: nat)
      requires pos <= |src| && IsHigh(high)
      modifies this`pos
      ensures old(pos) <= pos <= |src|
      ensures var t := old(Rest());
              if LowNext(t) then pos == old(pos) + 6 && cp == 0x10000 + (high - 0xD800) * 1024 + (HexUnit(t) - 0xDC00)
              else pos == old(pos) && cp == high
    {
      ghost var t := Rest();
      cp := high;
      if pos + 6 <= |src| && src[pos] == BACKSLASH && src[pos + 1] == SMALL_U {
        var paired, low := ReadHex(pos + 2);
        HexOf(src, pos);
        if paired && IsLow(low) {
          cp := 0x10000 + (high - 0xD800) * 1024 + (low - 0xDC00);
          pos := pos + 6;
        }
      }
    }

    /** The code point of an escape whose four digits come next, taking in the low half of a surrogate pair. */
    method ParseUnicodeEscape() returns (ok: bool)
      requires 2 <= pos <= |src| && src[pos - 2] == BACKSLASH && src[pos - 1] == SMALL_U
      modifies this`pos, this`pool
      ensures old(pos) <= pos <= |src| && ok == HexNext(src[old(pos) - 2..])
      ensures ok ==> var s := src[old(pos) - 2..];
                     if PairNext(s)
                     then pos == old(pos) + 10 && pool == old(pool) + PairText(s)
                     else pos == old(pos) + 4 && pool == old(pool) + ItemMeaning(Hex(s[2..6]))
    {
      ghost var s := src[pos - 2..];
      if pos + 4 > |src| {
        return false;
      }
      var cp;
      ok, cp := ReadHex(pos);
      assert ok == HexNext(s);
      if !ok {
        return;
      }
      assert src[pos..pos + 4] == s[2..6];
      pos := pos + 4;
      Drop(src, pos - 6, 6);
      if IsHigh(cp) {
        cp := TakeLow(cp);
      }
      if IsHigh(cp) || IsLow(cp) {
        cp := 0xFFFD;
      }
      ok := AppendUtf8(cp);
    }

    method ParseString() returns (ok: bool, from: nat, size: nat)
      requires pos < |src| && src[pos] == QUOTE
      modifies this`pos, this`pool, this`nodes
      ensures old(pos) < pos <= |src| && ReadsString(old(Rest())[1..], ok, Rest(), old(pool), from, size, pool)
      ensures nodes == if ok then old(nodes) else []
    {
      ghost var whole := Rest()[1..];
      pos := pos + 1;
      from, size := |pool|, 0;
      assert StringLeads(whole, old(pool), Rest(), pool);
      while pos < |src|
        invariant old(pos) < pos <= |src| && StringLeads(whole, old(pool), Rest(), pool)
        invariant nodes == old(nodes) && from == |old(pool)| && old(pool) <= pool
        decreases |src| - pos
      {
        if src[pos] == QUOTE {
          pos := pos + 1;
          size := |pool| - from;
          ok := true;
          return;
        }
        ghost var s := Rest();
        ok := ParseCharacter(whole, old(pool));
        if !ok {
          assert P.ParseItems(s).Failed?;
          Fail();
          return;
        }
      }
      Fail();
      ok := false;
    }

    /** One round of the loop of ParseString. */
    method ParseCharacter(ghost whole: Bytes, ghost before: Bytes) returns (ok: bool)
      requires pos < |src| && src[pos] != QUOTE && StringLeads(whole, before, Rest(), pool)
      modifies this`pos, this`pool
      ensures old(pos) <= pos <= |src| && ok == P.ParseItem(old(Rest())).Parsed?
      ensures ok ==> pos > old(pos) && old(pool) <= pool && StringLeads(whole, before, Rest(), pool)
    {
      if src[pos] == BACKSLASH {
        ok := ParseEscape(whole, before);
      } else {
        ok := src[pos] >= 32;
        if ok {
          ItemLeads(whole, before, Rest(), pool);
          pool := pool + [src[pos]];
          pos := pos + 1;
        }
      }
    }

    method ParseEscape(ghost whole: Bytes, ghost before: Bytes) returns (ok: bool)
      requires pos < |src| && src[pos] == BACKSLASH && StringLeads(whole, before, Rest(), pool)
      modifies this`pos, this`pool
      ensures old(pos) <= pos <= |src| && ok == P.ParseItem(old(Rest())).Parsed?
      ensures ok ==> pos > old(pos) && old(pool) <= pool && StringLeads(whole, before, Rest(), pool)
    {
      if pos + 1 == |src| {
        return false;
      }
      if src[pos + 1] != SMALL_U {
        ok := ParseShortEscape(whole, before);
        return;
      }
      ghost var s := Rest();
      pos := pos + 2;
      ok := ParseUnicodeEscape();
      if ok {
        EscapeLeads(whole, before, s, old(pool));
      }
    }

    method ParseShortEscape(ghost whole: Bytes, ghost before: Bytes) returns (ok: bool)
      requires pos + 1 < |src| && src[pos] == BACKSLASH && src[pos + 1] != SMALL_U &&
               StringLeads(whole, before, Rest(), pool)
      modifies this`pos, this`pool
      ensures old(pos) <= pos <= |src| && ok == P.ParseItem(old(Rest())).Parsed?
      ensures ok ==> pos > old(pos) && old(pool) <= pool && StringLeads(whole, before, Rest(), pool)
    {
      ghost var s := Rest();
      pos := pos + 2;
      ok := IsShortEscape(src[pos - 1]);
      if ok {
        ItemLeads(whole, before, s, pool);
        pool := pool + [ShortMeaning(src[pos - 1])];
      }
    }

    method SkipColon() returns (ok: bool)
      requires pos <= |src|
      modifies this`pos
      ensures old(pos) <= pos <= |src| && ok == P.ParseGap(old(Rest())).Parsed?
      ensures ok ==> Rest() == P.ParseGap(old(Rest())).rest
    {
      SkipWhitespace();
      ok := pos < |src| && src[pos] == COLON;
      if ok {
        Drop(src, old(pos), pos + 1 - old(pos));
        pos := pos + 1;
      }
    }

    /** A member name, up to its colon. */
    method ParseKey() returns (ok: bool, from: nat, size: nat)
      requires pos <= |src|
      modifies this`pos, this`pool, this`nodes
      ensures old(pos) <= pos <= |src| && ReadsKey(old(Rest()), ok, Rest(), old(pool), from, size, pool)
      ensures nodes == if ok then old(nodes) else []
    {
      NameOf(Rest());
      ok, from, size := false, 0, 0;
      SkipWhitespace();
      if pos < |src| && src[pos] == QUOTE {
        ok, from, size := ParseString();
        if ok {
          ok := SkipColon();
        }
      }
      if !ok {
        Fail();
      }
    }

    /** The value of an entry, whose key is already in the pool, and the space around it. */
    method ParseSpaced(ghost name: Name, from: nat, size: nat, depth: nat) returns (ok: bool, child: nat)
      requires pos <= |src| && TextAt(pool, from, size, KeyOf(name))
      modifies this
      ensures src == old(src) && old(pos) <= pos <= |src|
      ensures ReadsSpaced(old(Rest()), name, depth, limits, ok, Rest(), old(nodes), old(pool), nodes, pool)
      ensures ok ==> child == |old(nodes)| && pos > old(pos)
      decreases |src| - pos, 2
    {
      SpacedOf(Rest(), name, depth, limits);
      ghost var s := Rest();
      ok, child := ParseValue(depth + 1);
      if ok {
        ghost var v := P.ParseValue(s[P.Spaces(s)..], depth + 1, limits);
        KeyPatched(old(nodes), old(pool), old(pool), nodes, pool, Meaning(v.value), from, size, KeyOf(name));
        nodes := nodes[child := nodes[child].(keyFrom := from, keySize := size)];
        SkipWhitespace();
      }
    }

    /** One round of the loops of ParseObject and ParseArray, without the linking. */
    method ParseEntry(isObject: bool, depth: nat) returns (ok: bool, child: nat)
      requires pos <= |src|
      modifies this
      ensures src == old(src) && old(pos) <= pos <= |src|
      ensures ReadsEntry(old(Rest()), isObject, depth, limits, ok, Rest(), old(nodes), old(pool), nodes, pool)
      ensures ok ==> child == |old(nodes)| && pos > old(pos)
      decreases |src| - pos, 4
    {
      if isObject {
        ok, child := ParseMember(depth);
      } else {
        ghost var s := Rest();
        ok, child := ParseSpaced(NoName, 0, 0, depth);
        EntryDone(s, false, depth, limits, ok, Rest(), old(nodes), old(pool), old(pool), nodes, pool);
      }
    }

    method ParseMember(depth: nat) returns (ok: bool, child: nat)
      requires pos <= |src|
      modifies this
      ensures src == old(src) && old(pos) <= pos <= |src|
      ensures ReadsEntry(old(Rest()), true, depth, limits, ok, Rest(), old(nodes), old(pool), nodes, pool)
      ensures ok ==> child == |old(nodes)| && pos > old(pos)
      decreases |src| - pos, 3
    {
      ghost var s, name := Rest(), P.ParseName(Rest());
      var from, size;
      child := 0;
      ok, from, size := ParseKey();
      if ok {
        ghost var keyed := pool;
        ok, child := ParseSpaced(name.value, from, size, depth);
        EntryDone(s, true, depth, limits, ok, Rest(), old(nodes), old(pool), keyed, nodes, pool);
      } else {
        NoKey(s, depth, limits, Rest(), old(nodes), old(pool), nodes, pool);
      }
    }

    /** Makes a node the last child of another. */
    method Attach(index: nat, last: int, child: nat)
      requires index < |nodes| && last < |nodes|
      modifies this`nodes
      ensures nodes == Attached(old(nodes), index, last, child)
    {
      if last < 0 {
        nodes := nodes[index := nodes[index].(firstChild := child)];
      } else {
        nodes := nodes[last := nodes[last].(nextSibling := child)];
      }
      nodes := nodes[index := nodes[index].(childCount := nodes[index].childCount + 1)];
    }

    /** One round of the loops of ParseObject and ParseArray: an entry, its links, and the comma or closing bracket. */
    method ParseNext(index: nat, isObject: bool, depth: nat, last: int,
                     ghost base: seq<Node>, ghost pool0: Bytes, ghost whole: Bytes, ghost done: seq<Member>)
      returns (ok: bool, more: bool, child: nat, ghost m: Member)
      requires pos <= |src| && index == |base| && GroupSoFar(base, pool0, nodes, pool, isObject, done, last)
      requires EntriesLead(whole, Rest(), done, isObject, depth, limits)
      modifies this
      ensures src == old(src) && old(pos) <= pos <= |src| && (ok ==> old(pos) < pos)
      ensures !ok ==> nodes == [] && P.ParseEntries(whole, isObject, depth, limits).Failed?
      ensures ok ==> GroupSoFar(base, pool0, nodes, pool, isObject, done + [m], child)
      ensures ok && more ==> EntriesLead(whole, Rest(), done + [m], isObject, depth, limits)
      ensures ok && !more ==> var p := P.ParseEntries(whole, isObject, depth, limits);
                              p.Parsed? && Rest() == p.rest && Members(p.value) == done + [m]
      decreases |src| - pos, 5
    {
      ghost var s, before, pool1 := Rest(), nodes, pool;
      more, m := false, Member([], VNull);
      ok, child := ParseEntry(isObject, depth);
      if !ok {
        NoEntryLeads(whole, s, done, isObject, depth, limits);
        return;
      }
      m := MemberOf(P.ParseEntry(s, isObject, depth, limits).value);
      Attaches(base, pool0, before, pool1, isObject, done, last, nodes, pool, m);
      Attach(index, last, child);
      ok, more := TakeDelimiter(isObject);
      AfterEntry(whole, s, done, isObject, depth, limits, ok, more, Rest());
      if !ok {
        Fail();
      }
    }

    method TakeDelimiter(isObject: bool) returns (ok: bool, more: bool)
      requires pos <= |src|
      modifies this`pos
      ensures old(pos) <= pos <= |src| && (ok ==> pos > old(pos))
      ensures Delimits(old(Rest()), isObject, ok, more, Rest())
    {
      ok := pos < |src| && (src[pos] == COMMA || src[pos] == Close(isObject));
      more := ok && src[pos] == COMMA;
      if ok {
        Drop(src, pos, 1);
        pos := pos + 1;
      }
    }

    method TakeClose(isObject: bool) returns (taken: bool)
      requires pos <= |src|
      modifies this`pos
      ensures old(pos) <= pos <= |src|
      ensures var t := old(Rest());
              taken == (t != [] && t[0] == Close(isObject)) && Rest() == if taken then t[1..] else t
    {
      taken := pos < |src| && src[pos] == Close(isObject);
      if taken {
        Drop(src, pos, 1);
        pos := pos + 1;
      }
    }

    /** Skips the opening bracket, the space after it, and the closing bracket of an empty group. */
    method SkipOpening(isObject: bool) returns (empty: bool)
      requires pos < |src|
      modifies this`pos
      ensures old(pos) < pos <= |src|
      ensures var s := old(Rest())[1..];
              var t := s[P.Spaces(s)..];
              empty == (t != [] && t[0] == Close(isObject)) && Rest() == if empty then t[1..] else t
    {
      Drop(src, pos, 1);
      pos := pos + 1;
      SkipWhitespace();
      empty := TakeClose(isObject);
    }

    /** ParseObject and ParseArray, which differ in the brackets and in the names. */
    method ParseGroup(index: nat, isObject: bool, depth: nat) returns (ok: bool)
      requires pos < |src| && src[pos] == Open(isObject) && index == |nodes| - 1 &&
               nodes[index] == Fresh(GroupKind(isObject))
      modifies this
      ensures src == old(src) && old(pos) < pos <= |src|
      ensures ReadsGroup(old(Rest())[1..], isObject, depth, limits, ok, Rest(), old(nodes[..index]), old(pool),
                         nodes, pool)
      decreases |src| - pos, 0
    {
      ghost var base, pool0, s := nodes[..index], pool, Rest()[1..];
      assert nodes == base + [Fresh(GroupKind(isObject))];
      var empty := SkipOpening(isObject);
      if empty {
        ok := true;
        EmptyGroup(base, pool, nodes, isObject);
        EmptyGroupReads(s, isObject, depth, limits, base, pool, nodes);
      } else {
        ok := ParseFirstAndRest(index, isObject, depth, base);
        FilledGroupReads(s, isObject, depth, limits, ok, Rest(), base, pool0, nodes, pool);
      }
    }

    method ParseFirstAndRest(index: nat, isObject: bool, depth: nat, ghost base: seq<Node>) returns (ok: bool)
      requires pos <= |src| && index == |base| && nodes == base + [Fresh(GroupKind(isObject))]
      modifies this
      ensures src == old(src) && old(pos) <= pos <= |src|
      ensures var p := P.ParseEntries(old(Rest()), isObject, depth, limits);
              ok == p.Parsed? && (!ok ==> nodes == []) &&
              (ok ==> Rest() == p.rest &&
                      AppendsValue(base, old(pool), nodes, pool, VGroup(isObject, Members(p.value))))
      decreases |src| - pos, 6
    {
      ghost var whole, done := Rest(), [];
      var last: int, more := -1, true;
      ok := true;
      while more
        invariant src == old(src) && old(pos) <= pos <= |src| && ok
        invariant GroupSoFar(base, old(pool), nodes, pool, isObject, done, last)
        invariant if more then EntriesLead(whole, Rest(), done, isObject, depth, limits)
                  else
                    var p := P.ParseEntries(whole, isObject, depth, limits);
                    p.Parsed? && Rest() == p.rest && Members(p.value) == done
        decreases more, |src| - pos
      {
        var child;
        ghost var m;
        ok, more, child, m := ParseNext(index, isObject, depth, last, base, old(pool), whole, done);
        if !ok {
          return;
        }
        last, done := child, done + [m];
      }
      GroupDone(base, old(pool), nodes, pool, isObject, done, last);
    }

    method ParseStringValue() returns (ok: bool, index: nat)
      requires pos < |src| && src[pos] == QUOTE
      modifies this`pos, this`nodes, this`pool
      ensures old(pos) <= pos <= |src|
      ensures ReadsLeaf(old(Rest()), limits, ok, Rest(), old(nodes), old(pool), nodes, pool)
      ensures ok ==> index == |old(nodes)|
    {
      ghost var p := P.ParseItems(Rest()[1..]);
      index := NewNode(StringNode);
      var from, size;
      ok, from, size := ParseString();
      if ok {
        nodes := nodes[index := nodes[index].(textFrom := from, textSize := size)];
      }
      if ok {
        assert nodes == old(nodes) + [nodes[index]];
        LeafDone(old(nodes), old(pool), nodes[index], pool, VString(Decoded(p.value)));
      }
    }

    method ParseWordValue(literal: Literal) returns (ok: bool, index: nat)
      requires pos < |src| && src[pos] == WordText(literal)[0]
      modifies this`pos, this`nodes, this`pool
      ensures old(pos) <= pos <= |src|
      ensures ReadsLeaf(old(Rest()), limits, ok, Rest(), old(nodes), old(pool), nodes, pool)
      ensures ok ==> index == |old(nodes)|
    {
      index := NewNode(if literal.Null? then NullNode else BoolNode);
      ok := ParseLiteral(literal);
      if ok && literal.True? {
        nodes := nodes[index := nodes[index].(boolean := true)];
      }
      if ok {
        assert nodes == old(nodes) + [nodes[index]];
        LeafDone(old(nodes), old(pool), nodes[index], pool, Meaning(Word(literal)));
      }
    }

    method ParseLeaf() returns (ok: bool, index: nat)
      requires pos < |src|
      modifies this`pos, this`nodes, this`pool
      ensures old(pos) <= pos <= |src|
      ensures ReadsLeaf(old(Rest()), limits, ok, Rest(), old(nodes), old(pool), nodes, pool)
      ensures ok ==> index == |old(nodes)|
    {
      var c := src[pos];
      if c == QUOTE {
        ok, index := ParseStringValue();
      } else if c == SMALL_T {
        ok, index := ParseWordValue(True);
      } else if c == SMALL_F {
        ok, index := ParseWordValue(False);
      } else if c == SMALL_N {
        ok, index := ParseWordValue(Null);
      } else if P.StartsNumber(c) {
        index := NewNode(NumberNode);
        assert nodes[..index] == old(nodes);
        ok := ParseNumber(index);
      } else {
        Fail();
        ok, index := false, 0;
      }
    }

    method ParseValue(depth: nat) returns (ok: bool, index: nat)
      requires pos <= |src|
      modifies this
      ensures src == old(src) && old(pos) <= pos <= |src|
      ensures var s := old(Rest());
              ReadsValue(s[P.Spaces(s)..], depth, limits, ok, Rest(), old(nodes), old(pool), nodes, pool)
      ensures ok ==> index == |old(nodes)| && pos > old(pos)
      decreases |src| - pos, 1
    {
      ok, index := false, 0;
      if depth > limits.depth {
        Fail();
        return;
      }
      SkipWhitespace();
      if pos == |src| {
        Fail();
        return;
      }
      ghost var t := Rest();
      var c := src[pos];
      if c == OPEN_BRACE || c == OPEN_BRACKET {
        index := NewNode(GroupKind(c == OPEN_BRACE));
        assert nodes[..index] == old(nodes);
        ok := ParseGroup(index, c == OPEN_BRACE, depth);
        GroupReadsValue(t, depth, limits, ok, Rest(), old(nodes), old(pool), nodes, pool);
      } else {
        ok, index := ParseLeaf();
        LeafReadsValue(t, depth, limits, ok, Rest(), old(nodes), old(pool), nodes, pool);
      }
    }

    method Parse(text: Bytes) returns (ok: bool)
      modifies this
      ensures ok == P.ParseDocument(text, limits).Parsed?
      ensures ok ==> Represents(nodes, pool, Meaning(P.ParseDocument(text, limits).value.value))
      ensures !ok ==> nodes == []
    {
      nodes, pool, src, pos := [], [], text, 0;
      var root;
      ok, root := ParseValue(0);
      if !ok {
        return;
      }
      SkipWhitespace();
      if pos < |src| {
        Fail();
        ok := false;
      }
    }
  }

  lemma PrefixIsUnit(digits: Bytes)
    requires |digits| == 4
    ensures HexPrefix(digits, 4) == CodeUnit(digits)
  {
    assert HexPrefix(digits, 1) == HexValue(digits[0]);
    assert HexPrefix(digits, 2) == HexPrefix(digits, 1) * 16 + HexValue(digits[1]);
    assert HexPrefix(digits, 3) == HexPrefix(digits, 2) * 16 + HexValue(digits[2]);
  }

  function HexPrefix(digits: Bytes, n: nat): nat
    requires n <= |digits|
  {
    if n == 0 then 0 else HexPrefix(digits, n - 1) * 16 + HexValue(digits[n - 1])
  }
}
