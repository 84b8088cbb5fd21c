/** The accepted language beside that of RFC 8259, sections 2 to 7, without any limits. */
module JsonRfc {
  import opened Octets
  import opened JsonSyntax
  import P = JsonParser
  import C = JsonComplete

  function AnyText(text: Bytes): bool {
    true
  }

  /** Every decimal point has a digit after it, as section 6 of RFC 8259 wants. */
  predicate PointsHaveDigits(v: Syntax) {
    match v
    case Number(_, _, fraction, _) => fraction.Fraction? ==> fraction.digits != []
    case Group(_, _, entries) => forall i :: 0 <= i < |entries| ==> PointsHaveDigits(entries[i].value)
    case _ => true
  }

  /** A document of the grammar, however deep and whatever its numbers. */
  ghost predicate InGrammar(d: Document) {
    exists n: nat :: LegalDocument(d, Limits(n, AnyText))
  }

  ghost predicate IsRfcText(s: Bytes) {
    exists d: Document :: InGrammar(d) && PointsHaveDigits(d.value) && DocumentText(d) == s
  }

  lemma {:induction false} Widens(v: Syntax, depth: nat, limits: Limits, n: nat)
    requires Legal(v, depth, limits) && limits.depth <= n
    ensures Legal(v, depth, Limits(n, AnyText))
    decreases v
  {
    if v.Group? {
      forall i | 0 <= i < |v.entries|
        ensures LegalEntry(v.entries[i], v.isObject, depth, Limits(n, AnyText))
      {
        assert LegalEntry(v.entries[i], v.isObject, depth, limits);
        Widens(v.entries[i].value, depth + 1, limits, n);
      }
    }
  }

  /** Even without limits a text has one syntax. */
  lemma OneSyntax(d: Document, e: Document)
    requires InGrammar(d) && InGrammar(e) && DocumentText(d) == DocumentText(e)
    ensures d == e
  {
    var m: nat :| LegalDocument(d, Limits(m, AnyText));
    var n: nat :| LegalDocument(e, Limits(n, AnyText));
    var most := if m > n then m else n;
    Widens(d.value, 0, Limits(m, AnyText), most);
    Widens(e.value, 0, Limits(n, AnyText), most);
    C.DocumentComplete(d, Limits(most, AnyText));
    C.DocumentComplete(e, Limits(most, AnyText));
  }

  /** An accepted document is RFC 8259 text exactly when no number ends in its decimal point. */
  lemma RfcTextIff(s: Bytes, limits: Limits)
    requires P.ParseDocument(s, limits).Parsed?
    ensures IsRfcText(s) <==> PointsHaveDigits(P.ParseDocument(s, limits).value.value)
  {
    var d := P.ParseDocument(s, limits).value;
    P.DocumentSound(s, limits);
    Widens(d.value, 0, limits, limits.depth);
    assert LegalDocument(d, Limits(limits.depth, AnyText));
    assert InGrammar(d);
    if IsRfcText(s) {
      var e: Document :| InGrammar(e) && PointsHaveDigits(e.value) && DocumentText(e) == s;
      OneSyntax(d, e);
    }
  }

  /** The reader accepts an RFC 8259 text exactly when it keeps to the reader's limits. */
  lemma RfcTextAcceptedIff(d: Document, limits: Limits)
    requires InGrammar(d) && PointsHaveDigits(d.value)
    ensures P.ParseDocument(DocumentText(d), limits).Parsed? <==> LegalDocument(d, limits)
  {
    if LegalDocument(d, limits) {
      C.DocumentComplete(d, limits);
    }
    if P.ParseDocument(DocumentText(d), limits).Parsed? {
      var e := P.ParseDocument(DocumentText(d), limits).value;
      P.DocumentSound(DocumentText(d), limits);
      Widens(e.value, 0, limits, limits.depth);
      assert LegalDocument(e, Limits(limits.depth, AnyText));
      OneSyntax(d, e);
    }
  }

  // --- nesting ---

  /** So many arrays in each other, as text. */
  function Brackets(n: nat): Bytes {
    if n == 0 then [] else Ascii("[") + Brackets(n - 1) + Ascii("]")
  }

  /** An array with n more in each other inside. */
  function Nested(n: nat): Syntax {
    Group(false, [], if n == 0 then [] else [Entry(NoName, [], Nested(n - 1), [])])
  }

  lemma BareText(v: Syntax)
    ensures Text(Group(false, [], [Entry(NoName, [], v, [])])) == [OPEN_BRACKET] + Text(v) + [CLOSE_BRACKET]
  {
    var e := Entry(NoName, [], v, []);
    assert [] + [] + Text(v) + [] == Text(v);
    assert EntriesText([e]) == EntryText(e) == Text(v);
    assert [OPEN_BRACKET] + [] + Text(v) == [OPEN_BRACKET] + Text(v);
  }

  lemma BracketsAround(n: nat)
    ensures Brackets(n + 1) == [OPEN_BRACKET] + Brackets(n) + [CLOSE_BRACKET]
  {
    assert Ascii("[") == [OPEN_BRACKET] && Ascii("]") == [CLOSE_BRACKET];
  }

  lemma {:induction false} NestedText(n: nat)
    ensures Text(Nested(n)) == Brackets(n + 1)
  {
    BracketsAround(n);
    if n == 0 {
      assert [OPEN_BRACKET] + [] + [] + [CLOSE_BRACKET] == [OPEN_BRACKET] + [] + [CLOSE_BRACKET];
    } else {
      NestedText(n - 1);
      BareText(Nested(n - 1));
    }
  }

  lemma {:induction false} NestedHasNoPoint(n: nat)
    ensures PointsHaveDigits(Nested(n))
  {
    if n > 0 {
      NestedHasNoPoint(n - 1);
    }
  }

  lemma {:induction false} NestedLegalIff(n: nat, depth: nat, limits: Limits)
    ensures Legal(Nested(n), depth, limits) <==> depth + n <= limits.depth
  {
    if n > 0 {
      NestedLegalIff(n - 1, depth + 1, limits);
      assert LegalEntries(Nested(n).entries, false, depth, limits) <==>
             LegalEntry(Nested(n).entries[0], false, depth, limits);
    }
  }

  lemma NestedInGrammar(n: nat)
    ensures InGrammar(Document([], Nested(n), []))
  {
    NestedLegalIff(n, 0, Limits(n, AnyText));
    assert LegalDocument(Document([], Nested(n), []), Limits(n, AnyText));
  }

  lemma NestedDocument(n: nat)
    ensures DocumentText(Document([], Nested(n), [])) == Brackets(n + 1)
  {
    NestedText(n);
    assert [] + Brackets(n + 1) + [] == Brackets(n + 1);
  }

  /** Arrays in each other are accepted exactly when the innermost lies in no more of them than the limit. */
  lemma NestingIff(n: nat, limits: Limits)
    ensures P.ParseDocument(Brackets(n + 1), limits).Parsed? <==> n <= limits.depth
  {
    var d := Document([], Nested(n), []);
    NestedDocument(n);
    NestedInGrammar(n);
    NestedHasNoPoint(n);
    NestedLegalIff(n, 0, limits);
    RfcTextAcceptedIff(d, limits);
  }
}
