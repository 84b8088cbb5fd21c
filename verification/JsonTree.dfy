/** The flat node array of a parsed document: what it holds, and what following its links finds. */
module JsonTree {
  import opened Octets
  import opened JsonSyntax

  datatype Kind = NullNode | BoolNode | NumberNode | StringNode | ArrayNode | ObjectNode

  /** number is the text handed to the conversion. The two text ranges point into the pool. A link is -1 for none. */
  datatype Node = Node(
    kind: Kind, boolean: bool, number: Bytes, textFrom: nat, textSize: nat, keyFrom: nat, keySize: nat,
    firstChild: int, nextSibling: int, childCount: nat)

  function Fresh(kind: Kind): Node {
    Node(kind, false, [], 0, 0, 0, 0, -1, -1, 0)
  }

  function GroupKind(isObject: bool): Kind {
    if isObject then ObjectNode else ArrayNode
  }

  // --- what the array holds ---

  function Size(v: Value): (n: nat)
    ensures n >= 1
  {
    if v.VGroup? then 1 + SizeAll(v.members) else 1
  }

  function SizeAll(ms: seq<Member>): nat {
    if ms == [] then 0 else Size(ms[0].value) + SizeAll(ms[1..])
  }

  predicate TextAt(pool: Bytes, from: nat, size: nat, t: Bytes) {
    from + size <= |pool| && pool[from..from + size] == t
  }

  /** Node i and the nodes after it hold v, in the order it is written. Node i's key and next sibling are left open. */
  predicate TreeAt(nodes: seq<Node>, pool: Bytes, i: nat, v: Value)
    decreases v, 0
  {
    && i + Size(v) <= |nodes|
    && var n := nodes[i];
       && n.firstChild == (if v.VGroup? && v.members != [] then i + 1 else -1)
       && n.childCount == (if v.VGroup? then |v.members| else 0)
       && match v
          case VNull => n.kind == NullNode
          case VBool(b) => n.kind == BoolNode && n.boolean == b
          case VNumber(t) => n.kind == NumberNode && n.number == t
          case VString(t) => n.kind == StringNode && TextAt(pool, n.textFrom, n.textSize, t)
          case VGroup(isObject, ms) => n.kind == GroupKind(isObject) && ChainAt(nodes, pool, i + 1, ms)
  }

  predicate MemberAt(nodes: seq<Node>, pool: Bytes, i: nat, m: Member)
    decreases m, 1
  {
    TreeAt(nodes, pool, i, m.value) && TextAt(pool, nodes[i].keyFrom, nodes[i].keySize, m.key)
  }

  /** The members start at node i, one after the other, each linked to the next. */
  predicate ChainAt(nodes: seq<Node>, pool: Bytes, i: nat, ms: seq<Member>)
    decreases ms, 2
  {
    ms != [] ==>
      && i < |nodes| && MemberAt(nodes, pool, i, ms[0])
      && nodes[i].nextSibling == (if |ms| == 1 then -1 else i + Size(ms[0].value))
      && ChainAt(nodes, pool, i + Size(ms[0].value), ms[1..])
  }

  // --- growing the array keeps what it holds ---

  /** b is a, from node i to node end, apart from node i's own key and next sibling. */
  predicate SameTree(a: seq<Node>, b: seq<Node>, i: nat, end: nat) {
    && i < end <= |a| && end <= |b|
    && b[i] == a[i].(keyFrom := b[i].keyFrom, keySize := b[i].keySize, nextSibling := b[i].nextSibling)
    && SameNodes(a, b, i + 1, end)
  }

  predicate SameNodes(a: seq<Node>, b: seq<Node>, i: nat, end: nat) {
    i <= end <= |a| && end <= |b| && forall k :: i <= k < end ==> b[k] == a[k]
  }

  lemma TextKept(pool: Bytes, more: Bytes, from: nat, size: nat, t: Bytes)
    requires TextAt(pool, from, size, t) && pool <= more
    ensures TextAt(more, from, size, t)
  {
  }

  lemma {:induction false} TreeKept(a: seq<Node>, b: seq<Node>, pool: Bytes, more: Bytes, i: nat, v: Value)
    requires TreeAt(a, pool, i, v) && SameTree(a, b, i, i + Size(v)) && pool <= more
    ensures TreeAt(b, more, i, v)
    decreases v, 0
  {
    if v.VGroup? {
      ChainKept(a, b, pool, more, i + 1, v.members);
    }
  }

  lemma {:induction false} ChainKept(a: seq<Node>, b: seq<Node>, pool: Bytes, more: Bytes, i: nat, ms: seq<Member>)
    requires ChainAt(a, pool, i, ms) && SameNodes(a, b, i, i + SizeAll(ms)) && pool <= more
    ensures ChainAt(b, more, i, ms)
    decreases ms, 1
  {
    if ms != [] {
      TreeKept(a, b, pool, more, i, ms[0].value);
      ChainKept(a, b, pool, more, i + Size(ms[0].value), ms[1..]);
    }
  }

  /** Where the last member starts. */
  function LastOf(i: nat, ms: seq<Member>): (k: nat)
    requires ms != []
    ensures i <= k < i + SizeAll(ms)
    decreases |ms|
  {
    if |ms| == 1 then i else LastOf(i + Size(ms[0].value), ms[1..])
  }

  /** From node i to end, b is a but for node last, which links to end; last is -1 when there is none. */
  predicate Relinked(a: seq<Node>, b: seq<Node>, i: nat, end: nat, last: int) {
    && i <= end <= |a| && end < |b| && last < end
    && (forall k :: i <= k < end && k != last ==> b[k] == a[k])
    && (last >= 0 ==> i <= last && b[last] == a[last].(nextSibling := end))
  }

  function LastLink(i: nat, ms: seq<Member>): (last: int)
    ensures last == -1 || i <= last < i + SizeAll(ms)
  {
    if ms == [] then -1 else LastOf(i, ms)
  }

  /** b holds the members of a and one more, which the last one links to. */
  lemma {:induction false} ChainGrows(a: seq<Node>, b: seq<Node>, pool: Bytes, more: Bytes, i: nat, ms: seq<Member>,
                                      m: Member, end: nat, last: int)
    requires end == i + SizeAll(ms) && last == LastLink(i, ms)
    requires ChainAt(a, pool, i, ms) && pool <= more && Relinked(a, b, i, end, last)
    requires MemberAt(b, more, end, m) && b[end].nextSibling == -1
    ensures ChainAt(b, more, i, ms + [m])
    decreases |ms|
  {
    if ms == [] {
      ChainOfOne(b, more, i, m);
      assert ms + [m] == [m];
    } else {
      var first, rest, next := ms[0], ms[1..], i + Size(ms[0].value);
      FirstKept(a, b, pool, more, i, first, rest, next, end, last);
      ChainGrows(a, b, pool, more, next, rest, m, end, LastLink(next, rest));
      ChainStarts(b, more, i, first, rest + [m]);
      FirstApart(ms, m);
    }
  }

  lemma FirstApart(ms: seq<Member>, m: Member)
    requires ms != []
    ensures ms + [m] == [ms[0]] + (ms[1..] + [m])
  {
  }

  lemma ChainOfOne(nodes: seq<Node>, pool: Bytes, i: nat, m: Member)
    requires i < |nodes| && MemberAt(nodes, pool, i, m) && nodes[i].nextSibling == -1
    ensures ChainAt(nodes, pool, i, [m])
  {
    assert [m][1..] == [];
  }

  lemma ChainStarts(nodes: seq<Node>, pool: Bytes, i: nat, m: Member, ms: seq<Member>)
    requires ms != [] && i < |nodes| && MemberAt(nodes, pool, i, m) && nodes[i].nextSibling == i + Size(m.value)
    requires ChainAt(nodes, pool, i + Size(m.value), ms)
    ensures ChainAt(nodes, pool, i, [m] + ms)
  {
    assert ([m] + ms)[1..] == ms;
  }

  lemma FirstKept(a: seq<Node>, b: seq<Node>, pool: Bytes, more: Bytes, i: nat, first: Member, rest: seq<Member>,
                  next: nat, end: nat, last: int)
    requires i < |a| && MemberAt(a, pool, i, first) && pool <= more && next == i + Size(first.value) &&
             end == next + SizeAll(rest)
    requires a[i].nextSibling == (if rest == [] then -1 else next)
    requires Relinked(a, b, i, end, last) && last == if rest == [] then i else LastLink(next, rest)
    ensures i < |b| && MemberAt(b, more, i, first) && b[i].nextSibling == next
    ensures Relinked(a, b, next, end, LastLink(next, rest))
  {
    TreeKept(a, b, pool, more, i, first.value);
    TextKept(pool, more, a[i].keyFrom, a[i].keySize, first.key);
  }

  lemma {:induction false} LastGrows(i: nat, ms: seq<Member>, m: Member)
    ensures LastOf(i, ms + [m]) == i + SizeAll(ms)
    ensures SizeAll(ms + [m]) == SizeAll(ms) + Size(m.value)
    decreases |ms|
  {
    if ms == [] {
      assert ms + [m] == [m];
    } else {
      LastGrows(i + Size(ms[0].value), ms[1..], m);
      assert (ms + [m])[1..] == ms[1..] + [m];
    }
  }

  // --- reading by the links alone ---

  /** No link, or a link to a later node. */
  predicate LinkOk(link: int, from: int, end: int) {
    link == -1 || from < link < end
  }

  predicate Forward(nodes: seq<Node>) {
    forall k :: 0 <= k < |nodes| ==> LinkOk(nodes[k].firstChild, k, |nodes|) && LinkOk(nodes[k].nextSibling, k, |nodes|)
  }

  function Slice(pool: Bytes, from: nat, size: nat): Bytes {
    if from + size <= |pool| then pool[from..from + size] else []
  }

  function Left(nodes: seq<Node>, link: int): nat {
    if 0 <= link < |nodes| then |nodes| - link else 0
  }

  function ReadTree(nodes: seq<Node>, pool: Bytes, i: int): Value
    requires Forward(nodes) && 0 <= i < |nodes|
    decreases Left(nodes, i), 0
  {
    var n := nodes[i];
    match n.kind
    case NullNode => VNull
    case BoolNode => VBool(n.boolean)
    case NumberNode => VNumber(n.number)
    case StringNode => VString(Slice(pool, n.textFrom, n.textSize))
    case ArrayNode => VGroup(false, ReadChain(nodes, pool, n.firstChild))
    case ObjectNode => VGroup(true, ReadChain(nodes, pool, n.firstChild))
  }

  function ReadChain(nodes: seq<Node>, pool: Bytes, link: int): seq<Member>
    requires Forward(nodes) && LinkOk(link, -1, |nodes|)
    decreases Left(nodes, link), 1
  {
    if link == -1 then []
    else
      var n := nodes[link];
      [Member(Slice(pool, n.keyFrom, n.keySize), ReadTree(nodes, pool, link))] + ReadChain(nodes, pool, n.nextSibling)
  }

  /** The nodes met by following first children and next siblings. */
  function Visits(nodes: seq<Node>, link: int): seq<int>
    requires Forward(nodes) && LinkOk(link, -1, |nodes|)
    decreases Left(nodes, link)
  {
    if link == -1 then []
    else [link] + Visits(nodes, nodes[link].firstChild) + Visits(nodes, nodes[link].nextSibling)
  }

  function UpTo(i: int, end: int): seq<int>
    requires i <= end
  {
    seq(end - i, k requires 0 <= k => i + k)
  }

  lemma {:induction false} TreeReads(nodes: seq<Node>, pool: Bytes, i: nat, v: Value)
    requires Forward(nodes) && TreeAt(nodes, pool, i, v)
    ensures ReadTree(nodes, pool, i) == v
    ensures Visits(nodes, nodes[i].firstChild) == UpTo(i + 1, i + Size(v))
    decreases v, 0
  {
    if v.VGroup? {
      ChainReads(nodes, pool, i + 1, v.members);
    }
  }

  /** Following the siblings from link finds these members and meets the nodes from i to end. */
  predicate FindsChain(nodes: seq<Node>, pool: Bytes, link: int, ms: seq<Member>, i: int, end: int)
    requires Forward(nodes)
  {
    LinkOk(link, -1, |nodes|) && i <= end && ReadChain(nodes, pool, link) == ms && Visits(nodes, link) == UpTo(i, end)
  }

  lemma NothingFound(nodes: seq<Node>, pool: Bytes, i: int)
    requires Forward(nodes)
    ensures FindsChain(nodes, pool, -1, [], i, i)
  {
  }

  lemma {:induction false} ChainReads(nodes: seq<Node>, pool: Bytes, i: nat, ms: seq<Member>)
    requires Forward(nodes) && ChainAt(nodes, pool, i, ms)
    ensures FindsChain(nodes, pool, if ms == [] then -1 else i, ms, i, i + SizeAll(ms))
    decreases ms, 1
  {
    if ms == [] {
      NothingFound(nodes, pool, i);
    } else {
      var first, rest, next := ms[0], ms[1..], i + Size(ms[0].value);
      TreeReads(nodes, pool, i, first.value);
      ChainReads(nodes, pool, next, rest);
      MemberReads(nodes, pool, i, first, rest, next, i + SizeAll(ms));
      assert [first] + rest == ms;
    }
  }

  lemma UpToJoins(i: int, next: int, end: int)
    requires i < next <= end
    ensures [i] + UpTo(i + 1, next) + UpTo(next, end) == UpTo(i, end)
  {
  }

  lemma MemberReads(nodes: seq<Node>, pool: Bytes, i: nat, m: Member, rest: seq<Member>, next: int, end: int)
    requires Forward(nodes) && i < |nodes| && MemberAt(nodes, pool, i, m) && ReadTree(nodes, pool, i) == m.value
    requires i < next && Visits(nodes, nodes[i].firstChild) == UpTo(i + 1, next)
    requires FindsChain(nodes, pool, nodes[i].nextSibling, rest, next, end)
    ensures FindsChain(nodes, pool, i, [m] + rest, i, end)
  {
    UpToJoins(i, next, end);
  }

  /** All links of the nodes in between stay in between and go forward. */
  predicate ForwardIn(nodes: seq<Node>, i: int, end: int) {
    0 <= i <= end <= |nodes| &&
    forall k :: i <= k < end ==> LinkOk(nodes[k].firstChild, k, end) && LinkOk(nodes[k].nextSibling, k, end)
  }

  lemma {:induction false} TreeIsForward(nodes: seq<Node>, pool: Bytes, i: nat, v: Value)
    requires TreeAt(nodes, pool, i, v)
    ensures ForwardIn(nodes, i + 1, i + Size(v)) && LinkOk(nodes[i].firstChild, i, i + Size(v))
    decreases v, 0
  {
    if v.VGroup? {
      ChainIsForward(nodes, pool, i + 1, v.members);
    }
  }

  lemma {:induction false} ChainIsForward(nodes: seq<Node>, pool: Bytes, i: nat, ms: seq<Member>)
    requires ChainAt(nodes, pool, i, ms) && i <= |nodes|
    ensures ForwardIn(nodes, i, i + SizeAll(ms))
    decreases ms, 1
  {
    if ms != [] {
      var next, end := i + Size(ms[0].value), i + SizeAll(ms);
      TreeIsForward(nodes, pool, i, ms[0].value);
      ChainIsForward(nodes, pool, next, ms[1..]);
      ForwardJoins(nodes, i, next, end);
    }
  }

  lemma ForwardJoins(nodes: seq<Node>, i: int, next: int, end: int)
    requires 0 <= i < next <= end && ForwardIn(nodes, i + 1, next) && ForwardIn(nodes, next, end)
    requires LinkOk(nodes[i].firstChild, i, next)
    requires nodes[i].nextSibling == -1 || (nodes[i].nextSibling == next && next < end)
    ensures ForwardIn(nodes, i, end)
  {
  }

  /** Every node is the root of a tree of its own. */
  lemma {:induction false} TreeOfNode(nodes: seq<Node>, pool: Bytes, i: nat, v: Value, k: nat) returns (w: Value)
    requires TreeAt(nodes, pool, i, v) && i <= k < i + Size(v)
    ensures TreeAt(nodes, pool, k, w)
    decreases v, 0
  {
    if k == i {
      w := v;
    } else {
      w := TreeOfMember(nodes, pool, i + 1, v.members, k);
    }
  }

  lemma {:induction false} TreeOfMember(nodes: seq<Node>, pool: Bytes, i: nat, ms: seq<Member>, k: nat)
    returns (w: Value)
    requires ChainAt(nodes, pool, i, ms) && i <= k < i + SizeAll(ms)
    ensures TreeAt(nodes, pool, k, w)
    decreases ms, 1
  {
    var next := i + Size(ms[0].value);
    if k < next {
      w := TreeOfNode(nodes, pool, i, ms[0].value, k);
    } else {
      w := TreeOfMember(nodes, pool, next, ms[1..], k);
    }
  }

  /** The node array of a whole document. */
  predicate Represents(nodes: seq<Node>, pool: Bytes, v: Value) {
    |nodes| == Size(v) && TreeAt(nodes, pool, 0, v) && nodes[0].nextSibling == -1
  }

  /** Following the links of a document's array reads back that document and meets every node once, in order. */
  lemma LinksReadBack(nodes: seq<Node>, pool: Bytes, v: Value)
    requires Represents(nodes, pool, v)
    ensures Forward(nodes) && ReadTree(nodes, pool, 0) == v
    ensures Visits(nodes, 0) == UpTo(0, |nodes|)
  {
    TreeIsForward(nodes, pool, 0, v);
    assert Forward(nodes);
    TreeReads(nodes, pool, 0, v);
    assert Visits(nodes, 0) == [0] + Visits(nodes, nodes[0].firstChild) + [];
    assert [0] + UpTo(1, |nodes|) == UpTo(0, |nodes|);
  }

  /** A document's array determines the document. */
  lemma OneDocument(nodes: seq<Node>, pool: Bytes, v: Value, w: Value)
    requires Represents(nodes, pool, v) && Represents(nodes, pool, w)
    ensures v == w
  {
    LinksReadBack(nodes, pool, v);
    LinksReadBack(nodes, pool, w);
  }

  /** Each node counts the siblings that its first child starts. */
  lemma CountIsChainLength(nodes: seq<Node>, pool: Bytes, v: Value, k: nat)
    requires Represents(nodes, pool, v) && k < |nodes|
    ensures Forward(nodes) && |ReadChain(nodes, pool, nodes[k].firstChild)| == nodes[k].childCount
  {
    LinksReadBack(nodes, pool, v);
    var w := TreeOfNode(nodes, pool, 0, v, k);
    if w.VGroup? {
      ChainReads(nodes, pool, k + 1, w.members);
    }
  }
}
