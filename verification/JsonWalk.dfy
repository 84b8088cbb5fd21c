/** Looking things up in a parsed document: JsonValue's walks over the node array. */
module JsonWalk {
  import opened Octets
  import opened JsonSyntax
  import opened JsonTree

  /** Where member k starts when the first one starts at node i. */
  function StartOf(i: nat, ms: seq<Member>, k: nat): nat
    requires k <= |ms|
    decreases k
  {
    if k == 0 then i else StartOf(i + Size(ms[0].value), ms[1..], k - 1)
  }

  lemma {:induction false} MemberInChain(nodes: seq<Node>, pool: Bytes, i: nat, ms: seq<Member>, k: nat)
    requires ChainAt(nodes, pool, i, ms) && k < |ms|
    ensures var c := StartOf(i, ms, k);
            i <= c < |nodes| && MemberAt(nodes, pool, c, ms[k]) &&
            nodes[c].nextSibling == if k + 1 < |ms| then StartOf(i, ms, k + 1) else -1
    decreases k
  {
    var next := i + Size(ms[0].value);
    if k == 0 {
      assert StartOf(next, ms[1..], 0) == next;
    } else {
      MemberInChain(nodes, pool, next, ms[1..], k - 1);
      assert k + 1 < |ms| ==> StartOf(i, ms, k + 1) == StartOf(next, ms[1..], k);
    }
  }

  /** The link that member k of v hangs on, with -1 past the last one. */
  function LinkTo(i: nat, v: Value, k: nat): int
    requires v.VGroup? && k <= |v.members|
  {
    if k < |v.members| then StartOf(i + 1, v.members, k) else -1
  }

  lemma FollowLink(nodes: seq<Node>, pool: Bytes, i: nat, v: Value, k: nat)
    requires TreeAt(nodes, pool, i, v) && v.VGroup? && k < |v.members|
    ensures var c := LinkTo(i, v, k);
            0 <= c < |nodes| && MemberAt(nodes, pool, c, v.members[k]) && nodes[c].nextSibling == LinkTo(i, v, k + 1)
  {
    MemberInChain(nodes, pool, i + 1, v.members, k);
  }

  lemma FirstLink(nodes: seq<Node>, pool: Bytes, i: nat, v: Value)
    requires TreeAt(nodes, pool, i, v) && v.VGroup?
    ensures nodes[i].firstChild == LinkTo(i, v, 0)
  {
  }

  /** Number of the first member with the given name, or the number of members. */
  predicate IsFirst(ms: seq<Member>, key: Bytes, k: nat) {
    k <= |ms| && (forall j :: 0 <= j < k ==> ms[j].key != key) && (k < |ms| ==> ms[k].key == key)
  }

  /** Member by name: the first one with that name, and none for anything but an object. */
  method Find(nodes: seq<Node>, pool: Bytes, i: nat, ghost v: Value, key: Bytes) returns (c: int, ghost k: nat)
    requires TreeAt(nodes, pool, i, v)
    ensures c == -1 <==> !(v.VGroup? && v.isObject && exists j :: 0 <= j < |v.members| && v.members[j].key == key)
    ensures c != -1 ==> 0 <= c < |nodes| && v.VGroup? && k < |v.members| && IsFirst(v.members, key, k) &&
                        MemberAt(nodes, pool, c, v.members[k])
  {
    k := 0;
    if nodes[i].kind != ObjectNode {
      return -1, 0;
    }
    FirstLink(nodes, pool, i, v);
    c := nodes[i].firstChild;
    while c >= 0
      invariant k <= |v.members| && c == LinkTo(i, v, k)
      invariant forall j :: 0 <= j < k ==> v.members[j].key != key
      decreases |v.members| - k
    {
      FollowLink(nodes, pool, i, v, k);
      if Slice(pool, nodes[c].keyFrom, nodes[c].keySize) == key {
        return;
      }
      c, k := nodes[c].nextSibling, k + 1;
    }
  }

  /** Child by position, and none past the last one or for a value without children. */
  method At(nodes: seq<Node>, pool: Bytes, i: nat, ghost v: Value, index: nat) returns (c: int)
    requires TreeAt(nodes, pool, i, v)
    ensures c == -1 <==> !(v.VGroup? && index < |v.members|)
    ensures c != -1 ==> 0 <= c < |nodes| && v.VGroup? && index < |v.members| &&
                        MemberAt(nodes, pool, c, v.members[index])
  {
    if nodes[i].kind != ArrayNode && nodes[i].kind != ObjectNode {
      return -1;
    }
    if index >= nodes[i].childCount {
      return -1;
    }
    FirstLink(nodes, pool, i, v);
    c := nodes[i].firstChild;
    var k := 0;
    while k < index && c >= 0
      invariant k <= index && c == LinkTo(i, v, k)
      decreases index - k
    {
      FollowLink(nodes, pool, i, v, k);
      c, k := nodes[c].nextSibling, k + 1;
    }
    FollowLink(nodes, pool, i, v, index);
  }
}
