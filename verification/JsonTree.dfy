/** The heap trees of json/cJSON.c: which nodes and strings a tree owns, when its links are right, and
    which JSON value it represents. */
module JsonTree {
  import opened CText
  import opened CHeap
  import opened JsonNumber
  import opened JsonValue

  const FALSE: nat := 0
  const TRUE: nat := 1
  const NULL: nat := 2
  const NUMBER: nat := 3
  const STRING: nat := 4
  const ARRAY: nat := 5
  const OBJECT: nat := 6
  const IS_REFERENCE: nat := 256

  /** The shape of a tree: a node, the strings that it owns with their contents, and its children in
      order. A reference node (`cJSON_IsReference`) owns neither its string nor its children. */
  datatype Tree = Tree(node: Node, typ: nat, num: real, str: array?<byte>, content: text,
                       key: array?<byte>, name: text, kids: seq<Tree>)

  ghost function Opt(a: array?<byte>): set<object> { if a == null then {} else {a} }

  /** Everything `cJSON_Delete` has to free for a tree, without the node itself and its name. */
  ghost function Below(t: Tree): set<object>
    decreases t, 0
  {
    Opt(t.str) + KidBlocks(t.kids)
  }

  ghost function Blocks(t: Tree): set<object>
    decreases t, 1
  {
    {t.node} + Opt(t.key) + Below(t)
  }

  ghost function KidBlocks(kids: seq<Tree>): set<object>
    decreases kids, 2
  {
    if kids == [] then {} else KidBlocks(kids[..|kids| - 1]) + Blocks(kids[|kids| - 1])
  }

  /** No block is owned twice. */
  ghost predicate Separate(t: Tree)
    decreases t, 1
  {
    && t.node !in Opt(t.key) && t.node !in Below(t)
    && Opt(t.key) !! Below(t)
    && Opt(t.str) !! KidBlocks(t.kids)
    && SeparateAll(t.kids)
  }

  ghost predicate SeparateAll(kids: seq<Tree>)
    decreases kids, 2
  {
    kids == [] ||
    var init, last := kids[..|kids| - 1], kids[|kids| - 1];
    SeparateAll(init) && Separate(last) && Blocks(last) !! KidBlocks(init)
  }

  ghost function NodeSet(kids: seq<Tree>): set<Node> { set k | k in kids :: k.node }

  ghost function First(kids: seq<Tree>): Node? { if kids == [] then null else kids[0].node }

  /** The node at position i of a sibling list; null outside it. */
  ghost function NodeAt(kids: seq<Tree>, i: int): Node? {
    if 0 <= i < |kids| then kids[i].node else null
  }

  /** `next` and `prev` are mutually inverse along the list and null at its ends. */
  ghost predicate Linked(kids: seq<Tree>)
    reads NodeSet(kids)`next, NodeSet(kids)`prev
  {
    forall i {:trigger kids[i].node.next} {:trigger kids[i].node.prev} | 0 <= i < |kids| ::
      kids[i].node.next == NodeAt(kids, i + 1) && kids[i].node.prev == NodeAt(kids, i - 1)
  }

  /** The children of a node: the list that starts at `child`. */
  ghost predicate Children(item: Node, kids: seq<Tree>)
    reads item, NodeSet(kids), KidBlocks(kids)
  {
    item.child == First(kids) && Linked(kids) && WfAll(kids) && SeparateAll(kids) && item !in KidBlocks(kids)
  }

  ghost predicate IsReference(typ: nat) { typ / IS_REFERENCE % 2 == 1 }

  /** The fields of the node itself, apart from its sibling links. */
  ghost predicate NodeOk(t: Tree)
    reads t.node, Opt(t.str), Opt(t.key)
  {
    && t.node.typ == t.typ && t.typ % 256 <= OBJECT
    && t.node.name == t.key && (t.key != null ==> CString(t.key, t.name))
    && (t.str != null ==> CString(t.str, t.content))
    && (t.typ % 256 == NUMBER ==> t.node.valuedouble == t.num && IntOf(t.node.valueint, t.num))
    && if IsReference(t.typ) then t.str == null && t.kids == []
       else t.node.valuestring == t.str && t.node.child == First(t.kids)
  }

  /** A well-formed tree. */
  ghost predicate Wf(t: Tree)
    reads Blocks(t)
    decreases t, 1
  {
    KidsInBlocks(t.kids);
    assert Below(t) == Opt(t.str) + KidBlocks(t.kids);
    NodeOk(t) && Linked(t.kids) && WfAll(t.kids)
  }

  ghost predicate WfAll(kids: seq<Tree>)
    reads KidBlocks(kids)
    decreases kids, 2
  {
    kids == [] || (WfAll(kids[..|kids| - 1]) && Wf(kids[|kids| - 1]))
  }

  lemma {:induction false} KidsInBlocks(kids: seq<Tree>)
    ensures NodeSet(kids) <= KidBlocks(kids)
    ensures forall k | k in kids :: Blocks(k) <= KidBlocks(kids)
  {
    if kids != [] {
      var init, last := kids[..|kids| - 1], kids[|kids| - 1];
      KidsInBlocks(init);
      assert kids == init + [last];
    }
  }

  // ---- the value that a tree represents ----

  ghost function TextOf(a: array?<byte>, t: text): CStr { if a == null then NoStr else Str(t) }

  ghost function ValueOf(t: Tree): Value
    decreases t, 1
  {
    var kind := t.typ % 256;
    if kind == FALSE then Value.False
    else if kind == TRUE then Value.True
    else if kind == NULL then Value.Null
    else if kind == NUMBER then Num(t.num)
    else if kind == STRING then String(TextOf(t.str, t.content))
    else if kind == ARRAY then Array(ValuesOf(t.kids))
    else Object(MembersOf(t.kids))
  }

  ghost function ValuesOf(kids: seq<Tree>): (vs: seq<Value>)
    ensures |vs| == |kids|
    decreases kids, 2
  {
    if kids == [] then [] else ValuesOf(kids[..|kids| - 1]) + [ValueOf(kids[|kids| - 1])]
  }

  ghost function MembersOf(kids: seq<Tree>): (ms: seq<Member>)
    ensures |ms| == |kids|
    decreases kids, 2
  {
    if kids == [] then []
    else
      var last := kids[|kids| - 1];
      MembersOf(kids[..|kids| - 1]) + [Member(TextOf(last.key, last.name), ValueOf(last))]
  }

  lemma {:induction false} ValuesAt(kids: seq<Tree>, i: nat)
    requires i < |kids|
    ensures ValuesOf(kids)[i] == ValueOf(kids[i])
    ensures MembersOf(kids)[i] == Member(TextOf(kids[i].key, kids[i].name), ValueOf(kids[i]))
  {
    if i < |kids| - 1 { ValuesAt(kids[..|kids| - 1], i); }
  }

  lemma {:induction false} WfAt(kids: seq<Tree>, i: nat)
    requires i < |kids| && WfAll(kids)
    ensures Wf(kids[i])
  {
    if i < |kids| - 1 { WfAt(kids[..|kids| - 1], i); }
  }

  lemma {:induction false} SeparateAt(kids: seq<Tree>, i: nat)
    requires i < |kids| && SeparateAll(kids)
    ensures Separate(kids[i])
  {
    if i < |kids| - 1 { SeparateAt(kids[..|kids| - 1], i); }
  }

  /** Every tree of a separate list is disjoint from the ones before it. */
  lemma {:induction false} SeparatePrefix(kids: seq<Tree>, i: nat)
    requires i < |kids| && SeparateAll(kids)
    ensures SeparateAll(kids[..i]) && Separate(kids[i]) && Blocks(kids[i]) !! KidBlocks(kids[..i])
    ensures KidBlocks(kids[..i + 1]) == KidBlocks(kids[..i]) + Blocks(kids[i])
    ensures KidBlocks(kids[..i + 1]) <= KidBlocks(kids)
  {
    var init := kids[..|kids| - 1];
    if i < |kids| - 1 {
      SeparatePrefix(init, i);
      assert init[..i] == kids[..i] && init[..i + 1] == kids[..i + 1];
    } else {
      assert kids[..i + 1] == kids;
    }
  }

  /** What a tree consists of, without unfolding its children. */
  lemma Parts(t: Tree)
    requires Wf(t) && Separate(t)
    ensures NodeOk(t) && Linked(t.kids) && WfAll(t.kids) && SeparateAll(t.kids)
    ensures Blocks(t) == {t.node} + Opt(t.key) + Opt(t.str) + KidBlocks(t.kids)
    ensures t.node !in KidBlocks(t.kids) && Opt(t.key) !! KidBlocks(t.kids) && Opt(t.str) !! KidBlocks(t.kids)
    ensures t.key != null ==> t.key != t.str
  {
    hide WfAll, SeparateAll, KidBlocks;
  }

  /** The allocator is none of the blocks it hands out. */
  lemma {:induction false} HeapIsNoBlock(heap: Heap, t: Tree)
    ensures heap !in Blocks(t)
    decreases t, 1
  {
    HeapIsNoKid(heap, t.kids);
  }

  lemma {:induction false} HeapIsNoKid(heap: Heap, kids: seq<Tree>)
    ensures heap !in KidBlocks(kids)
    decreases kids, 2
  {
    if kids != [] {
      HeapIsNoKid(heap, kids[..|kids| - 1]);
      HeapIsNoBlock(heap, kids[|kids| - 1]);
    }
  }

  /** Appending a tree to a list of siblings. */
  lemma Append(kids: seq<Tree>, k: Tree)
    ensures KidBlocks(kids + [k]) == KidBlocks(kids) + Blocks(k)
    ensures ValuesOf(kids + [k]) == ValuesOf(kids) + [ValueOf(k)]
    ensures MembersOf(kids + [k]) == MembersOf(kids) + [Member(TextOf(k.key, k.name), ValueOf(k))]
    ensures WfAll(kids) && Wf(k) ==> WfAll(kids + [k])
    ensures SeparateAll(kids) && Separate(k) && Blocks(k) !! KidBlocks(kids) ==> SeparateAll(kids + [k])
  {
    hide Wf, Separate, ValueOf, Blocks;
    assert (kids + [k])[..|kids + [k]| - 1] == kids;
  }

  /** Siblings are different nodes, and none of them is owned by another one. */
  lemma {:induction false} Distinct(kids: seq<Tree>)
    requires SeparateAll(kids)
    ensures forall i, j | 0 <= i < j < |kids| :: kids[i].node != kids[j].node
    ensures forall i, j | 0 <= i < |kids| && 0 <= j < |kids| :: kids[i].node !in Below(kids[j])
  {
    hide Below;
    if kids != [] {
      var init, last := kids[..|kids| - 1], kids[|kids| - 1];
      Distinct(init);
      KidsInBlocks(init);
      forall i | 0 <= i < |init|
        ensures init[i].node != last.node && init[i].node !in Below(last) && last.node !in Below(init[i])
      {
        assert init[i] in init;
        assert init[i].node in Blocks(init[i]) && Blocks(init[i]) <= KidBlocks(init);
      }
    }
  }

  /** Everything about the tree is as before, except perhaps its sibling links. */
  twostate predicate OnlyLinksChanged(t: Tree)
    reads Blocks(t)
  {
    && t.node.typ == old(t.node.typ) && t.node.child == old(t.node.child) && t.node.name == old(t.node.name)
    && t.node.valuestring == old(t.node.valuestring) && t.node.valueint == old(t.node.valueint)
    && t.node.valuedouble == old(t.node.valuedouble)
    && old(allocated(Below(t))) && unchanged(Below(t)) && unchanged(Opt(t.key))
  }

  twostate lemma {:induction false} WfKept(t: Tree)
    requires old(Wf(t)) && OnlyLinksChanged(t)
    ensures Wf(t)
  {
    hide WfAll, KidBlocks;
    KidsInBlocks(t.kids);
    assert old(NodeOk(t)) && NodeOk(t);
    assert old(Linked(t.kids)) && Linked(t.kids);
    assert old(WfAll(t.kids)) && WfAll(t.kids);
  }

  twostate lemma {:induction false} WfAllKept(kids: seq<Tree>)
    requires old(WfAll(kids)) && forall k | k in kids :: OnlyLinksChanged(k)
    ensures WfAll(kids)
  {
    hide Wf, OnlyLinksChanged;
    if kids != [] {
      WfAllKept(kids[..|kids| - 1]);
      WfKept(kids[|kids| - 1]);
    }
  }

  /** The reverse of `Append`. */
  lemma Unappend(kids: seq<Tree>, k: Tree)
    ensures WfAll(kids + [k]) ==> WfAll(kids) && Wf(k)
    ensures SeparateAll(kids + [k]) ==> SeparateAll(kids) && Separate(k) && Blocks(k) !! KidBlocks(kids)
  {
    hide Wf, Separate, Blocks;
    assert (kids + [k])[..|kids + [k]| - 1] == kids;
  }
}
