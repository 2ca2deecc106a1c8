/** The list operations of json/cJSON.c: what Add, Detach, Delete and Replace do to the children of a
    node, seen as a sequence, and to the heap. */
module JsonList {
  import opened CText
  import opened CHeap
  import opened JsonNumber
  import opened JsonValue
  import opened JsonTree
  import opened JsonDelete

  // ---- lists of siblings ----

  /** Siblings of two lists side by side. */
  lemma {:induction false} Concat(a: seq<Tree>, b: seq<Tree>)
    ensures KidBlocks(a + b) == KidBlocks(a) + KidBlocks(b)
    ensures ValuesOf(a + b) == ValuesOf(a) + ValuesOf(b)
    ensures MembersOf(a + b) == MembersOf(a) + MembersOf(b)
    ensures SeparateAll(a + b) <==> SeparateAll(a) && SeparateAll(b) && KidBlocks(a) !! KidBlocks(b)
    ensures WfAll(a + b) <==> WfAll(a) && WfAll(b)
  {
    if b == [] {
      assert a + b == a;
    } else {
      hide Wf, Separate, ValueOf, Blocks;
      var init, last := b[..|b| - 1], b[|b| - 1];
      Concat(a, init);
      assert (a + b)[..|a + b| - 1] == a + init && (a + b)[|a + b| - 1] == last;
    }
  }

  lemma One(t: Tree)
    ensures KidBlocks([t]) == Blocks(t) && ValuesOf([t]) == [ValueOf(t)]
    ensures MembersOf([t]) == [Member(TextOf(t.key, t.name), ValueOf(t))]
    ensures SeparateAll([t]) <==> Separate(t)
    ensures WfAll([t]) <==> Wf(t)
  {
    hide Wf, Separate, ValueOf, Blocks;
    assert [t][..0] == [];
  }

  /** kids without the one at position k, and with x in its place. */
  ghost function Without(kids: seq<Tree>, k: nat): seq<Tree>
    requires k < |kids|
  {
    kids[..k] + kids[k + 1..]
  }

  /** The siblings are the ones before position k, the one at k, and the ones behind it. */
  lemma Around(kids: seq<Tree>, k: nat)
    requires k < |kids|
    ensures KidBlocks(kids) == KidBlocks(Without(kids, k)) + Blocks(kids[k])
    ensures SeparateAll(kids) <==>
              SeparateAll(Without(kids, k)) && Separate(kids[k]) && KidBlocks(Without(kids, k)) !! Blocks(kids[k])
    ensures WfAll(kids) <==> WfAll(Without(kids, k)) && Wf(kids[k])
  {
    hide Wf, WfAll, Separate, SeparateAll, ValueOf, ValuesOf, MembersOf, Blocks, KidBlocks;
    var a, b := kids[..k], kids[k + 1..];
    assert kids == a + [kids[k]] + b;
    Concat(a + [kids[k]], b);
    Concat(a, [kids[k]]);
    Concat(a, b);
    One(kids[k]);
    Regroup(KidBlocks(a), Blocks(kids[k]), KidBlocks(b));
  }

  lemma Regroup(a: set<object>, k: set<object>, b: set<object>)
    ensures a + k + b == a + b + k
    ensures a !! k && a + k !! b <==> a !! b && a + b !! k
  {
  }

  /** Removing one child removes one value. */
  lemma ValuesWithout(kids: seq<Tree>, k: nat)
    requires k < |kids|
    ensures ValuesOf(Without(kids, k)) == ValuesOf(kids)[..k] + ValuesOf(kids)[k + 1..]
    ensures MembersOf(Without(kids, k)) == MembersOf(kids)[..k] + MembersOf(kids)[k + 1..]
  {
    hide *;
    var a, b := kids[..k], kids[k + 1..];
    assert kids == a + [kids[k]] + b && Without(kids, k) == a + b by { WithoutIs(kids, k); }
    Concat(a + [kids[k]], b);
    Concat(a, [kids[k]]);
    Concat(a, b);
    One(kids[k]);
    Halves(ValuesOf(a), ValueOf(kids[k]), ValuesOf(b));
    Halves(MembersOf(a), Member(TextOf(kids[k].key, kids[k].name), ValueOf(kids[k])), MembersOf(b));
  }

  lemma WithoutIs(kids: seq<Tree>, k: nat)
    requires k < |kids|
    ensures kids == kids[..k] + [kids[k]] + kids[k + 1..] && Without(kids, k) == kids[..k] + kids[k + 1..]
  {
  }

  lemma Halves<T>(a: seq<T>, x: T, b: seq<T>)
    ensures (a + [x] + b)[..|a|] == a && (a + [x] + b)[|a| + 1..] == b
  {
  }

  /** The same for another tree in the place of the one at k. */
  lemma Instead(kids: seq<Tree>, k: nat, t: Tree)
    requires k < |kids|
    ensures Without(kids[k := t], k) == Without(kids, k)
    ensures ValuesOf(kids[k := t]) == ValuesOf(kids)[k := ValueOf(t)]
    ensures MembersOf(kids[k := t]) == MembersOf(kids)[k := Member(TextOf(t.key, t.name), ValueOf(t))]
  {
    hide Wf, WfAll, Separate, SeparateAll, ValueOf, ValuesOf, MembersOf, Blocks, KidBlocks;
    var a, b := kids[..k], kids[k + 1..];
    assert kids == a + [kids[k]] + b && kids[k := t] == a + [t] + b;
    Concat(a + [kids[k]], b);
    Concat(a, [kids[k]]);
    Concat(a + [t], b);
    Concat(a, [t]);
    One(kids[k]);
    One(t);
  }

  // ---- the links of one list ----

  /** Siblings are different nodes. */
  ghost predicate Different(kids: seq<Tree>) {
    forall i, j | 0 <= i < j < |kids| :: kids[i].node != kids[j].node
  }

  /** `suffix_object`. */
  method SuffixObject(prev: Node, item: Node, ghost kids: seq<Tree>, ghost t: Tree)
    requires kids != [] && prev == kids[|kids| - 1].node && Linked(kids) && Different(kids)
    requires t.node == item && item.next == null && forall i | 0 <= i < |kids| :: kids[i].node != item
    modifies prev`next, item`prev
    ensures Linked(kids + [t])
  {
    hide NodeSet;
    prev.next := item;
    item.prev := prev;
  }

  /** `if (c->prev) c->prev->next=c->next; if (c->next) c->next->prev=c->prev; if (c==array->child)
      array->child=c->next; c->prev=c->next=0;` */
  method Unlink(parent: Node, c: Node, ghost kids: seq<Tree>, ghost k: nat)
    requires k < |kids| && c == kids[k].node && Linked(kids) && Different(kids) && parent.child == First(kids)
    modifies parent`child, NodeSet(kids)`next, NodeSet(kids)`prev
    ensures Linked(Without(kids, k)) && parent.child == First(Without(kids, k)) && c.next == null && c.prev == null
  {
    hide NodeAt, NodeSet, First, Without;
    NodeIs(kids, k - 1);
    NodeIs(kids, k);
    NodeIs(kids, k + 1);
    NodeIs(kids, 0);
    assert k > 0 ==> kids[0].node != c;
    if c.prev != null { c.prev.next := c.next; }
    if c.next != null { c.next.prev := c.prev; }
    if c == parent.child { parent.child := c.next; }
    c.prev, c.next := null, null;
    Unlinked(kids, k);
  }

  /** NodeAt without its definition; and the first node. */
  lemma NodeIs(kids: seq<Tree>, k: int)
    ensures NodeAt(kids, k) == if 0 <= k < |kids| then kids[k].node else null
    ensures 0 <= k < |kids| ==> kids[k].node in NodeSet(kids)
    ensures First(kids) == NodeAt(kids, 0)
  {
  }

  lemma Unlinked(kids: seq<Tree>, k: nat)
    requires k < |kids|
    requires forall j {:trigger kids[j].node.next} | 0 <= j < |kids| && j != k ::
      kids[j].node.next == NodeAt(kids, if j == k - 1 then k + 1 else j + 1)
    requires forall j {:trigger kids[j].node.prev} | 0 <= j < |kids| && j != k ::
      kids[j].node.prev == NodeAt(kids, if j == k + 1 then k - 1 else j - 1)
    ensures Linked(Without(kids, k)) && First(Without(kids, k)) == if k == 0 then NodeAt(kids, 1) else First(kids)
  {
    hide NodeAt, NodeSet;
    var rest := Without(kids, k);
    forall i | 0 <= i < |rest|
      ensures rest[i].node.next == NodeAt(rest, i + 1) && rest[i].node.prev == NodeAt(rest, i - 1)
    {
      var j := if i < k then i else i + 1;
      assert rest[i] == kids[j];
      NodeIs(rest, i + 1);
      NodeIs(rest, i - 1);
      NodeIs(kids, if j == k - 1 then k + 1 else j + 1);
      NodeIs(kids, if j == k + 1 then k - 1 else j - 1);
    }
    NodeIs(kids, 1);
  }

  /** `newitem->next=c->next; newitem->prev=c->prev; if (newitem->next) newitem->next->prev=newitem;
      if (c==array->child) array->child=newitem; else newitem->prev->next=newitem; c->next=c->prev=0;` */
  method LinkInstead(parent: Node, c: Node, newitem: Node, ghost kids: seq<Tree>, ghost k: nat, ghost t: Tree)
    requires k < |kids| && c == kids[k].node && Linked(kids) && Different(kids) && parent.child == First(kids)
    requires t.node == newitem && forall i | 0 <= i < |kids| :: kids[i].node != newitem
    modifies parent`child, NodeSet(kids)`next, NodeSet(kids)`prev, newitem`next, newitem`prev
    ensures Linked(kids[k := t]) && parent.child == First(kids[k := t]) && c.next == null && c.prev == null
  {
    hide NodeAt, NodeSet, First;
    NodeIs(kids, k - 1);
    NodeIs(kids, k);
    NodeIs(kids, k + 1);
    NodeIs(kids, 0);
    assert k > 0 ==> kids[0].node != c;
    newitem.next := c.next;
    newitem.prev := c.prev;
    if newitem.next != null { newitem.next.prev := newitem; }
    if c == parent.child { parent.child := newitem; } else { newitem.prev.next := newitem; }
    c.next, c.prev := null, null;
    Replaced(kids, k, t);
  }

  lemma Replaced(kids: seq<Tree>, k: nat, t: Tree)
    requires k < |kids| && t.node.next == NodeAt(kids, k + 1) && t.node.prev == NodeAt(kids, k - 1)
    requires forall j {:trigger kids[j].node.next} | 0 <= j < |kids| && j != k ::
      kids[j].node.next == if j == k - 1 then t.node else NodeAt(kids, j + 1)
    requires forall j {:trigger kids[j].node.prev} | 0 <= j < |kids| && j != k ::
      kids[j].node.prev == if j == k + 1 then t.node else NodeAt(kids, j - 1)
    ensures Linked(kids[k := t]) && First(kids[k := t]) == if k == 0 then t.node else First(kids)
  {
    hide NodeAt, NodeSet;
    var now := kids[k := t];
    forall i | 0 <= i < |now|
      ensures now[i].node.next == NodeAt(now, i + 1) && now[i].node.prev == NodeAt(now, i - 1)
    {
      NodeIs(now, i + 1);
      NodeIs(now, i - 1);
      NodeIs(kids, i + 1);
      NodeIs(kids, i - 1);
    }
  }

  // ---- a node and its children ----

  /** A tree whose node is no reference: what the list operations work on. */
  ghost predicate Parent(p: Tree)
    reads Blocks(p)
  {
    Wf(p) && Separate(p) && !IsReference(p.typ)
  }

  /** A tree that is in no list. */
  ghost predicate Loose(t: Tree)
    reads t.node, Blocks(t)
  {
    Wf(t) && Separate(t) && t.node.next == null && t.node.prev == null
  }

  /** What a node owns apart from its children. */
  ghost function Own(p: Tree): set<object> { {p.node} + Opt(p.key) + Opt(p.str) }

  /** The part of the node that the list operations leave alone. */
  ghost predicate Shell(p: Tree)
    reads p.node`typ, p.node`name, p.node`valuestring, p.node`valueint, p.node`valuedouble, Opt(p.str), Opt(p.key)
  {
    && p.node.typ == p.typ && p.typ % 256 <= OBJECT && !IsReference(p.typ)
    && p.node.name == p.key && (p.key != null ==> CString(p.key, p.name) && p.key != p.str)
    && p.node.valuestring == p.str && (p.str != null ==> CString(p.str, p.content))
    && (p.typ % 256 == NUMBER ==> p.node.valuedouble == p.num && IntOf(p.node.valueint, p.num))
  }

  lemma Open(p: Tree)
    requires Parent(p)
    ensures Shell(p) && Children(p.node, p.kids) && Own(p) !! KidBlocks(p.kids) && Different(p.kids)
    ensures Blocks(p) == Own(p) + KidBlocks(p.kids) && NodeSet(p.kids) <= KidBlocks(p.kids)
    ensures p.node !in Opt(p.key) + Opt(p.str)
  {
    hide WfAll, SeparateAll, KidBlocks;
    Distinct(p.kids);
    KidsInBlocks(p.kids);
  }

  lemma Close(p: Tree, kids: seq<Tree>)
    requires Shell(p) && Children(p.node, kids) && Own(p) !! KidBlocks(kids)
    ensures Parent(p.(kids := kids)) && Blocks(p.(kids := kids)) == Own(p) + KidBlocks(kids)
  {
    hide WfAll, SeparateAll, KidBlocks, Linked;
  }

  /** Nothing that the siblings own has changed, except for their links to each other. */
  twostate predicate LinksOnly(kids: seq<Tree>)
    reads KidBlocks(kids), NodeSet(kids)
  {
    && old(allocated(KidBlocks(kids))) && unchanged(KidBlocks(kids) - NodeSet(kids))
    && forall n | n in NodeSet(kids) ::
      && n.typ == old(n.typ) && n.child == old(n.child) && n.name == old(n.name)
      && n.valuestring == old(n.valuestring) && n.valueint == old(n.valueint) && n.valuedouble == old(n.valuedouble)
  }

  twostate lemma TreesKept(kids: seq<Tree>)
    requires old(WfAll(kids)) && SeparateAll(kids) && LinksOnly(kids)
    ensures WfAll(kids)
  {
    hide Below, KidBlocks, SeparateAll, Separate, WfAll, Wf;
    KidsInBlocks(kids);
    Distinct(kids);
    forall j | 0 <= j < |kids| ensures OnlyLinksChanged(kids[j]) {
      BlocksAre(kids[j]);
      assert kids[j] in kids && Below(kids[j]) + Opt(kids[j].key) <= KidBlocks(kids) - NodeSet(kids);
    }
    WfAllKept(kids);
  }

  lemma BlocksAre(t: Tree)
    ensures Blocks(t) == {t.node} + Opt(t.key) + Below(t) && Opt(t.str) + KidBlocks(t.kids) == Below(t)
    ensures forall n: Node | n in Opt(t.key) :: false
  {
  }

  // ---- reading a list ----

  /** The position that an `int` argument selects. */
  function Index(which: int): nat { if which < 0 then 0 else which }

  /** `cJSON_GetArraySize`. */
  method GetArraySize(parent: Node, ghost kids: seq<Tree>) returns (i: nat)
    requires parent.child == First(kids) && Linked(kids)
    ensures i == |kids|
  {
    hide NodeAt, First;
    NodeIs(kids, 0);
    var c := parent.child;
    i := 0;
    while c != null
      invariant i <= |kids| && c == NodeAt(kids, i)
      decreases |kids| - i
    {
      NodeIs(kids, i);
      i, c := i + 1, c.next;
    }
    NodeIs(kids, i);
  }

  /** `cJSON_GetArrayItem`; the loop that Detach and Replace start with. */
  method GetArrayItem(parent: Node, item: int, ghost kids: seq<Tree>) returns (c: Node?)
    requires parent.child == First(kids) && Linked(kids)
    ensures c == NodeAt(kids, Index(item))
  {
    hide NodeAt, First;
    NodeIs(kids, 0);
    c := parent.child;
    var left := item;
    while c != null && left > 0
      invariant Index(left) <= Index(item) && c == NodeAt(kids, Index(item) - Index(left))
      decreases left
    {
      NodeIs(kids, Index(item) - left);
      left, c := left - 1, c.next;
    }
    NodeIs(kids, Index(item) - Index(left));
    NodeIs(kids, Index(item));
  }

  /** `tolower` in the "C" locale. */
  function ToLower(c: byte): byte { if 0x41 <= c <= 0x5A then c + 32 else c }

  /** Equal strings up to the case of letters; a null string equals a null string only. */
  predicate SameName(a: CStr, b: CStr) {
    match (a, b)
    case (Str(s), Str(t)) => |s| == |t| && forall k | 0 <= k < |s| :: ToLower(s[k]) == ToLower(t[k])
    case _ => a == b
  }

  /** Names are the same exactly if they are equal up to letters that differ by 32; a null one equals a null one. */
  lemma SameNameIff(s: text, t: text)
    ensures SameName(Str(s), Str(t)) <==>
      |s| == |t| && forall k | 0 <= k < |s| ::
        s[k] == t[k] || (0x41 <= s[k] <= 0x5A && t[k] == s[k] + 32) || (0x41 <= t[k] <= 0x5A && s[k] == t[k] + 32)
    ensures SameName(NoStr, NoStr) && !SameName(NoStr, Str(t)) && !SameName(Str(s), NoStr)
  {
  }

  /** `cJSON_strcasecmp`: whether the strings differ. */
  method StrCaseCmp(s1: array?<byte>, s2: array?<byte>, ghost t1: text, ghost t2: text) returns (differ: bool)
    requires (s1 != null ==> CString(s1, t1)) && (s2 != null ==> CString(s2, t2))
    ensures differ <==> !SameName(TextOf(s1, t1), TextOf(s2, t2))
  {
    if s1 == null { return s1 != s2; }
    if s2 == null { return true; }
    var k := 0;
    while ToLower(s1[k]) == ToLower(s2[k])
      invariant k <= |t1| && k <= |t2| && forall j | 0 <= j < k :: ToLower(t1[j]) == ToLower(t2[j])
      decreases |t1| - k
    {
      if s1[k] == NUL { return false; }
      k := k + 1;
    }
    return true;
  }

  /** The position of the first member with a name, or the number of members. */
  function Find(ms: seq<Member>, key: CStr): (i: nat)
    ensures i <= |ms| && (i < |ms| ==> SameName(ms[i].name, key))
    ensures forall j | 0 <= j < i :: !SameName(ms[j].name, key)
  {
    if ms == [] || SameName(ms[0].name, key) then 0 else 1 + Find(ms[1..], key)
  }

  /** Only one position is before every other match and, unless it is the end, a match. */
  lemma FindIs(ms: seq<Member>, key: CStr, i: nat)
    requires i <= |ms| && (i < |ms| ==> SameName(ms[i].name, key))
    requires forall j | 0 <= j < i :: !SameName(ms[j].name, key)
    ensures Find(ms, key) == i
  {
  }

  /** An added member is found by its name unless an earlier one has that name already. */
  lemma AddedFound(ms: seq<Member>, m: Member, key: CStr)
    requires SameName(m.name, key)
    ensures Find(ms + [m], key) == Find(ms, key)
  {
    FindIs(ms + [m], key, Find(ms, key));
  }

  /** A member that replaces the one found under a name is found under that name. */
  lemma ReplacedFound(ms: seq<Member>, m: Member, key: CStr)
    requires Find(ms, key) < |ms| && SameName(m.name, key)
    ensures Find(ms[Find(ms, key) := m], key) == Find(ms, key)
  {
    FindIs(ms[Find(ms, key) := m], key, Find(ms, key));
  }

  /** When the member found under a name is removed, the next one with that name is found. */
  lemma RemovedFound(ms: seq<Member>, key: CStr)
    requires Find(ms, key) < |ms|
    ensures var k := Find(ms, key);
      Find(ms[..k] + ms[k + 1..], key) == k + Find(ms[k + 1..], key)
  {
    var k := Find(ms, key);
    FindIs(ms[..k] + ms[k + 1..], key, k + Find(ms[k + 1..], key));
  }

  /** `while (c && cJSON_strcasecmp(c->string,string)) i++,c=c->next;` */
  method Seek(parent: Node, key: array?<byte>, ghost name: text, ghost kids: seq<Tree>) returns (i: nat, c: Node?)
    requires parent.child == First(kids) && Linked(kids) && WfAll(kids) && (key != null ==> CString(key, name))
    ensures i == Find(MembersOf(kids), TextOf(key, name)) && c == NodeAt(kids, i)
  {
    hide NodeAt, First, Wf, WfAll, MembersOf, ValueOf, SameName, Find;
    ghost var ms, wanted := MembersOf(kids), TextOf(key, name);
    NodeIs(kids, 0);
    assert allocated(KidBlocks(kids));
    i, c := 0, parent.child;
    while true
      invariant i <= |kids| && c == NodeAt(kids, i) && WfAll(kids)
        && forall j | 0 <= j < i :: !SameName(ms[j].name, wanted)
      decreases |kids| - i
    {
      NodeIs(kids, i);
      if c == null { break; }
      NameAt(kids, i);
      assert allocated(KidBlocks(kids));
      var differ := StrCaseCmp(c.name, key, kids[i].name, name);
      if !differ { break; }
      i, c := i + 1, c.next;
    }
    FindIs(ms, wanted, i);
  }

  lemma NameAt(kids: seq<Tree>, i: nat)
    requires i < |kids| && WfAll(kids)
    ensures var k := kids[i];
      k.node.name == k.key && (k.key != null ==> CString(k.key, k.name))
          && MembersOf(kids)[i].name == TextOf(k.key, k.name)
  {
    hide WfAll, MembersOf;
    WfAt(kids, i);
    ValuesAt(kids, i);
  }

  /** `cJSON_GetObjectItem`: the first child whose name matches. */
  method GetObjectItem(parent: Node, key: array?<byte>, ghost name: text, ghost kids: seq<Tree>) returns (c: Node?)
    requires parent.child == First(kids) && Linked(kids) && WfAll(kids) && (key != null ==> CString(key, name))
    ensures c == NodeAt(kids, Find(MembersOf(kids), TextOf(key, name)))
  {
    var i;
    i, c := Seek(parent, key, name, kids);
  }

  // ---- changing a list ----

  /** `while (c && c->next) c=c->next;` */
  method LastOf(first: Node, ghost kids: seq<Tree>) returns (c: Node)
    requires kids != [] && first == kids[0].node && Linked(kids)
    ensures c == kids[|kids| - 1].node
  {
    hide NodeAt, First;
    c := first;
    ghost var i := 0;
    NodeIs(kids, 1);
    while c.next != null
      invariant i < |kids| && c == kids[i].node && c.next == NodeAt(kids, i + 1)
      decreases |kids| - i
    {
      NodeIs(kids, i + 1);
      c := c.next;
      i := i + 1;
    }
    NodeIs(kids, i + 1);
  }

  /** `cJSON_AddItemToArray`: append. */
  method AddItemToArray(parent: Node, item: Node?, ghost p: Tree, ghost t: Tree)
    requires parent == p.node && Parent(p)
    requires item != null ==> item == t.node && Loose(t) && Blocks(t) !! Blocks(p)
    modifies parent`child, NodeSet(p.kids)`next, Only(item)`prev
    ensures item == null ==> Parent(p) && parent.child == old(parent.child)
    ensures item != null ==> Parent(p.(kids := p.kids + [t]))
    ensures item != null ==> Blocks(p.(kids := p.kids + [t])) == Blocks(p) + Blocks(t)
  {
    if item == null { return; }
    hide Parent, Shell, Wf, WfAll, Separate, SeparateAll, Blocks, Below, KidBlocks, Linked, First, NodeSet, Own;
    hide Different;
    ghost var kids := p.kids;
    Open(p);
    Stranger(p, t);
    AttachTree(parent, item, kids, t);
    assert allocated(Own(p));
    Added(p, t);
  }

  lemma {:induction false} Added(p: Tree, t: Tree)
    requires Shell(p) && p.node.child == First(p.kids + [t]) && Linked(p.kids + [t])
      && Blocks(p) == Own(p) + KidBlocks(p.kids)
    requires WfAll(p.kids) && SeparateAll(p.kids) && Wf(t) && Separate(t) && Own(p) !! KidBlocks(p.kids)
    requires Own(p) !! Blocks(t) && Blocks(t) !! KidBlocks(p.kids)
    ensures Parent(p.(kids := p.kids + [t])) && Blocks(p.(kids := p.kids + [t])) == Blocks(p) + Blocks(t)
  {
    hide Parent, Shell, Wf, WfAll, Separate, SeparateAll, Blocks, Below, KidBlocks, Linked;
    Append(p.kids, t);
    Close(p, p.kids + [t]);
  }

  method AttachTree(parent: Node, item: Node, ghost kids: seq<Tree>, ghost t: Tree)
    requires parent.child == First(kids) && Linked(kids) && Different(kids) && WfAll(kids) && SeparateAll(kids)
    requires item == t.node && Loose(t) && KidBlocks(kids) !! Blocks(t) && parent !in KidBlocks(kids) + Blocks(t)
    modifies parent`child, NodeSet(kids)`next, item`prev
    ensures Linked(kids + [t]) && parent.child == First(kids + [t]) && WfAll(kids) && Wf(t)
  {
    hide Wf, WfAll, Separate, SeparateAll, Blocks, Below, KidBlocks, Linked, First, NodeSet, Different;
    KidsInBlocks(kids);
    NoneOf(kids, t);
    assert allocated(KidBlocks(kids)) && allocated(Blocks(t));
    Attach(parent, item, kids, t);
    TreesKept(kids);
    WfKept(t);
  }

  /** The links of `cJSON_AddItemToArray`. */
  method Attach(parent: Node, item: Node, ghost kids: seq<Tree>, ghost t: Tree)
    requires parent.child == First(kids) && Linked(kids) && Different(kids)
    requires t.node == item && item.next == null && item.prev == null
      && forall i | 0 <= i < |kids| :: kids[i].node != item
    modifies parent`child, NodeSet(kids)`next, item`prev
    ensures Linked(kids + [t]) && parent.child == First(kids + [t])
  {
    hide NodeAt;
    NodeIs(kids + [t], 1);
    NodeIs(kids + [t], -1);
    var c := parent.child;
    if c == null {
      parent.child := item;
    } else {
      c := LastOf(c, kids);
      NodeIs(kids, |kids| - 1);
      SuffixObject(c, item, kids, t);
    }
  }

  /** The tree t has nothing in common with p. */
  lemma Stranger(p: Tree, t: Tree)
    requires Parent(p) && Wf(t) && Separate(t) && Blocks(t) !! Blocks(p)
    ensures WfAll(p.kids) && SeparateAll(p.kids) && p.node !in Blocks(t) + KidBlocks(p.kids)
    ensures Own(p) !! Blocks(t) && Blocks(t) !! KidBlocks(p.kids)
  {
    hide WfAll, SeparateAll, KidBlocks;
  }

  lemma NoneOf(kids: seq<Tree>, t: Tree)
    requires KidBlocks(kids) !! Blocks(t) && Separate(t)
    ensures forall i | 0 <= i < |kids| :: kids[i].node != t.node
    ensures t.node in Blocks(t) && t.node !in KidBlocks(kids) + Below(t) + Opt(t.key)
      && Below(t) + Opt(t.key) <= Blocks(t)
    ensures NodeSet(kids) !! Below(t) + Opt(t.key)
  {
    hide SeparateAll, KidBlocks;
    KidsInBlocks(kids);
    forall i | 0 <= i < |kids| ensures kids[i].node != t.node { NodeIs(kids, i); }
  }

  ghost function Only(n: Node?): set<Node> { if n == null then {} else {n} }

  method UnlinkTree(parent: Node, c: Node, ghost kids: seq<Tree>, ghost k: nat)
    requires parent.child == First(kids) && Linked(kids) && Different(kids) && WfAll(kids) && SeparateAll(kids)
    requires k < |kids| && c == kids[k].node && parent !in KidBlocks(kids)
    modifies parent`child, NodeSet(kids)`next, NodeSet(kids)`prev
    ensures Linked(Without(kids, k)) && parent.child == First(Without(kids, k)) && c.next == null && c.prev == null
    ensures WfAll(kids)
  {
    hide Wf, WfAll, Separate, SeparateAll, Blocks, Below, KidBlocks, Linked, First, NodeSet, Different, Without;
    KidsInBlocks(kids);
    assert allocated(KidBlocks(kids));
    Unlink(parent, c, kids, k);
    TreesKept(kids);
  }

  /** `cJSON_DetachItemFromArray`: delete-at; what is detached belongs to the caller. */
  method DetachItemFromArray(parent: Node, which: int, ghost p: Tree) returns (c: Node?)
    requires parent == p.node && Parent(p)
    modifies parent`child, NodeSet(p.kids)`next, NodeSet(p.kids)`prev
    ensures c == NodeAt(p.kids, Index(which))
    ensures if c == null then Parent(p) else Detached(p, Index(which))
  {
    hide Parent, Shell, Wf, WfAll, Separate, SeparateAll, Blocks, Below, KidBlocks, Linked, First, NodeSet, Own;
    hide Different, Without, Detached, NodeAt;
    ghost var kids, k := p.kids, Index(which);
    Open(p);
    assert allocated(Blocks(p)) && allocated(KidBlocks(kids)) && allocated(Own(p));
    c := GetArrayItem(parent, which, kids);
    NodeIs(kids, k);
    if c == null { return; }
    UnlinkTree(parent, c, kids, k);
    assert allocated(Own(p));
    Removed(p, k);
  }

  /** The child at position k is out of p; the two share nothing. */
  ghost predicate Detached(p: Tree, k: nat)
    requires k < |p.kids|
    reads Blocks(p.kids[k]), Blocks(p.(kids := Without(p.kids, k)))
  {
    var t, rest := p.kids[k], p.(kids := Without(p.kids, k));
    t.node in Blocks(t) && Loose(t) && Parent(rest) && Blocks(rest) !! Blocks(t)
        && Blocks(p) == Blocks(rest) + Blocks(t)
  }

  lemma {:induction false} Removed(p: Tree, k: nat)
    requires k < |p.kids| && Shell(p) && Blocks(p) == Own(p) + KidBlocks(p.kids)
    requires p.node.child == First(Without(p.kids, k)) && Linked(Without(p.kids, k))
    requires WfAll(p.kids) && SeparateAll(p.kids) && Own(p) !! KidBlocks(p.kids)
    requires p.kids[k].node.next == null && p.kids[k].node.prev == null
    ensures Detached(p, k)
  {
    hide Parent, Shell, Wf, WfAll, Separate, SeparateAll, Blocks, Below, KidBlocks, Linked, Without;
    Around(p.kids, k);
    Close(p, Without(p.kids, k));
    BlocksAre(p.kids[k]);
  }

  /** `cJSON_DeleteItemFromArray`. */
  method DeleteItemFromArray(heap: Heap, parent: Node, which: int, ghost p: Tree)
    requires parent == p.node && Parent(p) && Blocks(p) <= heap.live
    modifies heap`live, parent`child, NodeSet(p.kids)`next, NodeSet(p.kids)`prev
    ensures var k := Index(which);
      if k < |p.kids|
      then Parent(p.(kids := Without(p.kids, k))) && heap.live == old(heap.live) - Blocks(p.kids[k])
      else Parent(p) && heap.live == old(heap.live)
  {
    hide Parent, Loose, Wf, Separate, Blocks, Below, NodeSet, Without, NodeAt;
    ghost var k := Index(which);
    NodeIs(p.kids, k);
    var c := DetachItemFromArray(parent, which, p);
    if c == null { return; }
    DeleteLoose(heap, c, p.kids[k], p.(kids := Without(p.kids, k)));
  }

  /** `cJSON_Delete` of a detached tree, beside another tree. */
  method DeleteLoose(heap: Heap, c: Node, ghost t: Tree, ghost p: Tree)
    requires c == t.node && Loose(t) && Blocks(t) <= heap.live && Parent(p)
    modifies heap`live
    ensures heap.live == old(heap.live) - Blocks(t) && Parent(p)
  {
    hide Parent, Wf, WfAll, Separate, SeparateAll, Blocks, Below, KidBlocks;
    One(t);
    HeapIsNoBlock(heap, p);
    assert allocated(Blocks(p));
    Delete(heap, c, [t]);
  }

  /** `cJSON_DetachItemFromObject`: the first child with the name. */
  method DetachItemFromObject(parent: Node, key: array?<byte>, ghost name: text, ghost p: Tree) returns (c: Node?)
    requires parent == p.node && Parent(p) && (key != null ==> CString(key, name))
    modifies parent`child, NodeSet(p.kids)`next, NodeSet(p.kids)`prev
    ensures var k := Find(MembersOf(p.kids), TextOf(key, name));
      c == NodeAt(p.kids, k) && if c == null then Parent(p) else Detached(p, k)
  {
    hide Parent, Shell, Wf, WfAll, Separate, SeparateAll, Blocks, Below, KidBlocks, Linked, First, NodeSet, Own;
    hide Different, Without, Detached, NodeAt, Find;
    Open(p);
    assert allocated(Blocks(p)) && allocated(KidBlocks(p.kids));
    var i;
    i, c := Seek(parent, key, name, p.kids);
    if c == null { return; }
    NodeIs(p.kids, i);
    c := DetachItemFromArray(parent, i, p);
  }

  /** `cJSON_DeleteItemFromObject`. */
  method DeleteItemFromObject(heap: Heap, parent: Node, key: array?<byte>, ghost name: text, ghost p: Tree)
    requires parent == p.node && Parent(p) && (key != null ==> CString(key, name)) && Blocks(p) <= heap.live
    modifies heap`live, parent`child, NodeSet(p.kids)`next, NodeSet(p.kids)`prev
    ensures var k := Find(MembersOf(p.kids), TextOf(key, name));
      if k < |p.kids|
      then Parent(p.(kids := Without(p.kids, k))) && heap.live == old(heap.live) - Blocks(p.kids[k])
      else Parent(p) && heap.live == old(heap.live)
  {
    hide Parent, Loose, Wf, Separate, Blocks, Below, NodeSet, Without, NodeAt, Find;
    ghost var k := Find(MembersOf(p.kids), TextOf(key, name));
    NodeIs(p.kids, k);
    var c := DetachItemFromObject(parent, key, name, p);
    if c == null { return; }
    DeleteLoose(heap, c, p.kids[k], p.(kids := Without(p.kids, k)));
  }

  method LinkTreeInstead(parent: Node, c: Node, newitem: Node, ghost kids: seq<Tree>, ghost k: nat, ghost t: Tree)
    requires parent.child == First(kids) && Linked(kids) && Different(kids) && WfAll(kids) && SeparateAll(kids)
    requires k < |kids| && c == kids[k].node && parent !in KidBlocks(kids)
    requires newitem == t.node && Wf(t) && Separate(t) && KidBlocks(kids) !! Blocks(t) && parent !in Blocks(t)
    modifies parent`child, NodeSet(kids)`next, NodeSet(kids)`prev, newitem`next, newitem`prev
    ensures Linked(kids[k := t]) && parent.child == First(kids[k := t]) && c.next == null && c.prev == null
    ensures WfAll(kids) && Wf(t)
  {
    hide Wf, WfAll, Separate, SeparateAll, Blocks, Below, KidBlocks, Linked, First, NodeSet, Different;
    KidsInBlocks(kids);
    NoneOf(kids, t);
    assert allocated(KidBlocks(kids)) && allocated(Blocks(t));
    LinkInstead(parent, c, newitem, kids, k, t);
    TreesKept(kids);
    WfKept(t);
  }

  /** `cJSON_ReplaceItemInArray`: update-at; the child that was there is deleted. */
  method ReplaceItemInArray(heap: Heap, parent: Node, which: int, newitem: Node, ghost p: Tree, ghost t: Tree)
    requires parent == p.node && Parent(p) && Blocks(p) <= heap.live
    requires newitem == t.node && Wf(t) && Separate(t) && Blocks(t) !! Blocks(p)
    modifies heap`live, parent`child, NodeSet(p.kids)`next, NodeSet(p.kids)`prev, newitem`next, newitem`prev
    ensures var k := Index(which);
      if k < |p.kids|
      then Parent(p.(kids := p.kids[k := t])) && heap.live == old(heap.live) - Blocks(p.kids[k])
           && Blocks(p.(kids := p.kids[k := t])) == Blocks(p) - Blocks(p.kids[k]) + Blocks(t)
      else Parent(p) && Wf(t) && heap.live == old(heap.live)
  {
    hide Parent, Shell, Wf, WfAll, Separate, SeparateAll, Blocks, Below, KidBlocks, Linked, First, NodeSet, Own;
    hide Different, NodeAt;
    ghost var kids, k := p.kids, Index(which);
    Open(p);
    Stranger(p, t);
    assert allocated(Blocks(p)) && allocated(KidBlocks(kids)) && allocated(Own(p)) && allocated(Blocks(t));
    var c := GetArrayItem(parent, which, kids);
    NodeIs(kids, k);
    if c == null { return; }
    LinkTreeInstead(parent, c, newitem, kids, k, t);
    Exchanged(p, k, t);
    DeleteLoose(heap, c, kids[k], p.(kids := kids[k := t]));
  }

  lemma {:induction false} Exchanged(p: Tree, k: nat, t: Tree)
    requires k < |p.kids| && Shell(p) && Blocks(p) == Own(p) + KidBlocks(p.kids)
    requires p.node.child == First(p.kids[k := t]) && Linked(p.kids[k := t])
    requires WfAll(p.kids) && SeparateAll(p.kids) && Own(p) !! KidBlocks(p.kids)
    requires Wf(t) && Separate(t) && Own(p) !! Blocks(t) && Blocks(t) !! KidBlocks(p.kids)
    requires p.kids[k].node.next == null && p.kids[k].node.prev == null
    ensures Parent(p.(kids := p.kids[k := t])) && Loose(p.kids[k]) && Blocks(p.kids[k]) <= Blocks(p)
    ensures Blocks(p.(kids := p.kids[k := t])) == Blocks(p) - Blocks(p.kids[k]) + Blocks(t)
  {
    hide Parent, Shell, Wf, WfAll, Separate, SeparateAll, Blocks, Below, KidBlocks, Linked, Without;
    Around(p.kids, k);
    Around(p.kids[k := t], k);
    Instead(p.kids, k, t);
    Close(p, p.kids[k := t]);
  }

  // ---- names ----

  /** The tree with another name. */
  ghost function Renamed(t: Tree, key: array?<byte>, name: text): Tree { t.(key := key, name := name) }

  /** `item->string=cJSON_strdup(key)`: the old name is neither read nor freed. The name is null when
      the allocation is refused. */
  method SetName(heap: Heap, item: Node, key: array<byte>, ghost name: text, ghost t: Tree) returns (ghost u: Tree)
    requires item == t.node && Wf(t) && Separate(t) && CString(key, name)
    requires Blocks(t) - Opt(t.key) <= heap.live
    modifies heap, item`name
    ensures u == Renamed(t, item.name, name) && Wf(u) && Separate(u) && fresh(Opt(u.key))
    ensures heap.live == old(heap.live) + Opt(u.key) && (u.key == null <==> heap.failures > old(heap.failures))
    ensures Blocks(u) == Blocks(t) - Opt(t.key) + Opt(u.key)
  {
    hide Wf, WfAll, Separate, SeparateAll, Blocks, Below, KidBlocks;
    NameParts(t);
    HeapIsNoBlock(heap, t);
    assert allocated(Blocks(t)) && allocated(KidBlocks(t.kids)) && allocated(Opt(t.str));
    var len := Strlen(key, name);
    assert key[..len] == name;
    var copy := Strdup(heap, key[..len]);
    item.name := copy;
    u := Renamed(t, copy, name);
    NameChanged(t, u);
  }

  /** The part of a tree that does not depend on the name of its node. */
  ghost predicate Nameless(t: Tree)
    reads t.node`typ, t.node`child, t.node`valuestring, t.node`valueint, t.node`valuedouble, Opt(t.str)
  {
    && t.node.typ == t.typ && t.typ % 256 <= OBJECT
    && (t.str != null ==> CString(t.str, t.content))
    && (t.typ % 256 == NUMBER ==> t.node.valuedouble == t.num && IntOf(t.node.valueint, t.num))
    && if IsReference(t.typ) then t.str == null && t.kids == []
       else t.node.valuestring == t.str && t.node.child == First(t.kids)
  }

  lemma NameParts(t: Tree)
    requires Wf(t) && Separate(t)
    ensures Nameless(t) && Linked(t.kids) && WfAll(t.kids) && SeparateAll(t.kids)
    ensures t.node !in KidBlocks(t.kids) && Opt(t.str) !! KidBlocks(t.kids) && t.node !in Opt(t.str)
    ensures Blocks(t) - Opt(t.key) == {t.node} + Opt(t.str) + KidBlocks(t.kids)
  {
    hide WfAll, SeparateAll, KidBlocks;
  }

  lemma NameChanged(t: Tree, u: Tree)
    requires u == Renamed(t, u.key, u.name) && t.node.name == u.key && (u.key != null ==> CString(u.key, u.name))
    requires Nameless(t) && Linked(t.kids) && WfAll(t.kids) && SeparateAll(t.kids)
    requires t.node !in KidBlocks(t.kids) && Opt(t.str) !! KidBlocks(t.kids) && t.node !in Opt(t.str)
    requires Opt(u.key) !! {t.node} + Opt(t.str) + KidBlocks(t.kids)
    ensures Wf(u) && Separate(u) && Blocks(u) == {t.node} + Opt(t.str) + KidBlocks(t.kids) + Opt(u.key)
  {
    hide WfAll, SeparateAll, KidBlocks, Linked;
  }

  /** `cJSON_AddItemToObject`: append under a new name. Every live block that belonged to neither tree
      still does not belong to the result, and there are no other such blocks. */
  method AddItemToObject(heap: Heap, parent: Node, key: array<byte>, item: Node?, ghost name: text, ghost p: Tree,
                         ghost t: Tree)
    returns (ghost u: Tree)
    requires parent == p.node && Parent(p) && Blocks(p) <= heap.live && CString(key, name)
    requires item != null ==>
      item == t.node && Loose(t) && Blocks(t) !! Blocks(p) && Blocks(t) <= heap.live && key != t.key
    modifies heap, Only(item)`name, Only(item)`prev, parent`child, NodeSet(p.kids)`next
    ensures item == null ==> Parent(p) && heap.live == old(heap.live) && heap.failures == old(heap.failures)
    ensures item != null ==> u == Renamed(t, u.key, name) && (u.key == null <==> heap.failures > old(heap.failures))
    ensures item != null ==> Parent(p.(kids := p.kids + [u])) && Blocks(p.(kids := p.kids + [u])) <= heap.live
    ensures item != null ==>
              heap.live - Blocks(p.(kids := p.kids + [u])) == old(heap.live) - Blocks(p) - Blocks(t)
  {
    hide Parent, Wf, Separate, Blocks, Below, NodeSet;
    u := t;
    HeapIsNoBlock(heap, p);
    NodesIn(p);
    assert allocated(Blocks(p));
    if item == null { return; }
    HeapIsNoBlock(heap, t);
    NodeOf(t);
    assert allocated(Blocks(t));
    if item.name != null { heap.Free(item.name); }
    u := SetName(heap, item, key, name, t);
    AddItemToArray(parent, item, p, u);
    ghost var owned := Blocks(p.(kids := p.kids + [u]));
    Balance(old(heap.live), Blocks(p), Blocks(t), Opt(t.key), Opt(u.key), heap.live, owned);
  }

  lemma Balance(before: set<object>, p: set<object>, t: set<object>, key: set<object>, copy: set<object>,
                after: set<object>, owned: set<object>)
    requires p + t <= before && p !! t && key <= t && copy !! before
    requires after == before - key + copy && owned == p + (t - key + copy)
    ensures owned <= after && after - owned == before - p - t
  {
  }

  lemma NodesIn(p: Tree)
    ensures NodeSet(p.kids) <= Blocks(p)
  {
    KidsInBlocks(p.kids);
  }

  lemma NodeOf(t: Tree)
    requires Wf(t) && Separate(t)
    ensures t.node in Blocks(t) && t.node.name == t.key && Opt(t.key) <= Blocks(t)
    ensures t.key != null ==> CString(t.key, t.name)
  {
    hide WfAll, SeparateAll, KidBlocks;
  }

  /** `cJSON_ReplaceItemInObject`: the name that newitem had before is overwritten without being freed, so
      exactly that block is lost; nothing is lost if and only if the name is not found or newitem had none. */
  method ReplaceItemInObject(heap: Heap, parent: Node, key: array<byte>, newitem: Node, ghost name: text,
                             ghost p: Tree, ghost t: Tree)
    returns (ghost u: Tree)
    requires parent == p.node && Parent(p) && Blocks(p) <= heap.live && CString(key, name)
    requires newitem == t.node && Wf(t) && Separate(t) && Blocks(t) !! Blocks(p) && Blocks(t) <= heap.live
    modifies heap, newitem`name, parent`child, NodeSet(p.kids)`next, NodeSet(p.kids)`prev, newitem`next, newitem`prev
    ensures var k := Find(MembersOf(p.kids), Str(name));
      if k < |p.kids| then
        var q := p.(kids := p.kids[k := u]);
        && u == Renamed(t, u.key, name) && (u.key == null <==> heap.failures > old(heap.failures))
        && Parent(q) && Blocks(q) <= heap.live
        && heap.live - Blocks(q) == old(heap.live) - Blocks(p) - Blocks(t) + Opt(t.key)
      else u == t && Parent(p) && Wf(t) && heap.live == old(heap.live)
    ensures var k := Find(MembersOf(p.kids), Str(name));
      var owned := if k < |p.kids| then Blocks(p.(kids := p.kids[k := u])) else Blocks(p) + Blocks(t);
      heap.live - owned == old(heap.live) - Blocks(p) - Blocks(t) <==> k == |p.kids| || t.key == null
  {
    hide Parent, Wf, WfAll, Separate, SeparateAll, Blocks, Below, KidBlocks, Linked, First, NodeSet, Own, Different;
    hide NodeAt, Find, Shell;
    u := t;
    LossIff(old(heap.live), p, t);
    HeapIsNoBlock(heap, p);
    NodesIn(p);
    HeapIsNoBlock(heap, t);
    NodeOf(t);
    Open(p);
    assert allocated(Blocks(p)) && allocated(Blocks(t)) && allocated(KidBlocks(p.kids));
    var i, c := Seek(parent, key, name, p.kids);
    NodeIs(p.kids, i);
    if c == null { return; }
    u := SetName(heap, newitem, key, name, t);
    ChildIn(p, i);
    ReplaceItemInArray(heap, parent, i, newitem, p, u);
    Loss(old(heap.live), Blocks(p), Blocks(t), Blocks(p.kids[i]), Opt(t.key), Opt(u.key), heap.live,
        Blocks(p.(kids := p.kids[i := u])));
  }

  lemma ChildIn(p: Tree, i: nat)
    requires i < |p.kids|
    ensures Blocks(p.kids[i]) <= Blocks(p)
  {
    KidsInBlocks(p.kids);
    assert p.kids[i] in p.kids;
  }

  lemma Loss(before: set<object>, p: set<object>, t: set<object>, child: set<object>, key: set<object>,
             copy: set<object>, after: set<object>, owned: set<object>)
    requires p + t <= before && p !! t && key <= t && copy !! before && child <= p
    requires after == before + copy - child && owned == p - child + (t - key + copy)
    ensures owned <= after && after - owned == before - p - t + key
  {
  }

  lemma LossIff(before: set<object>, p: Tree, t: Tree)
    ensures before - Blocks(p) - Blocks(t) + Opt(t.key) == before - Blocks(p) - Blocks(t) <==> t.key == null
  {
    hide Below, KidBlocks;
    if t.key != null { assert t.key in before - Blocks(p) - Blocks(t) + Opt(t.key); }
  }

  // ---- references ----

  /** A node that shows the contents of another one without owning them. */
  ghost function Reference(ref: Node, t: Tree): Tree {
    Tree(ref, if IsReference(t.typ) then t.typ else t.typ + IS_REFERENCE, t.num, null, [], null, [], [])
  }

  /** `create_reference`. */
  method CreateReference(heap: Heap, item: Node, ghost t: Tree) returns (ref: Node?)
    requires item == t.node && Wf(t)
    modifies heap
    ensures ref == null ==> heap.live == old(heap.live) && heap.failures > old(heap.failures)
    ensures ref != null ==> fresh(ref) && heap.live == old(heap.live) + {ref} && heap.failures == old(heap.failures)
    ensures ref != null ==> Loose(Reference(ref, t)) && Blocks(Reference(ref, t)) == {ref}
    ensures ref != null ==> ref.child == old(item.child) && ref.valuestring == old(item.valuestring)
  {
    hide WfAll, Wf, Separate, Blocks, Linked;
    TypeOf(t);
    ref := heap.NewItem();
    if ref == null { return; }
    ref.child, ref.typ, ref.valuestring := item.child, item.typ, item.valuestring;
    ref.valueint, ref.valuedouble := item.valueint, item.valuedouble;
    ref.name := null;
    if ref.typ / IS_REFERENCE % 2 == 0 { ref.typ := ref.typ + IS_REFERENCE; }
    ref.next, ref.prev := null, null;
    ReferenceIs(ref, t);
  }

  lemma TypeOf(t: Tree)
    requires Wf(t)
    ensures t.node.typ == t.typ && t.typ % 256 <= OBJECT
    ensures t.typ % 256 == NUMBER ==> t.node.valuedouble == t.num && IntOf(t.node.valueint, t.num)
  {
    hide WfAll, Linked;
  }

  lemma ReferenceIs(ref: Node, t: Tree)
    requires t.typ % 256 <= OBJECT && ref.name == null && ref.typ == Reference(ref, t).typ
    requires t.typ % 256 == NUMBER ==> ref.valuedouble == t.num && IntOf(ref.valueint, t.num)
    ensures var r := Reference(ref, t); Wf(r) && Separate(r) && Blocks(r) == {ref}
  {
    assert KidBlocks([]) == {};
    assert (t.typ + IS_REFERENCE) % 256 == t.typ % 256;
  }

  /** `cJSON_AddItemReferenceToArray`: the item itself is not touched, and deleting the reference later
      frees one node. */
  method AddItemReferenceToArray(heap: Heap, parent: Node, item: Node, ghost p: Tree, ghost t: Tree)
      returns (ghost ref: Node?)
    requires parent == p.node && Parent(p) && item == t.node && Wf(t) && Blocks(t) !! Blocks(p)
    modifies heap, parent`child, NodeSet(p.kids)`next
    ensures Wf(t) && heap.live == old(heap.live) + Only(ref) && (ref == null <==> heap.failures > old(heap.failures))
    ensures if ref == null then Parent(p)
            else fresh(ref) && Parent(p.(kids := p.kids + [Reference(ref, t)]))
                 && Blocks(p.(kids := p.kids + [Reference(ref, t)])) == Blocks(p) + {ref}
  {
    hide Parent, Wf, Separate, Blocks, Below, NodeSet;
    HeapIsNoBlock(heap, p);
    HeapIsNoBlock(heap, t);
    NodesIn(p);
    NodeIn(p);
    assert allocated(Blocks(p)) && allocated(Blocks(t));
    var made := CreateReference(heap, item, t);
    ref := made;
    AddItemToArray(parent, made, p, if made == null then t else Reference(made, t));
  }

  lemma NodeIn(p: Tree)
    ensures p.node in Blocks(p)
  {
  }
}
