/** The parser of json/cJSON.c on the heap: it links nodes into the tree before it fills them, so that
    `cJSON_Delete` finds everything when an allocation or the input fails. */
module JsonParser {
  import opened CText
  import opened CHeap
  import opened JsonNumber
  import opened JsonValue
  import opened JsonParse
  import opened JsonScanner
  import opened JsonTree
  import opened JsonDelete
  import JsonList

  /** A returned position; the null pointer is -1. */
  type position = r: int | -1 <= r witness -1

  /** The outcome r, ep (ep0 before) and v is what the specification says. */
  ghost predicate Agrees<T>(spec: Parsed<T>, r: position, ep0: int, ep: int, v: T) {
    match spec
    case Ok(value, next) => r == next && v == value && ep == ep0
    case Fail(e) => r == -1 && ep == e
    case Wild(_) => false
  }

  /** A node that is ready to be filled. */
  ghost predicate Ready(item: Node, name: text)
    reads item, Opt(item.name)
  {
    item.child == null && item.valuestring == null && item.typ in {FALSE, STRING}
    && (item.name != null ==> CString(item.name, name))
  }

  /** t is the tree that item has become. */
  ghost predicate Grown(t: Tree, item: Node, name: text)
    reads item, Blocks(t)
  {
    t.node == item && t.key == item.name && t.name == name && !IsReference(t.typ) && Wf(t) && Separate(t)
  }

  /** The tree of item with the given children. */
  ghost function TreeWith(item: Node, content: text, name: text, kids: seq<Tree>): Tree
    reads item
  {
    Tree(item, item.typ, item.valuedouble, item.valuestring, content, item.name, name, kids)
  }

  lemma LeafGrown(item: Node, content: text, name: text)
    requires item.child == null && item.typ <= OBJECT && (item.name != null ==> CString(item.name, name))
    requires item.valuestring != null ==> CString(item.valuestring, content) && item.valuestring != item.name
    requires item.typ == NUMBER ==> IntOf(item.valueint, item.valuedouble)
    ensures Grown(TreeWith(item, content, name, []), item, name)
    ensures Below(TreeWith(item, content, name, [])) == Opt(item.valuestring)
  {
    var t := TreeWith(item, content, name, []);
    assert KidBlocks(t.kids) == {};
    assert Below(t) == Opt(t.str);
  }

  lemma ParentGrown(item: Node, name: text, kids: seq<Tree>)
    requires item.valuestring == null && item.typ in {ARRAY, OBJECT} && (item.name != null ==> CString(item.name, name))
    requires Children(item, kids) && Opt(item.name) !! KidBlocks(kids)
    ensures Grown(TreeWith(item, [], name, kids), item, name)
    ensures Below(TreeWith(item, [], name, kids)) == KidBlocks(kids)
    ensures ValueOf(TreeWith(item, [], name, kids)) ==
            if item.typ == ARRAY then Value.Array(ValuesOf(kids)) else Value.Object(MembersOf(kids))
  {
    hide WfAll, SeparateAll, KidBlocks, Linked, ValuesOf, MembersOf;
  }

  ghost predicate IsNew(c: Node)
    reads c
  {
    c.child == null && c.valuestring == null && c.typ == FALSE && c.name == null
  }

  /** A node that `cJSON_New_Item` returned, and the tree that it is. */
  ghost function NewTree(c: Node): Tree { Tree(c, FALSE, 0.0, null, [], null, [], []) }

  class Parser {
    const heap: Heap
    /** The global error pointer; null is -1. */
    var ep: position

    constructor (heap: Heap)
      ensures this.heap == heap && ep == -1
    {
      this.heap := heap;
      ep := -1;
    }

    /** `parse_string`. */
    method ParseStringInto(item: Node, s: text, i: nat) returns (r: position)
      requires i <= |s| && !ParseString(s, i).Wild? && item.valuestring == null
      modifies heap, this`ep, item`valuestring, item`typ
      ensures heap.failures >= old(heap.failures)
      ensures heap.failures > old(heap.failures) ==> r == -1 && ep == old(ep)
      ensures heap.failures == old(heap.failures) ==>
                match ParseString(s, i)
                case Ok(_, next) => r == next && ep == old(ep)
                case Fail(e) => r == -1 && ep == e
                case Wild(_) => false
      ensures r == -1 ==> item.valuestring == null && item.typ == old(item.typ) && heap.live == old(heap.live)
      ensures r != -1 ==> item.typ == STRING && item.valuestring != null && fresh(item.valuestring)
                          && heap.live == old(heap.live) + {item.valuestring}
                          && CString(item.valuestring, ParseString(s, i).value)
    {
      if At(s, i) != QUOTE { ep := i; return -1; }
      var len, ptr := CountPass(s, i + 1);
      var out := heap.Malloc(len + 1);
      if out == null { return -1; }
      ptr := FillPass(s, i + 1, out);
      if At(s, ptr) == QUOTE { ptr := ptr + 1; }
      item.valuestring := out;
      item.typ := STRING;
      return ptr;
    }

    /** `parse_number`. */
    method ParseNumberInto(item: Node, s: text, i: nat) returns (r: position)
      requires i < |s| && (s[i] == MINUS || IsDigit(s[i])) && CountersFit(s, i)
      modifies item`valuedouble, item`valueint, item`typ
      ensures r == ParseNumber(s, i).next && item.typ == NUMBER
      ensures item.valuedouble == ParseNumber(s, i).value && IntOf(item.valueint, item.valuedouble)
    {
      hide Pow10, ScanWhole, ScanRest, ScanExponent, Trunc;
      var num: nat, sign := i, 1.0;
      if At(s, num) == MINUS { sign, num := -1.0, num + 1; }
      var n, scale;
      var m, e;
      m, num := WholePart(s, num);
      n, scale, num := FractionPart(s, num, m);
      e, num := ExponentPart(s, num);
      n := sign * n * Pow10(scale + e);
      item.valuedouble := n;
      item.valueint := ToInt(n);
      item.typ := NUMBER;
      return num;
    }

    /** `item->child=child=cJSON_New_Item()`; base is what is live apart from the children. */
    method FirstChild(item: Node, ghost base: set<object>) returns (c: Node?)
      requires item.child == null && heap.live == base
      modifies heap, item`child
      ensures c == null ==> Children(item, []) && heap.live == base && heap.failures == old(heap.failures) + 1
      ensures c != null ==> fresh(c) && IsNew(c) && heap.failures == old(heap.failures)
      ensures c != null ==> Children(item, [] + [NewTree(c)]) && heap.live == base + KidBlocks([] + [NewTree(c)])
      ensures c != null ==> KidBlocks([] + [NewTree(c)]) == {c}
    {
      c := heap.NewItem();
      item.child := c;
      if c != null {
        NewTreeOk(c);
        Append([], NewTree(c));
      }
    }

    /** `new_item=cJSON_New_Item(); child->next=new_item; new_item->prev=child`: linked behind the last
        child before anything is parsed into it. */
    method NextChild(item: Node, last: Node, ghost kids: seq<Tree>, ghost base: set<object>) returns (c: Node?)
      requires Children(item, kids) && kids != [] && last == kids[|kids| - 1].node
      requires heap.live == base + KidBlocks(kids)
      modifies heap, last`next
      ensures c == null ==> Children(item, kids) && heap.live == base + KidBlocks(kids)
      ensures c == null ==> heap.failures == old(heap.failures) + 1
      ensures c != null ==> fresh(c) && IsNew(c) && heap.failures == old(heap.failures)
      ensures c != null ==> Children(item, kids + [NewTree(c)]) && heap.live == base + KidBlocks(kids + [NewTree(c)])
      ensures c != null ==> KidBlocks(kids + [NewTree(c)]) == KidBlocks(kids) + {c}
    {
      hide Wf, WfAll, Separate, SeparateAll, Blocks, Below, KidBlocks, Linked, NodeSet, NodeAt;
      HeapIsNoKid(heap, kids);
      KidsInBlocks(kids);
      LastIn(kids);
      assert allocated(KidBlocks(kids));
      c := heap.NewItem();
      if c == null { return; }
      LinkBehind(last, c, kids);
      NewTreeOk(c);
      Append(kids, NewTree(c));
    }

    lemma OneBlock(c: Node)
      ensures Blocks(NewTree(c)) == {c}
    {
      assert KidBlocks([]) == {};
    }

    lemma NewTreeOk(c: Node)
      requires IsNew(c)
      ensures Wf(NewTree(c)) && Separate(NewTree(c)) && Blocks(NewTree(c)) == {c}
    {
    }

    /** `child->next=new_item; new_item->prev=child`: the trees do not depend on their sibling links. */
    method LinkBehind(last: Node, c: Node, ghost kids: seq<Tree>)
      requires kids != [] && last == kids[|kids| - 1].node && WfAll(kids) && SeparateAll(kids) && Linked(kids)
      requires c !in KidBlocks(kids) && c.next == null
      modifies last`next, c`prev
      ensures WfAll(kids) && Linked(kids + [NewTree(c)])
    {
      hide Wf, WfAll, SeparateAll, Blocks, Below, KidBlocks, Linked, NodeSet;
      Distinct(kids);
      KidsInBlocks(kids);
      LastIn(kids);
      NotIn(kids, c);
      assert allocated(KidBlocks(kids));
      JsonList.SuffixObject(last, c, kids, NewTree(c));
      JsonList.TreesKept(kids);
    }

    lemma LastIn(kids: seq<Tree>)
      requires kids != []
      ensures kids[|kids| - 1].node in NodeSet(kids)
    {
    }

    lemma NotIn(kids: seq<Tree>, c: Node)
      requires c !in KidBlocks(kids)
      ensures forall i | 0 <= i < |kids| :: kids[i].node != c
    {
      hide KidBlocks;
      KidsInBlocks(kids);
      forall i | 0 <= i < |kids| ensures kids[i].node in NodeSet(kids) {}
    }

    /** `parse_value`. */
    method ParseValueInto(item: Node, s: text, i: nat, ghost name: text) returns (r: position, ghost t: Tree)
      requires i <= |s| && !ParseValue(s, i).Wild? && Ready(item, name)
      modifies heap, this`ep, item`child, item`typ, item`valuestring, item`valueint, item`valuedouble
      ensures Grown(t, item, name) && fresh(Below(t)) && heap.live == old(heap.live) + Below(t)
      ensures heap.failures >= old(heap.failures)
      ensures heap.failures > old(heap.failures) ==> r == -1 && ep == old(ep)
      ensures heap.failures == old(heap.failures) ==> Agrees(ParseValue(s, i), r, old(ep), ep, ValueOf(t))
      decreases |s| - i, 1
    {
      hide ParseString, ParseArray, ParseObject, ParseNumber, Complete, Matches;
      if StartsWith(s, i, NULL_TEXT) { item.typ := NULL; r := i + 4; }
      else if StartsWith(s, i, FALSE_TEXT) { item.typ := FALSE; r := i + 5; }
      else if StartsWith(s, i, TRUE_TEXT) { item.typ := TRUE; item.valueint := 1; r := i + 4; }
      else if At(s, i) == QUOTE {
        r := ParseStringInto(item, s, i);
        var content := match ParseString(s, i) case Ok(c, _) => c case Fail(_) => [] case Wild(_) => [];
        LeafGrown(item, content, name);
        t := TreeWith(item, content, name, []);
        return;
      }
      else if At(s, i) == MINUS || IsDigit(At(s, i)) { r := ParseNumberInto(item, s, i); }
      else if At(s, i) == LBRACKET { r, t := ParseArrayInto(item, s, i, name); return; }
      else if At(s, i) == LBRACE { r, t := ParseObjectInto(item, s, i, name); return; }
      else { ep := i; r := -1; }
      LeafGrown(item, [], name);
      t := TreeWith(item, [], name, []);
    }

    /** `parse_array`. */
    method ParseArrayInto(item: Node, s: text, i: nat, ghost name: text) returns (r: position, ghost t: Tree)
      requires At(s, i) == LBRACKET && !ParseArray(s, i).Wild? && Ready(item, name)
      modifies heap, this`ep, item`child, item`typ
      ensures Grown(t, item, name) && fresh(Below(t)) && heap.live == old(heap.live) + Below(t)
      ensures heap.failures >= old(heap.failures)
      ensures heap.failures > old(heap.failures) ==> r == -1 && ep == old(ep)
      ensures heap.failures == old(heap.failures) ==> Agrees(ParseArray(s, i), r, old(ep), ep, ValueOf(t))
      decreases |s| - i, 0
    {
      hide ParseItems, Wf, WfAll, Separate, SeparateAll, Blocks, Below, KidBlocks, Linked;
      hide Children, Grown, TreeWith, ValueOf, ValuesOf, MembersOf;
      item.typ := ARRAY;
      ghost var kids: seq<Tree>;
      r, kids := ParseElements(item, s, Skip(s, i + 1));
      ParentGrown(item, name, kids);
      t := TreeWith(item, [], name, kids);
    }

    /** The children of an array, from behind its opening bracket. */
    method ParseElements(item: Node, s: text, start: nat) returns (r: position, ghost kids: seq<Tree>)
      requires start <= |s| && (At(s, start) == RBRACKET || !ParseItems(s, start).Wild?) && item.child == null
      modifies heap, this`ep, item`child
      ensures Children(item, kids) && fresh(KidBlocks(kids)) && heap.live == old(heap.live) + KidBlocks(kids)
      ensures heap.failures >= old(heap.failures)
      ensures heap.failures > old(heap.failures) ==> r == -1 && ep == old(ep)
      ensures heap.failures == old(heap.failures) ==>
                if At(s, start) == RBRACKET then r == start + 1 && kids == [] && ep == old(ep)
                else Agrees(ParseItems(s, start), r, old(ep), ep, if r == -1 then [] else ValuesOf(kids))
      decreases |s| - start, 3
    {
      hide Wf, WfAll, Separate, SeparateAll, Blocks, Below, KidBlocks, Children, ValuesOf, ValueOf, Complete;
      hide ParseItems, ItemsAfter, ParseValue;
      kids := [];
      NoChildren(item);
      if At(s, start) == RBRACKET { return start + 1, kids; }
      ghost var base := heap.live;
      var child := FirstChild(item, base);
      if child == null { return -1, kids; }
      ghost var spec := ParseItems(s, start);
      PrependNothing(spec);
      ItemParsed(s, spec, [], start);
      r, kids := ParseElement(item, child, s, start, kids, base);
      LastOf(kids);
      if r == -1 { return; }
      r, kids := MoreElements(item, child, s, Skip(s, r), kids, base, spec);
    }

    /** The loop of `parse_array`: spec is what the items are expected to be, seen from the position value
        behind the children that are already there. */
    method MoreElements(item: Node, last: Node, s: text, start: nat, ghost before: seq<Tree>, ghost base: set<object>,
                        ghost spec: Parsed<seq<Value>>)
      returns (r: position, ghost kids: seq<Tree>)
      requires start <= |s| && !spec.Wild? && spec == Prepend(ValuesOf(before), ItemsAfter(s, start))
      requires Children(item, before) && before != [] && last == before[|before| - 1].node && item != last
      requires heap.live == base + KidBlocks(before)
      modifies heap, this`ep, last`next
      ensures Children(item, kids) && fresh(KidBlocks(kids) - KidBlocks(before)) && heap.live == base + KidBlocks(kids)
      ensures heap.failures >= old(heap.failures)
      ensures heap.failures > old(heap.failures) ==> r == -1 && ep == old(ep)
      ensures heap.failures == old(heap.failures) ==>
        Agrees(spec, r, old(ep), ep, if r == -1 then [] else ValuesOf(kids))
      decreases |s| - start, 3
    {
      hide Wf, WfAll, Separate, SeparateAll, Blocks, Below, KidBlocks, Children, ValuesOf, ValueOf, Complete;
      hide ParseItems, ItemsAfter, ParseValue;
      var child, value := last, start;
      kids := before;
      while At(s, value) == COMMA
        invariant start <= value <= |s|
        invariant Children(item, kids) && kids != [] && child == kids[|kids| - 1].node
        invariant (child == last || fresh(child)) && fresh(KidBlocks(kids) - KidBlocks(before))
        invariant heap.live == base + KidBlocks(kids)
        invariant heap.failures == old(heap.failures) && ep == old(ep)
        invariant spec == Prepend(ValuesOf(kids), ItemsAfter(s, value))
        decreases |s| - value
      {
        NextItems(s, value);
        ItemParsed(s, spec, ValuesOf(kids), value + 1);
        var next := NextChild(item, child, kids, base);
        if next == null { return -1, kids; }
        child := next;
        r, kids := ParseElement(item, child, s, value + 1, kids, base);
        LastOf(kids);
        if r == -1 { return; }
        value := Skip(s, r);
      }
      LastItems(s, value, ValuesOf(kids));
      if At(s, value) == RBRACKET { return value + 1, kids; }
      ParserIsNoKid(kids);
      KidsInBlocks(kids);
      ep := value;
      return -1, kids;
    }

    lemma LastOf(kids: seq<Tree>)
      requires kids != []
      ensures var init, k := kids[..|kids| - 1], kids[|kids| - 1];
        ValuesOf(kids) == ValuesOf(init) + [ValueOf(k)]
        && MembersOf(kids) == MembersOf(init) + [Member(TextOf(k.key, k.name), ValueOf(k))]
    {
    }

    lemma NoChildren(item: Node)
      requires item.child == null
      ensures Children(item, []) && KidBlocks([]) == {} && ValuesOf([]) == []
    {
    }

    /** `parse_value(child,skip(...))` into the child that was linked last. */
    method ParseElement(item: Node, child: Node, s: text, start: nat, ghost kids: seq<Tree>, ghost base: set<object>)
      returns (r: position, ghost grown: seq<Tree>)
      requires start <= |s| && !ParseValue(s, Skip(s, start)).Wild? && Children(item, kids + [NewTree(child)])
        && IsNew(child)
      requires heap.live == base + KidBlocks(kids + [NewTree(child)])
      modifies heap, this`ep, child`child, child`typ, child`valuestring, child`valueint, child`valuedouble
      ensures grown != [] && grown[..|grown| - 1] == kids && grown[|grown| - 1].node == child
      ensures Children(item, grown) && heap.live == base + KidBlocks(grown)
      ensures fresh(KidBlocks(grown) - KidBlocks(kids + [NewTree(child)]))
      ensures heap.failures >= old(heap.failures)
      ensures heap.failures > old(heap.failures) ==> r == -1 && ep == old(ep)
      ensures heap.failures == old(heap.failures) ==>
                Agrees(ParseValue(s, Skip(s, start)), r, old(ep), ep, ValueOf(grown[|grown| - 1]))
      decreases |s| - start, 2
    {
      hide Wf, WfAll, Separate, SeparateAll, Blocks, Below, KidBlocks;
      hide Children, Agrees, Linked, NodeSet, First, NewTree;
      NoOutsiders(item, kids, child);
      ghost var k;
      ghost var others := KidBlocks(kids) + {item};
      assert others <= heap.live + {item} && NodeSet(kids + [NewTree(child)]) <= heap.live;
      r, k := ParseValueInto(child, s, Skip(s, start), []);
      assert Below(k) + Opt(k.key) !! others;
      grown := kids + [k];
      Refilled(item, kids, child, k);
    }

    /** Neither the allocator, the parser nor the new child is among the blocks of the other children. */
    lemma NoOutsiders(item: Node, kids: seq<Tree>, child: Node)
      requires Children(item, kids + [NewTree(child)])
      ensures item != child && item !in KidBlocks(kids)
      ensures heap !in KidBlocks(kids) && this !in KidBlocks(kids) && child !in KidBlocks(kids)
      ensures WfAll(kids) && SeparateAll(kids) && Linked(kids + [NewTree(child)])
      ensures item.child == First(kids + [NewTree(child)])
      ensures KidBlocks(kids + [NewTree(child)]) == KidBlocks(kids) + {child}
      ensures NodeSet(kids + [NewTree(child)]) <= KidBlocks(kids + [NewTree(child)])
    {
      KidsInBlocks(kids + [NewTree(child)]);
      OneBlock(child);
      hide Wf, WfAll, Separate, SeparateAll, Blocks, Below, KidBlocks;
      HeapIsNoKid(heap, kids);
      ParserIsNoKid(kids);
      Unappend(kids, NewTree(child));
      Append(kids, NewTree(child));
    }

    lemma {:induction false} ParserIsNoBlock(t: Tree)
      ensures this !in Blocks(t)
      decreases t, 1
    {
      ParserIsNoKid(t.kids);
    }

    lemma {:induction false} ParserIsNoKid(kids: seq<Tree>)
      ensures this !in KidBlocks(kids)
      decreases kids, 2
    {
      if kids != [] {
        ParserIsNoKid(kids[..|kids| - 1]);
        ParserIsNoBlock(kids[|kids| - 1]);
      }
    }

    /** Filling the last child leaves its siblings and all links as they were. */
    lemma {:induction false} Refilled(item: Node, kids: seq<Tree>, child: Node, k: Tree)
      requires k.node == child && Wf(k) && Separate(k) && WfAll(kids) && SeparateAll(kids)
      requires Below(k) + Opt(k.key) !! KidBlocks(kids) + {item} && Linked(kids + [NewTree(child)])
      requires item.child == First(kids + [NewTree(child)]) && item !in KidBlocks(kids)
        && child !in KidBlocks(kids) + {item}
      ensures Children(item, kids + [k])
      ensures KidBlocks(kids + [k]) == KidBlocks(kids + [NewTree(child)]) + Below(k) + Opt(k.key)
    {
      hide Wf, WfAll, Separate, SeparateAll, KidBlocks, Linked;
      Append(kids, k);
      Append(kids, NewTree(child));
      OneBlock(child);
      assert Blocks(k) == {child} + Opt(k.key) + Below(k);
      hide Blocks, Below;
      SameLinks(kids, NewTree(child), k);
    }

    lemma SameLinks(kids: seq<Tree>, t: Tree, k: Tree)
      requires Linked(kids + [t]) && k.node == t.node
      ensures Linked(kids + [k])
    {
      var before, after := kids + [t], kids + [k];
      forall i | 0 <= i < |after|
        ensures after[i].node.next == NodeAt(after, i + 1) && after[i].node.prev == NodeAt(after, i - 1)
      {
        assert before[i].node == after[i].node;
      }
    }

    /** `parse_object`. */
    method ParseObjectInto(item: Node, s: text, i: nat, ghost name: text) returns (r: position, ghost t: Tree)
      requires At(s, i) == LBRACE && !ParseObject(s, i).Wild? && Ready(item, name)
      modifies heap, this`ep, item`child, item`typ
      ensures Grown(t, item, name) && fresh(Below(t)) && heap.live == old(heap.live) + Below(t)
      ensures heap.failures >= old(heap.failures)
      ensures heap.failures > old(heap.failures) ==> r == -1 && ep == old(ep)
      ensures heap.failures == old(heap.failures) ==> Agrees(ParseObject(s, i), r, old(ep), ep, ValueOf(t))
      decreases |s| - i, 0
    {
      hide ParseMembers, Wf, WfAll, Separate, SeparateAll, Blocks, Below, KidBlocks, Linked;
      hide Children, Grown, TreeWith, ValueOf, ValuesOf, MembersOf;
      item.typ := OBJECT;
      ghost var kids: seq<Tree>;
      r, kids := ParseMembersInto(item, s, Skip(s, i + 1));
      ParentGrown(item, name, kids);
      t := TreeWith(item, [], name, kids);
    }

    /** The children of an object, from behind its opening brace. */
    method ParseMembersInto(item: Node, s: text, start: nat) returns (r: position, ghost kids: seq<Tree>)
      requires start <= |s| && (At(s, start) == RBRACE || !ParseMembers(s, start).Wild?) && item.child == null
      modifies heap, this`ep, item`child
      ensures Children(item, kids) && fresh(KidBlocks(kids)) && heap.live == old(heap.live) + KidBlocks(kids)
      ensures heap.failures >= old(heap.failures)
      ensures heap.failures > old(heap.failures) ==> r == -1 && ep == old(ep)
      ensures heap.failures == old(heap.failures) ==>
                if At(s, start) == RBRACE then r == start + 1 && kids == [] && ep == old(ep)
                else Agrees(ParseMembers(s, start), r, old(ep), ep, if r == -1 then [] else MembersOf(kids))
      decreases |s| - start, 4
    {
      hide Wf, WfAll, Separate, SeparateAll, Blocks, Below, KidBlocks, Children, MembersOf, ValueOf, Complete;
      hide ParseMembers, MembersAfter, ParseMember;
      kids := [];
      NoChildren(item);
      if At(s, start) == RBRACE { return start + 1, kids; }
      ghost var base := heap.live;
      var child := FirstChild(item, base);
      if child == null { return -1, kids; }
      ghost var spec := ParseMembers(s, start);
      PrependNothing(spec);
      MemberParsed(s, spec, [], start);
      r, kids := ParseMemberInto(item, child, s, start, kids, base);
      LastOf(kids);
      if r == -1 { return; }
      r, kids := MoreMembers(item, child, s, Skip(s, r), kids, base, spec);
    }

    /** The loop of `parse_object`. */
    method MoreMembers(item: Node, last: Node, s: text, start: nat, ghost before: seq<Tree>, ghost base: set<object>,
                       ghost spec: Parsed<seq<Member>>)
      returns (r: position, ghost kids: seq<Tree>)
      requires start <= |s| && !spec.Wild? && spec == Prepend(MembersOf(before), MembersAfter(s, start))
      requires Children(item, before) && before != [] && last == before[|before| - 1].node && item != last
      requires heap.live == base + KidBlocks(before)
      modifies heap, this`ep, last`next
      ensures Children(item, kids) && fresh(KidBlocks(kids) - KidBlocks(before)) && heap.live == base + KidBlocks(kids)
      ensures heap.failures >= old(heap.failures)
      ensures heap.failures > old(heap.failures) ==> r == -1 && ep == old(ep)
      ensures heap.failures == old(heap.failures) ==>
        Agrees(spec, r, old(ep), ep, if r == -1 then [] else MembersOf(kids))
      decreases |s| - start, 4
    {
      hide Wf, WfAll, Separate, SeparateAll, Blocks, Below, KidBlocks, Children, MembersOf, ValueOf, Complete;
      hide ParseMembers, MembersAfter, ParseMember;
      var child, value := last, start;
      kids := before;
      while At(s, value) == COMMA
        invariant start <= value <= |s|
        invariant Children(item, kids) && kids != [] && child == kids[|kids| - 1].node
        invariant (child == last || fresh(child)) && fresh(KidBlocks(kids) - KidBlocks(before))
        invariant heap.live == base + KidBlocks(kids)
        invariant heap.failures == old(heap.failures) && ep == old(ep)
        invariant spec == Prepend(MembersOf(kids), MembersAfter(s, value))
        decreases |s| - value
      {
        NextMembers(s, value);
        MemberParsed(s, spec, MembersOf(kids), value + 1);
        var next := NextChild(item, child, kids, base);
        if next == null { return -1, kids; }
        child := next;
        r, kids := ParseMemberInto(item, child, s, value + 1, kids, base);
        LastOf(kids);
        if r == -1 { return; }
        value := Skip(s, r);
      }
      LastMembers(s, value, MembersOf(kids));
      if At(s, value) == RBRACE { return value + 1, kids; }
      ParserIsNoKid(kids);
      KidsInBlocks(kids);
      ep := value;
      return -1, kids;
    }

    /** `parse_string`, the colon and `parse_value` into the child that was linked last: the string
        becomes the name of the child. */
    method ParseMemberInto(item: Node, child: Node, s: text, start: nat, ghost kids: seq<Tree>, ghost base: set<object>)
      returns (r: position, ghost grown: seq<Tree>)
      requires start <= |s| && !ParseMember(s, start).Wild? && Children(item, kids + [NewTree(child)]) && IsNew(child)
      requires heap.live == base + KidBlocks(kids + [NewTree(child)])
      modifies heap, this`ep
      modifies child`child, child`typ, child`valuestring, child`valueint, child`valuedouble, child`name
      ensures grown != [] && grown[..|grown| - 1] == kids && grown[|grown| - 1].node == child
      ensures Children(item, grown) && heap.live == base + KidBlocks(grown)
      ensures fresh(KidBlocks(grown) - KidBlocks(kids + [NewTree(child)]))
      ensures heap.failures >= old(heap.failures)
      ensures heap.failures > old(heap.failures) ==> r == -1 && ep == old(ep)
      ensures heap.failures == old(heap.failures) ==>
                var k := grown[|grown| - 1];
                Agrees(ParseMember(s, start), r, old(ep), ep, Member(TextOf(k.key, k.name), ValueOf(k)))
      decreases |s| - start, 2
    {
      hide Wf, WfAll, Separate, SeparateAll, Blocks, Below, KidBlocks, ParseValue, ParseMember, ValueOf;
      hide Children, Agrees, Linked, NodeSet, First, NewTree;
      NoOutsiders(item, kids, child);
      ghost var k;
      ghost var others := KidBlocks(kids) + {item};
      assert others <= heap.live + {item} && NodeSet(kids + [NewTree(child)]) <= heap.live;
      r, k := FillMember(child, s, start);
      assert Below(k) + Opt(k.key) !! others;
      grown := kids + [k];
      Refilled(item, kids, child, k);
    }

    method FillMember(child: Node, s: text, start: nat) returns (r: position, ghost k: Tree)
      requires start <= |s| && !ParseMember(s, start).Wild? && IsNew(child)
      modifies heap, this`ep
      modifies child`child, child`typ, child`valuestring, child`valueint, child`valuedouble, child`name
      ensures k.node == child && Wf(k) && Separate(k) && fresh(Below(k) + Opt(k.key))
      ensures heap.live == old(heap.live) + Below(k) + Opt(k.key)
      ensures heap.failures >= old(heap.failures)
      ensures heap.failures > old(heap.failures) ==> r == -1 && ep == old(ep)
      ensures heap.failures == old(heap.failures) ==>
                Agrees(ParseMember(s, start), r, old(ep), ep, Member(TextOf(k.key, k.name), ValueOf(k)))
      decreases |s| - start, 1
    {
      hide Wf, Separate, Blocks, Below, ParseValue, ParseString;
      r := ParseStringInto(child, s, Skip(s, start));
      if r == -1 {
        LeafGrown(child, [], []);
        k := TreeWith(child, [], [], []);
        return;
      }
      ghost var name := ParseString(s, Skip(s, start)).value;
      child.name := child.valuestring;
      child.valuestring := null;
      var value := Skip(s, r);
      if At(s, value) != COLON {
        ep := value;
        r := -1;
        LeafGrown(child, [], name);
        k := TreeWith(child, [], name, []);
        return;
      }
      r, k := ParseValueInto(child, s, Skip(s, value + 1), name);
    }

    /** `cJSON_Parse`, unless it enters a token for which its behaviour is left open: a null result means that an
        allocation was refused, or that the text is malformed and `ep` tells where; then nothing that was
        allocated is left. The ghost result is the list that holds the parsed tree, or nothing. */
    method Parse(s: text) returns (c: Node?, ghost result: seq<Tree>)
      requires !JsonParse.Parse(s).Wild?
      modifies heap, this`ep
      ensures c == First(result) && |result| <= 1 && Linked(result) && WfAll(result) && SeparateAll(result)
      ensures fresh(KidBlocks(result)) && heap.live == old(heap.live) + KidBlocks(result)
      ensures c == null <==> heap.failures > old(heap.failures) || ep != -1
      ensures heap.failures >= old(heap.failures) && (heap.failures > old(heap.failures) ==> ep == -1)
      ensures heap.failures == old(heap.failures) ==>
                match JsonParse.Parse(s)
                case Ok(v, _) => c != null && ValueOf(result[0]) == v
                case Fail(e) => c == null && ep == e
                case Wild(_) => false
    {
      hide Wf, Separate, Below, ParseValue, ValueOf;
      c := heap.NewItem();
      ep := -1;
      result := [];
      if c == null { return; }
      var r; ghost var t;
      r, t := ParseValueInto(c, s, Skip(s, 0), []);
      AloneInList(t);
      if r == -1 {
        Delete(heap, c, [t]);
        c := null;
        return;
      }
      result := [t];
    }

    lemma AloneInList(t: Tree)
      requires Wf(t) && Separate(t) && t.node.next == null && t.node.prev == null && t.key == null
      ensures Linked([t]) && WfAll([t]) && SeparateAll([t]) && KidBlocks([t]) == {t.node} + Below(t)
    {
      hide Wf, Separate;
      Append([], t);
      assert [] + [t] == [t];
    }
  }

  /** `!strncmp(value,literal,n)`. */
  predicate StartsWith(s: text, i: nat, literal: bytes) { Matches(s, i, literal) }

  /** `(int)n`: what is stored for a number that `int` cannot hold is left open. */
  method ToInt(n: real) returns (v: int)
    ensures IntOf(v, n)
  {
    if FitsInt(n) { v := Trunc(n); } else { v := *; }
  }

  /** The integers of C that the digit loops add up in. */
  type long = x: int | 0 - LONG_LIMIT <= x < LONG_LIMIT
  type int32 = x: int | 0 - INT_LIMIT <= x < INT_LIMIT

  method WholePart(s: text, start: nat) returns (m: long, num: nat)
    requires start <= |s| && ScanWhole(s, start).m < LONG_LIMIT
    ensures m >= 0 && Digits(m, num) == ScanWhole(s, start)
  {
    m, num := 0, start;
    if At(s, num) == 0x30 { num := num + 1; }
    if 0x31 <= At(s, num) <= 0x39 {
      ghost var first := num;
      while IsDigit(At(s, num))
        invariant num <= |s| && m >= 0 && ScanInt(s, num, m) == ScanInt(s, first, 0)
        decreases |s| - num
      {
        m := m * 10 + (At(s, num) - 0x30);
        num := num + 1;
      }
    }
  }

  method FractionPart(s: text, start: nat, m: nat) returns (n: real, scale: int, num: nat)
    requires start <= |s|
    ensures Fraction(n, scale, num) == ScanRest(s, Digits(m, start))
  {
    n, scale, num := m as real, 0, start;
    if At(s, num) == DOT && IsDigit(At(s, num + 1)) {
      n, scale, num := FractionLoop(s, num + 1, n);
    }
  }

  method ExponentPart(s: text, start: nat) returns (e: int32, num: nat)
    requires start <= |s| && 0 - INT_LIMIT < ScanExponent(s, start).e < INT_LIMIT
    ensures Exponent(e, num) == ScanExponent(s, start)
  {
    var subscale: int32, signsubscale := 0, 1;
    num := start;
    if At(s, num) == 0x65 || At(s, num) == 0x45 {
      num := num + 1;
      if At(s, num) == 0x2B { num := num + 1; } else if At(s, num) == MINUS { signsubscale, num := -1, num + 1; }
      ghost var first := num;
      while IsDigit(At(s, num))
        invariant num <= |s| && subscale >= 0 && ScanInt(s, num, subscale) == ScanInt(s, first, 0)
        decreases |s| - num
      {
        subscale := subscale * 10 + (At(s, num) - 0x30);
        num := num + 1;
      }
    }
    e := subscale * signsubscale;
  }

  method FractionLoop(s: text, start: nat, whole: real) returns (n: real, scale: int, num: nat)
    requires start <= |s|
    ensures Fraction(n, scale, num) == ScanFraction(s, start, whole, 0)
  {
    n, scale, num := whole, 0, start;
    while IsDigit(At(s, num))
      invariant num <= |s| && ScanFraction(s, num, n, scale) == ScanFraction(s, start, whole, 0)
      decreases |s| - num
    {
      n := n * 10.0 + (At(s, num) - 0x30) as real;
      scale := scale - 1;
      num := num + 1;
    }
  }
}
