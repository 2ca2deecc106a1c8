/** The public functions of json/cJSON.c used together, as json/cJSON.h tells callers to use them. */
module JsonEndToEnd {
  import opened CText
  import opened CHeap
  import opened JsonValue
  import opened JsonTree
  import opened JsonParser
  import opened JsonPrinter
  import opened JsonDelete
  import JsonParse
  import JsonRoundTrip
  import JsonList
  import JsonGrammar
  import JsonAccepts
  import JsonErrors

  /** `cJSON_Print` (fmt) and `cJSON_PrintUnformatted` (no fmt). */
  method Print(heap: Heap, item: Node, fmt: bool, ghost t: Tree) returns (out: array?<byte>)
    requires item == t.node && Wf(t) && Separate(t) && CanPrint(t) && Blocks(t) <= heap.live
    modifies heap
    ensures out == null ==> heap.live == old(heap.live) && heap.failures > old(heap.failures)
    ensures out != null ==> fresh(out) && heap.live == old(heap.live) + {out} && heap.failures == old(heap.failures)
    ensures Printable(ValueOf(t)) && (out != null ==> CString(out, PrintValue(ValueOf(t), 0, fmt)))
  {
    OwnTreeShows(t);
    out := PrintNode(heap, item, 0, fmt, t);
  }

  /** What a reference to a tree shows: the same, without the name. */
  ghost function Seen(ref: Node, t: Tree): Tree {
    t.(node := ref, typ := JsonList.Reference(ref, t).typ, key := null, name := [])
  }

  lemma ReferenceShows(ref: Node, t: Tree)
    requires Shows(t) && Wf(JsonList.Reference(ref, t)) && ref.child == t.node.child
      && ref.valuestring == t.node.valuestring
    ensures Shows(Seen(ref, t)) && ValueOf(Seen(ref, t)) == ValueOf(t) && Blocks(Seen(ref, t)) == {ref} + Below(t)
  {
    hide ShowsAll, KidBlocks, ValuesOf, MembersOf, WfAll;
  }

  /** A reference to a tree prints as the tree does. */
  method PrintReference(heap: Heap, item: Node, fmt: bool, ghost t: Tree) returns (ref: Node?, out: array?<byte>)
    requires item == t.node && Wf(t) && CanPrint(t) && Blocks(t) <= heap.live
    modifies heap
    ensures out == null <==> heap.failures > old(heap.failures)
    ensures heap.live == old(heap.live) + (if ref == null then {} else {ref}) + (if out == null then {} else {out})
    ensures Printable(ValueOf(t)) && (out != null ==> CString(out, PrintValue(ValueOf(t), 0, fmt)))
  {
    hide Wf, Shows, ValueOf, PrintValue, CanPrint, Printable, KidBlocks;
    OwnTreeShows(t);
    ShowsPrintable(t);
    HeapIsNoBlock(heap, t);
    ref := JsonList.CreateReference(heap, item, t);
    out := null;
    if ref == null { return; }
    ReferenceShows(ref, t);
    out := PrintNode(heap, ref, 0, fmt, Seen(ref, t));
  }

  /** The text begins with something that is derived as v, and the counters hold its numbers. */
  ghost predicate DerivedAs(s: text, v: Value) {
    exists d, i, e :: JsonAccepts.Begun(s, d, i, e) && JsonGrammar.NumbersFit(d) && JsonGrammar.ValueOf(d) == v
  }

  ghost predicate WrongAt(s: text, ep: int) {
    ep >= 0 && exists f, i :: JsonErrors.Starts(s, 0, i) && JsonErrors.FailsAt(f, s, i, ep)
  }

  lemma OutcomeOf(s: text)
    requires !JsonParse.Parse(s).Wild?
    ensures JsonParse.Parse(s).Ok? ==> DerivedAs(s, JsonParse.Parse(s).value)
    ensures JsonParse.Parse(s).Fail? ==> WrongAt(s, JsonParse.Parse(s).ep) && !exists v :: DerivedAs(s, v)
  {
    hide JsonAccepts.Begun, JsonGrammar.NumbersFit, JsonGrammar.ValueOf, JsonErrors.Starts, JsonErrors.FailsAt;
    var r := JsonParse.Parse(s);
    if r.Ok? {
      JsonAccepts.ParsedIff(s, r.value, r.next);
    } else {
      JsonErrors.FailedIff(s, r.ep);
      forall d, i, e ensures !JsonAccepts.Begun(s, d, i, e) { JsonAccepts.ParsedIff(s, Value.Null, e); }
    }
  }

  /** `cJSON_Parse` and `cJSON_GetErrorPtr`, unless a token is entered that leaves the behaviour open: if no allocation
      is refused, there is a tree exactly if the text begins with a derivation, and then the tree is its value;
      otherwise the error pointer stands where the text goes wrong. */
  method ParseDerived(parser: Parser, s: text) returns (c: Node?, ghost result: seq<Tree>)
    requires !JsonParse.Parse(s).Wild?
    modifies parser.heap, parser`ep
    ensures c == First(result) && |result| <= 1 && WfAll(result) && SeparateAll(result)
    ensures fresh(KidBlocks(result)) && parser.heap.live == old(parser.heap.live) + KidBlocks(result)
    ensures parser.heap.failures == old(parser.heap.failures) ==>
              && (c != null <==> exists v :: DerivedAs(s, v)) && (c != null ==> DerivedAs(s, ValueOf(result[0])))
              && (c == null <==> WrongAt(s, parser.ep))
  {
    hide WfAll, SeparateAll, ValueOf, KidBlocks, JsonParse.Parse, DerivedAs, WrongAt;
    OutcomeOf(s);
    NotWrong(s);
    c, result := parser.Parse(s);
  }

  lemma NotWrong(s: text)
    ensures !WrongAt(s, -1)
  {
  }

  /** Prints a tree, parses the text, and cleans up behind itself. Whatever allocations are refused, the
      heap is as before; if none is, the parsed tree equals the printed one. */
  method PrintParseDelete(parser: Parser, item: Node, fmt: bool, ghost t: Tree) returns (done: bool, ghost copy: Value)
    requires item == t.node && Wf(t) && Separate(t) && CanPrint(t) && NoNulls(ValueOf(t)) && InLong(ValueOf(t))
    requires Blocks(t) <= parser.heap.live
    modifies parser.heap, parser`ep
    ensures parser.heap.live == old(parser.heap.live)
    ensures done <==> parser.heap.failures == old(parser.heap.failures)
    ensures done ==> copy == ValueOf(t) && parser.ep == -1
  {
    hide Wf, Separate, CanPrint, ValueOf, PrintValue, KidBlocks, Blocks, WfAll, SeparateAll, Printable, NoNulls, InLong;
    var heap := parser.heap;
    copy := Value.Null;
    var out := Print(heap, item, fmt, t);
    if out == null { return false, copy; }
    ghost var text := PrintValue(ValueOf(t), 0, fmt);
    var n := Strlen(out, text);
    JsonRoundTrip.ParsePrint(ValueOf(t), fmt);
    assert out[..n] == text;
    var s: text := out[..n];
    var c; ghost var result;
    c, result := parser.Parse(s);
    done := c != null;
    if c != null {
      copy := ValueOf(result[0]);
      Delete(heap, c, result);
    } else {
      NoKids();
    }
    heap.Free(out);
  }
}
