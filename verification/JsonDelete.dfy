/** `cJSON_Delete` of json/cJSON.c. */
module JsonDelete {
  import opened CHeap
  import opened JsonTree

  /** Frees a list of siblings with everything they own: each block once, since `Free` accepts live
      blocks only, and no other block. No node is read after it was freed. */
  method Delete(heap: Heap, first: Node?, ghost chain: seq<Tree>)
    requires first == First(chain) && Linked(chain) && WfAll(chain) && SeparateAll(chain)
    requires KidBlocks(chain) <= heap.live
    modifies heap`live
    ensures heap.live == old(heap.live) - KidBlocks(chain)
    decreases chain
  {
    hide Wf, Separate, Blocks;
    HeapIsNoKid(heap, chain);
    var c := first;
    ghost var i := 0;
    assert chain[..0] == [];
    while c != null
      invariant i <= |chain| && c == NodeAt(chain, i)
      invariant Linked(chain) && WfAll(chain)
      invariant heap.live == old(heap.live) - KidBlocks(chain[..i])
      decreases |chain| - i
    {
      hide WfAll, SeparateAll, KidBlocks;
      WfAt(chain, i);
      SeparatePrefix(chain, i);
      KidsInBlocks(chain);
      OwnNode(chain[i]);
      assert c in heap.live;
      var next := c.next;
      DeleteNode(heap, c, chain[i]);
      c := next;
      i := i + 1;
    }
    assert chain[..i] == chain;
  }

  /** One turn of the loop: the children, the strings, and the node. */
  method DeleteNode(heap: Heap, c: Node, ghost t: Tree)
    requires c == t.node && Wf(t) && Separate(t) && Blocks(t) <= heap.live
    modifies heap`live
    ensures heap.live == old(heap.live) - Blocks(t)
    decreases t
  {
    hide Wf, WfAll, Separate, SeparateAll, Blocks, Below, KidBlocks;
    Parts(t);
    HeapIsNoKid(heap, t.kids);
    assert c in heap.live;
    if c.typ / 256 % 2 == 0 && c.child != null {
      Delete(heap, c.child, t.kids);
    } else {
      NoKids();
    }
    assert c in heap.live;
    if c.typ / 256 % 2 == 0 && c.valuestring != null { heap.Free(c.valuestring); }
    assert c in heap.live;
    if c.name != null { heap.Free(c.name); }
    heap.Free(c);
  }

  lemma OwnNode(t: Tree)
    ensures t.node in Blocks(t)
  {
  }

  lemma NoKids()
    ensures KidBlocks([]) == {}
  {
  }
}
