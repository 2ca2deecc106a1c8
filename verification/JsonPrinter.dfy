/** The printer of json/cJSON.c on the heap: every buffer is sized first, then filled, and every
    intermediate buffer is freed, whichever allocations are refused. */
module JsonPrinter {
  import opened CText
  import opened CHeap
  import opened JsonString
  import opened JsonNumber
  import opened JsonValue
  import opened JsonTree

  // ---- strings and numbers ----

  /** The first pass of `print_string_ptr`. */
  method CountEscaped(str: array<byte>, ghost t: text) returns (len: nat)
    requires CString(str, t)
    ensures len == |Escape(t)|
  {
    CountIsExact(t);
    len := 0;
    var ptr := 0;
    while str[ptr] != NUL
      invariant ptr <= |t| && len + CountBytes(t[ptr..]) == CountBytes(t)
      decreases |t| - ptr
    {
      var token := str[ptr];
      len := len + 1;
      if token in {QUOTE, BACKSLASH, 0x08, 0x0C, 0x0A, 0x0D, 0x09} { len := len + 1; }
      else if token < 32 { len := len + 5; }
      ptr := ptr + 1;
    }
  }

  /** One turn of the second pass. */
  method PutEscaped(out: array<byte>, at: nat, token: byte) returns (end: nat)
    requires token != NUL && at + |EscapeByte(token)| < out.Length
    modifies out
    ensures end == at + |EscapeByte(token)|
    ensures out[..at] == old(out[..at]) && out[at..end] == EscapeByte(token)
  {
    end := at;
    if token > 31 && token != QUOTE && token != BACKSLASH {
      out[end] := token;
      end := end + 1;
    } else {
      out[end] := BACKSLASH;
      end := end + 1;
      if token == BACKSLASH || token == QUOTE || token == 0x08 || token == 0x0C || token == 0x0A || token == 0x0D
         || token == 0x09 {
        out[end] := if token == BACKSLASH then BACKSLASH else if token == QUOTE then QUOTE
                    else if token == 0x08 then 0x62 else if token == 0x0C then 0x66
                    else if token == 0x0A then 0x6E else if token == 0x0D then 0x72 else 0x74;
        end := end + 1;
      } else {
        out[end], out[end + 1], out[end + 2] := LOWER_U, 0x30, 0x30;
        out[end + 3], out[end + 4], out[end + 5] := HexDigit(token / 16), HexDigit(token % 16), NUL;
        end := end + 5;
      }
    }
  }

  /** The second pass: the buffer of len+3 bytes is filled exactly. */
  method FillEscaped(str: array<byte>, out: array<byte>, ghost t: text)
    requires CString(str, t) && str != out && out.Length == |Escape(t)| + 3
    modifies out
    ensures CString(out, PrintString(Str(t)))
  {
    hide EscapeByte, Escape;
    ghost var whole := [QUOTE] + Escape(t);
    var at, ptr := 1, 0;
    out[0] := QUOTE;
    assert t[0..] == t;
    EscapeStep(t, |t|);
    while str[ptr] != NUL
      invariant ptr <= |t| && CString(str, t) && 1 <= at <= |whole|
      invariant whole == out[..at] + Escape(t[ptr..])
      decreases |t| - ptr
    {
      ghost var before := out[..at];
      EscapeStep(t, ptr);
      at := PutEscaped(out, at, str[ptr]);
      assert out[..at] == before + EscapeByte(t[ptr]);
      ptr := ptr + 1;
    }
    assert out[..at] == whole;
    out[at], out[at + 1] := QUOTE, NUL;
    assert out[..at] == whole;
    assert out[..at + 1] == PrintString(Str(t));
    EscapeIsText(t);
    IsCString(out, PrintString(Str(t)));
  }

  lemma IsCString(a: array<byte>, t: bytes)
    requires |t| < a.Length && a[..|t|] == t && a[|t|] == NUL && NUL !in t
    ensures CString(a, t)
  {
    forall k | 0 <= k < |t| ensures a[k] == t[k] && a[k] != NUL { assert a[..|t|][k] == t[k]; }
  }

  lemma EscapeStep(t: text, k: nat)
    requires k <= |t|
    ensures Escape(t[k..]) == if k == |t| then [] else EscapeByte(t[k]) + Escape(t[k + 1..])
  {
    hide EscapeByte;
    if k < |t| { assert t[k..][1..] == t[k + 1..]; }
  }

  /** `print_string_ptr`. */
  method PrintStringPtr(heap: Heap, str: array?<byte>, ghost t: text) returns (out: array?<byte>)
    requires str != null ==> CString(str, t)
    modifies heap
    ensures out == null ==> heap.live == old(heap.live) && heap.failures > old(heap.failures)
    ensures out != null ==> fresh(out) && heap.live == old(heap.live) + {out} && heap.failures == old(heap.failures)
    ensures out != null ==> CString(out, PrintString(TextOf(str, t)))
    ensures out != null && str != null ==> out.Length == |PrintString(Str(t))| + 1
  {
    if str == null { out := Strdup(heap, []); return; }
    var len := CountEscaped(str, t);
    out := heap.Malloc(len + 3);
    if out == null { return; }
    FillEscaped(str, out, t);
  }

  /** `sprintf` of an integer, with `%d` or `%.0f`. */
  method PrintDecimal(out: array<byte>, n: int)
    requires |PrintInt(n)| < out.Length
    modifies out
    ensures CString(out, PrintInt(n))
  {
    var t := PrintInt(n);
    var k := 0;
    while k < |t|
      invariant k <= |t| && forall j | 0 <= j < k :: out[j] == t[j]
    {
      out[k] := t[k];
      k := k + 1;
    }
    out[k] := NUL;
  }

  /** `print_number` of an integer. */
  method PrintNumber(heap: Heap, item: Node) returns (out: array?<byte>)
    requires FitsBuffer(item.valuedouble) && IntOf(item.valueint, item.valuedouble)
    modifies heap
    ensures out == null ==> heap.live == old(heap.live) && heap.failures > old(heap.failures)
    ensures out != null ==> fresh(out) && heap.live == old(heap.live) + {out} && heap.failures == old(heap.failures)
    ensures out != null ==> CString(out, PrintInt(Trunc(old(item.valuedouble))))
  {
    hide Trunc, PrintInt, Pow;
    var d := item.valuedouble;
    TruncIs(d);
    if item.valueint as real == d && -2147483648.0 <= d <= 2147483647.0 {
      PrintIntFits(item.valueint);
      out := heap.Malloc(21);
      if out == null { return; }
      PrintDecimal(out, item.valueint);
    } else {
      FixedFitsIff(d.Floor);
      out := heap.Malloc(64);
      if out == null { return; }
      PrintDecimal(out, d.Floor);
    }
  }

  // ---- arrays of buffers ----

  ghost function Bufs(outs: seq<array?<byte>>): set<object> {
    set k | 0 <= k < |outs| && outs[k] != null :: outs[k]
  }

  /** No buffer occurs twice. */
  ghost predicate Apart(outs: seq<array?<byte>>) {
    forall i, j | 0 <= i < j < |outs| :: outs[i] != null ==> outs[i] != outs[j]
  }

  lemma BufsPrefix(outs: seq<array?<byte>>, i: nat)
    requires i < |outs|
    ensures Bufs(outs[..i + 1]) == Bufs(outs[..i]) + Opt(outs[i])
    ensures Apart(outs) && outs[i] != null ==> outs[i] in Bufs(outs) && outs[i] !in Bufs(outs[..i])
  {
    var p, q := outs[..i], outs[..i + 1];
    assert outs[i] != null ==> q[i] in Bufs(q);
    forall o | o in Bufs(p) ensures o in Bufs(q) {
      var k :| 0 <= k < |p| && p[k] != null && p[k] == o;
      assert q[k] == o;
    }
    if outs[i] != null { assert outs[i] in Bufs(outs); }
  }

  /** `for (i=0;i<numentries;i++) if (entries[i]) cJSON_free(entries[i]);` */
  method FreeAll(heap: Heap, entries: array<array?<byte>>)
    requires Apart(entries[..]) && Bufs(entries[..]) <= heap.live
    modifies heap`live
    ensures heap.live == old(heap.live) - Bufs(entries[..])
  {
    ghost var outs := entries[..];
    var i := 0;
    while i < entries.Length
      invariant i <= entries.Length && entries[..] == outs
      invariant heap.live == old(heap.live) - Bufs(outs[..i])
    {
      BufsPrefix(outs, i);
      if entries[i] != null { heap.Free(entries[i]); }
      i := i + 1;
    }
    assert outs[..i] == outs;
  }

  /** Counting the children. */
  method CountChildren(first: Node?, ghost kids: seq<Tree>) returns (n: nat)
    requires first == First(kids) && Linked(kids)
    ensures n == |kids|
  {
    n := 0;
    var child := first;
    while child != null
      invariant n <= |kids| && child == NodeAt(kids, n)
      decreases |kids| - n
    {
      n := n + 1;
      child := child.next;
    }
  }

  // ---- which trees can be printed ----

  /** The fields of a node are those of the tree; whoever owns the string and the children, they can be read.
      Numbers are integers that fit in the buffer of
      `print_number`. */
  ghost predicate NodeShows(t: Tree)
    reads t.node, Opt(t.str), Opt(t.key)
  {
    && t.node.typ == t.typ && t.typ % 256 <= OBJECT && t.node.valuestring == t.str && t.node.child == First(t.kids)
    && t.node.name == t.key && (t.key != null ==> CString(t.key, t.name))
    && (t.str != null ==> CString(t.str, t.content))
    && (t.typ % 256 == NUMBER ==> FitsBuffer(t.num) && t.node.valuedouble == t.num && IntOf(t.node.valueint, t.num))
  }

  /** What can be printed: a tree as it can be seen, also through reference nodes, so that parts of it may
      be shared. */
  ghost predicate Shows(t: Tree)
    reads Blocks(t)
    decreases t, 1
  {
    KidsInBlocks(t.kids);
    assert Below(t) == Opt(t.str) + KidBlocks(t.kids);
    NodeShows(t) && Linked(t.kids) && ShowsAll(t.kids)
  }

  ghost predicate ShowsAll(kids: seq<Tree>)
    reads KidBlocks(kids)
    decreases kids, 2
  {
    kids == [] || (ShowsAll(kids[..|kids| - 1]) && Shows(kids[|kids| - 1]))
  }

  /** No reference nodes; numbers are integers that fit in the buffer of `print_number`. */
  ghost predicate CanPrint(t: Tree) {
    !IsReference(t.typ) && (t.typ % 256 == NUMBER ==> FitsBuffer(t.num)) && forall k | k in t.kids :: CanPrint(k)
  }

  /** A tree that owns all its parts can be printed. */
  lemma {:induction false} OwnTreeShows(t: Tree)
    requires Wf(t) && CanPrint(t)
    ensures Shows(t)
    decreases t, 1
  {
    hide WfAll, KidBlocks, ShowsAll;
    OwnTreesShow(t.kids);
  }

  lemma {:induction false} OwnTreesShow(kids: seq<Tree>)
    requires WfAll(kids) && forall k | k in kids :: CanPrint(k)
    ensures ShowsAll(kids)
    decreases kids, 2
  {
    hide Wf, Shows, CanPrint;
    if kids != [] {
      OwnTreesShow(kids[..|kids| - 1]);
      OwnTreeShows(kids[|kids| - 1]);
    }
  }

  lemma {:induction false} ShowsPrintable(t: Tree)
    requires Shows(t)
    ensures Printable(ValueOf(t))
    decreases t, 1
  {
    hide KidBlocks;
    AllPrintable(t.kids);
  }

  lemma {:induction false} AllPrintable(kids: seq<Tree>)
    requires ShowsAll(kids)
    ensures forall x | x in ValuesOf(kids) :: Printable(x)
    ensures forall m | m in MembersOf(kids) :: Printable(m.value)
    decreases kids, 2
  {
    if kids != [] {
      hide Shows, Printable, ValueOf;
      var init, last := kids[..|kids| - 1], kids[|kids| - 1];
      AllPrintable(init);
      ShowsPrintable(last);
    }
  }

  lemma {:induction false} ShowsAt(kids: seq<Tree>, i: nat)
    requires i < |kids| && ShowsAll(kids)
    ensures Shows(kids[i])
  {
    hide Shows;
    if i < |kids| - 1 { ShowsAt(kids[..|kids| - 1], i); }
  }

  // ---- values ----

  /** `print_value`: the result is one new buffer that holds the text of the tree; if an allocation is
      refused, it is null and no new block is live. */
  method PrintNode(heap: Heap, item: Node, depth: nat, fmt: bool, ghost t: Tree) returns (out: array?<byte>)
    requires item == t.node && Shows(t) && Blocks(t) <= heap.live
    modifies heap
    ensures out == null ==> heap.live == old(heap.live) && heap.failures > old(heap.failures)
    ensures out != null ==> fresh(out) && heap.live == old(heap.live) + {out} && heap.failures == old(heap.failures)
    ensures Printable(ValueOf(t)) && (out != null ==> CString(out, PrintValue(ValueOf(t), depth, fmt)))
    decreases t, 5
  {
    hide ShowsAll, KidBlocks, ValuesOf, MembersOf, PrintItems, PrintMembers, Below;
    ShowsPrintable(t);
    HeapIsNoBlock(heap, t);
    BlocksOfKids(t);
    var kind := item.typ % 256;
    if kind == NULL { out := Strdup(heap, NULL_TEXT); }
    else if kind == FALSE { out := Strdup(heap, FALSE_TEXT); }
    else if kind == TRUE { out := Strdup(heap, TRUE_TEXT); }
    else if kind == NUMBER { out := PrintNumber(heap, item); }
    else if kind == STRING { out := PrintStringPtr(heap, item.valuestring, t.content); }
    else if kind == ARRAY { out := PrintArray(heap, item, depth, fmt, t.kids); }
    else { out := PrintObject(heap, item, depth, fmt, t.kids); }
  }

  /** What the printer needs to know about the children of a node; base is what was live at first. */
  ghost predicate Siblings(heap: Heap, first: Node?, kids: seq<Tree>, base: set<object>)
    reads NodeSet(kids), KidBlocks(kids)
  {
    && first == First(kids) && Linked(kids) && ShowsAll(kids)
    && KidBlocks(kids) <= base && heap !in KidBlocks(kids)
  }

  /** The buffers in outs, the newest ones, are live besides base. */
  ghost predicate Collected(heap: Heap, base: set<object>, outs: seq<array?<byte>>)
    reads heap
  {
    heap.live == base + Bufs(outs) && base !! Bufs(outs) && Apart(outs)
  }

  /** outs[k], unless null, holds text k. */
  ghost predicate Hold(outs: seq<array?<byte>>, texts: seq<bytes>)
    reads Bufs(outs)
  {
    |outs| <= |texts| && forall k | 0 <= k < |outs| && outs[k] != null :: CString(outs[k], texts[k])
  }

  ghost function ItemTexts(vs: seq<Value>, depth: nat, fmt: bool): (texts: seq<bytes>)
    requires forall x | x in vs :: Printable(x)
    ensures |texts| == |vs|
  {
    if vs == [] then [] else [PrintValue(vs[0], depth, fmt)] + ItemTexts(vs[1..], depth, fmt)
  }

  lemma {:induction false} ItemTextsAt(vs: seq<Value>, i: nat, depth: nat, fmt: bool)
    requires i < |vs| && forall x | x in vs :: Printable(x)
    ensures ItemTexts(vs, depth, fmt)[i] == PrintValue(vs[i], depth, fmt)
  {
    hide PrintValue, Printable;
    if i > 0 { ItemTextsAt(vs[1..], i - 1, depth, fmt); }
  }

  /** What `print_array` and `print_object` start from. */
  lemma ParentPrintable(heap: Heap, first: Node?, kids: seq<Tree>)
    requires Siblings(heap, first, kids, heap.live)
    ensures Printable(Array(ValuesOf(kids))) && forall x | x in ValuesOf(kids) :: Printable(x)
    ensures Printable(Object(MembersOf(kids))) && forall m | m in MembersOf(kids) :: Printable(m.value)
    ensures first == First(kids) && Linked(kids) && NodeSet(kids) <= KidBlocks(kids) <= heap.live
      && heap !in KidBlocks(kids)
  {
    KidsInBlocks(kids);
    AllPrintable(kids);
  }

  lemma StillSiblings(heap: Heap, first: Node?, kids: seq<Tree>, live: set<object>, base: set<object>)
    requires Siblings(heap, first, kids, live) && live <= base
    ensures Siblings(heap, first, kids, base)
  {
  }

  lemma NothingStored(entries: array<array?<byte>>)
    requires forall k | 0 <= k < entries.Length :: entries[k] == null
    ensures Stored(entries, [])
  {
  }

  /** `print_array`. */
  method PrintArray(heap: Heap, item: Node, depth: nat, fmt: bool, ghost kids: seq<Tree>) returns (out: array?<byte>)
    requires Siblings(heap, item.child, kids, heap.live)
    modifies heap
    ensures out == null ==> heap.live == old(heap.live) && heap.failures > old(heap.failures)
    ensures out != null ==> fresh(out) && heap.live == old(heap.live) + {out} && heap.failures == old(heap.failures)
    ensures Printable(Array(ValuesOf(kids)))
    ensures out != null ==> CString(out, PrintValue(Array(ValuesOf(kids)), depth, fmt))
    decreases kids, 4
  {
    hide Shows, ShowsAll, Blocks, Below, KidBlocks, ValueOf, ValuesOf, MembersOf, PrintValue;
    hide Printable, Siblings, Stored, Collected, Hold, Bufs, Apart, Alternate, Full, ItemTexts, MemberTexts, ItemsSize;
    hide MembersSize, Linked, NodeSet;
    ghost var vs := ValuesOf(kids);
    ghost var live := heap.live;
    ParentPrintable(heap, item.child, kids);
    var numentries := CountChildren(item.child, kids);
    var entries := heap.MallocPointers(numentries);
    if entries == null { return null; }
    ghost var base := heap.live;
    StillSiblings(heap, item.child, kids, live, base);
    var len, fail; ghost var outs;
    NothingStored(entries);
    len, fail, outs := PrintChildren(heap, item.child, entries, depth + 1, fmt, kids, base);
    out := FinishArray(heap, entries, len, fail, depth, fmt, vs, outs, base);
    heap.Free(entries);
  }

  /** Allocation and composition of the output, or the failure branch. */
  method FinishArray(heap: Heap, entries: array<array?<byte>>, len: nat, fail: bool, ghost depth: nat, fmt: bool,
                     ghost vs: seq<Value>, ghost outs: seq<array?<byte>>, ghost base: set<object>)
    returns (out: array?<byte>)
    requires entries.Length == |vs| && (forall x | x in vs :: Printable(x))
    requires Stored(entries, outs) && Collected(heap, base, outs) && Hold(outs, ItemTexts(vs, depth + 1, fmt))
    requires !fail ==> len == 5 + ItemsSize(vs, depth + 1, fmt) && Full(outs) && |outs| == |vs|
    requires entries in base
    modifies heap
    ensures heap.live == base + Opt(out) && (out != null ==> fresh(out))
    ensures heap.failures == old(heap.failures) + (if !fail && out == null then 1 else 0) && (fail ==> out == null)
    ensures out != null ==> CString(out, PrintValue(Array(vs), depth, fmt))
  {
    hide PrintItems, ItemsSize, Printable, PrintValue;
    Padded(heap, base, entries, outs, ItemTexts(vs, depth + 1, fmt));
    hide Stored, Hold, ItemTexts;
    out := null;
    if !fail { out := heap.Malloc(len); }
    if out == null {
      FreeAll(heap, entries);
      return null;
    }
    ArrayFits(vs, depth, fmt);
    ContainerText(vs, [], depth, fmt);
    ComposeArray(heap, out, entries, depth + 1, fmt, vs);
  }

  /** The loop that composes the output and frees the entries. */
  method ComposeArray(heap: Heap, out: array<byte>, entries: array<array?<byte>>, ghost depth: nat, fmt: bool,
                      ghost vs: seq<Value>)
    requires entries.Length == |vs| && Full(entries[..]) && (forall x | x in vs :: Printable(x))
    requires Hold(entries[..], ItemTexts(vs, depth, fmt)) && out !in Bufs(entries[..])
    requires Apart(entries[..]) && Bufs(entries[..]) <= heap.live && out in heap.live && entries in heap.live
    requires |PrintItems(vs, depth, fmt)| + 2 < out.Length
    modifies heap`live, out
    ensures heap.live == old(heap.live) - Bufs(entries[..])
    ensures CString(out, InBrackets(PrintItems(vs, depth, fmt)))
  {
    hide PrintValue, PrintItems, Printable, Hold, ItemTexts, Apart, Bufs;
    BufferFacts(heap, entries[..]);
    ghost var outs, whole := entries[..], [LBRACKET] + PrintItems(vs, depth, fmt);
    out[0], out[1] := LBRACKET, NUL;
    var ptr: nat, i: nat := 1, 0;
    assert vs[0..] == vs;
    while i < entries.Length
      invariant i <= |vs| && ptr <= |whole| < out.Length - 1 && entries[..] == outs
        && Hold(outs, ItemTexts(vs, depth, fmt))
      invariant heap.live == old(heap.live) - Bufs(outs[..i]) && out in heap.live && entries in heap.live
      invariant whole == out[..ptr] + PrintItems(vs[i..], depth, fmt)
    {
      ghost var before := out[..ptr];
      ItemsStepText(vs, i, depth, fmt, before, whole);
      BufsPrefix(outs, i);
      ItemTextsAt(vs, i, depth, fmt);
      HoldAt(outs, i, ItemTexts(vs, depth, fmt), out);
      ptr := PutEntry(heap, out, ptr, entries[i], i + 1 == entries.Length, fmt, PrintValue(vs[i], depth, fmt));
      heap.Free(entries[i]);
      i := i + 1;
    }
    assert outs[..i] == outs;
    NothingPrinted(depth, fmt);
    assert vs[i..] == [];
    ArrayIsText(vs, depth, fmt);
    CloseArray(out, ptr, PrintItems(vs, depth, fmt));
  }

  /** The closing bracket and the terminator. */
  method CloseArray(out: array<byte>, ptr: nat, ghost body: bytes)
    requires ptr + 1 < out.Length && out[..ptr] == [LBRACKET] + body && NUL !in InBrackets(body)
    modifies out
    ensures CString(out, InBrackets(body))
  {
    out[ptr], out[ptr + 1] := RBRACKET, NUL;
    assert out[..ptr + 1] == InBrackets(body);
  }

  lemma ArrayIsText(vs: seq<Value>, depth: nat, fmt: bool)
    requires forall x | x in vs :: Printable(x)
    ensures NUL !in InBrackets(PrintItems(vs, depth, fmt))
  {
    ItemsAreText(vs, depth, fmt);
  }

  lemma BufferFacts(heap: Heap, outs: seq<array?<byte>>)
    ensures Bufs(outs[..0]) == {} && heap !in Bufs(outs)
    ensures forall a: array<array?<byte>> :: a !in Bufs(outs)
  {
  }

  lemma HoldAt(outs: seq<array?<byte>>, i: nat, texts: seq<bytes>, out: array<byte>)
    requires i < |outs| && outs[i] != null && Hold(outs, texts) && out !in Bufs(outs)
    ensures CString(outs[i], texts[i]) && outs[i] != out
  {
    assert outs[i] in Bufs(outs);
  }

  /** The separator behind an entry. */
  function Separator(last: bool, fmt: bool): bytes {
    if last then [] else [COMMA] + If(fmt, [SPACE])
  }

  /** One entry and its separator are next in the output, and there is room for them. */
  lemma ItemsStepText(vs: seq<Value>, i: nat, depth: nat, fmt: bool, before: bytes, whole: bytes)
    requires i < |vs| && (forall x | x in vs :: Printable(x)) && whole == before + PrintItems(vs[i..], depth, fmt)
    ensures var e := PrintValue(vs[i], depth, fmt) + Separator(i + 1 == |vs|, fmt);
      whole == before + e + PrintItems(vs[i + 1..], depth, fmt) && |before| + |e| <= |whole|
  {
    hide PrintValue, Printable;
    assert vs[i..][0] == vs[i] && vs[i..][1..] == vs[i + 1..];
  }

  /** `strcpy(ptr,entries[i]);ptr+=strlen(entries[i]);` and the separator with a new terminator. */
  method PutEntry(ghost heap: Heap, out: array<byte>, at: nat, entry: array<byte>, last: bool, fmt: bool,
                  ghost t: bytes) returns (end: nat)
    requires {entry, out} <= heap.live
    requires CString(entry, t) && entry != out && at + |t + Separator(last, fmt)| < out.Length
    modifies out
    ensures end == at + |t + Separator(last, fmt)|
    ensures out[..end] == old(out[..at]) + t + Separator(last, fmt)
  {
    end := PutString(heap, out, at, entry, t);
    if !last {
      out[end] := COMMA;
      end := end + 1;
      if fmt { out[end] := SPACE; end := end + 1; }
      out[end] := NUL;
    }
  }

  /** What is stored in entries so far; the rest is null. */
  ghost predicate Stored(entries: array<array?<byte>>, outs: seq<array?<byte>>)
    reads entries
  {
    |outs| <= entries.Length && forall k | 0 <= k < entries.Length :: entries[k] == if k < |outs| then outs[k] else null
  }

  /** No result is missing. */
  ghost predicate Full(outs: seq<array?<byte>>) {
    forall k | 0 <= k < |outs| :: outs[k] != null
  }

  /** The loop that retrieves all results; it stops at the first failure. */
  method PrintChildren(heap: Heap, first: Node?, entries: array<array?<byte>>, depth: nat, fmt: bool,
                       ghost kids: seq<Tree>, ghost base: set<object>)
    returns (len: nat, fail: bool, ghost outs: seq<array?<byte>>)
    requires Siblings(heap, first, kids, base) && entries !in KidBlocks(kids)
    requires entries.Length == |kids| && Stored(entries, [])
    requires heap.live == base
    modifies heap, entries
    ensures forall x | x in ValuesOf(kids) :: Printable(x)
    ensures Stored(entries, outs) && Collected(heap, base, outs) && Hold(outs, ItemTexts(ValuesOf(kids), depth, fmt))
    ensures if fail then heap.failures > old(heap.failures) else heap.failures == old(heap.failures)
    ensures !fail ==> len == 5 + ItemsSize(ValuesOf(kids), depth, fmt) && Full(outs) && |outs| == |kids|
    decreases kids, 3
  {
    hide Shows, ShowsAll, KidBlocks, ValueOf, ValuesOf, PrintValue, Printable;
    hide Collected, Hold, Bufs, Siblings, ItemsSize, Stored, Full, ItemTexts, Linked, NodeSet, Apart;
    ParentPrintable(heap, first, kids);
    ghost var vs := ValuesOf(kids);
    len, fail := 5, false;
    var i, child := 0, first;
    outs := [];
    NothingYet(heap, base, outs, ItemTexts(vs, depth, fmt));
    assert vs[0..] == vs;
    while child != null && !fail
      invariant i == |outs| <= |kids| && child == NodeAt(kids, i)
      invariant Siblings(heap, First(kids), kids, base) && Stored(entries, outs)
      invariant Collected(heap, base, outs) && Hold(outs, ItemTexts(vs, depth, fmt))
      invariant if fail then heap.failures > old(heap.failures) else heap.failures == old(heap.failures)
      invariant !fail ==> len + ItemsSize(vs[i..], depth, fmt) == 5 + ItemsSize(vs, depth, fmt) && Full(outs)
      decreases |kids| - i
    {
      var ok, n, next;
      ItemTextsAt(vs, i, depth, fmt);
      ValuesAt(kids, i);
      ok, n, next, outs := PrintEntry(heap, child, entries, i, outs, depth, fmt, kids, ItemTexts(vs, depth, fmt), base);
      SizeFrom(vs, i, depth, fmt);
      if ok { len := len + n + 2 + (if fmt then 1 else 0); } else { fail := true; }
      i := i + 1;
      child := next;
    }
    SizeFrom(vs, i, depth, fmt);
  }

  /** `ret=print_value(child,...);entries[i++]=ret;` with `strlen(ret)` and `child->next`; ok is `ret`. */
  method PrintEntry(heap: Heap, child: Node, entries: array<array?<byte>>, i: nat, ghost before: seq<array?<byte>>,
                    depth: nat,
                    fmt: bool, ghost kids: seq<Tree>, ghost texts: seq<bytes>, ghost base: set<object>)
    returns (ok: bool, n: nat, next: Node?, ghost outs: seq<array?<byte>>)
    requires i == |before| < |kids| == entries.Length && child == kids[i].node && Stored(entries, before)
    requires Siblings(heap, First(kids), kids, base) && entries !in KidBlocks(kids)
    requires |texts| == |kids| && Printable(ValueOf(kids[i])) && texts[i] == PrintValue(ValueOf(kids[i]), depth, fmt)
    requires Collected(heap, base, before) && Hold(before, texts)
    modifies heap, entries
    ensures Siblings(heap, First(kids), kids, base) && next == NodeAt(kids, i + 1)
    ensures |outs| == i + 1 && Stored(entries, outs) && (ok && Full(before) ==> Full(outs))
    ensures Collected(heap, base, outs) && Hold(outs, texts)
    ensures if ok then heap.failures == old(heap.failures) && n == |texts[i]| else heap.failures > old(heap.failures)
    decreases kids, 2
  {
    hide Shows, ShowsAll, KidBlocks, ValueOf, ValuesOf, PrintValue, Printable;
    ghost var live := heap.live;
    BufferFacts(heap, before);
    hide Hold, Bufs;
    var ret;
    ret, n := PrintKid(heap, child, i, depth, fmt, kids, base);
    next := child.next;
    hide Siblings;
    StillCollected(heap, base, before, ret, texts, live);
    outs := before + [ret];
    StoreEntry(heap, entries, i, ret, outs, kids, texts, base);
    ok := ret != null;
  }

  /** `entries[i++]=ret`: storing the pointer changes neither the tree nor the buffers. */
  method StoreEntry(ghost heap: Heap, entries: array<array?<byte>>, i: nat, ret: array?<byte>,
                    ghost outs: seq<array?<byte>>,
                    ghost kids: seq<Tree>, ghost texts: seq<bytes>, ghost base: set<object>)
    requires i < entries.Length && entries !in KidBlocks(kids) && Siblings(heap, First(kids), kids, base)
    requires Hold(outs, texts)
    modifies entries
    ensures forall k | 0 <= k < entries.Length :: entries[k] == if k == i then ret else old(entries[k])
    ensures Siblings(heap, First(kids), kids, base) && Hold(outs, texts)
  {
    KidsInBlocks(kids);
    EntriesIsNoBuffer(entries, outs);
    hide Hold, Siblings, Bufs;
    entries[i] := ret;
  }

  // ---- objects ----

  ghost function MemberTexts(ms: seq<Member>, depth: nat, fmt: bool): (texts: seq<bytes>)
    requires forall m | m in ms :: Printable(m.value)
    ensures |texts| == 2 * |ms|
  {
    if ms == [] then []
    else [PrintString(ms[0].name), PrintValue(ms[0].value, depth, fmt)] + MemberTexts(ms[1..], depth, fmt)
  }

  lemma {:induction false} MemberTextsAt(ms: seq<Member>, i: nat, depth: nat, fmt: bool)
    requires i < |ms| && forall m | m in ms :: Printable(m.value)
    ensures MemberTexts(ms, depth, fmt)[2 * i] == PrintString(ms[i].name)
    ensures MemberTexts(ms, depth, fmt)[2 * i + 1] == PrintValue(ms[i].value, depth, fmt)
  {
    hide PrintValue, PrintString, Printable;
    if i > 0 { MemberTextsAt(ms[1..], i - 1, depth, fmt); }
  }

  /** What is stored in names and entries so far, read alternately. */
  ghost predicate Alternate(names: array<array?<byte>>, entries: array<array?<byte>>, outs: seq<array?<byte>>)
    reads names, entries
  {
    |outs| <= 2 * names.Length && entries.Length == names.Length
    && forall k | 0 <= 2 * k < |outs| - 1 :: names[k] == outs[2 * k] && entries[k] == outs[2 * k + 1]
  }

  /** `print_object`. */
  method PrintObject(heap: Heap, item: Node, depth: nat, fmt: bool, ghost kids: seq<Tree>) returns (out: array?<byte>)
    requires Siblings(heap, item.child, kids, heap.live)
    modifies heap
    ensures out == null ==> heap.live == old(heap.live) && heap.failures > old(heap.failures)
    ensures out != null ==> fresh(out) && heap.live == old(heap.live) + {out} && heap.failures == old(heap.failures)
    ensures Printable(Object(MembersOf(kids)))
    ensures out != null ==> CString(out, PrintValue(Object(MembersOf(kids)), depth, fmt))
    decreases kids, 4
  {
    hide Shows, ShowsAll, Blocks, Below, KidBlocks, ValueOf, ValuesOf, MembersOf, PrintValue;
    hide Printable, Siblings, Stored, Collected, Hold, Bufs, Apart, Alternate, Full, ItemTexts, MemberTexts, ItemsSize;
    hide MembersSize, Linked, NodeSet;
    ghost var ms := MembersOf(kids);
    ghost var live := heap.live;
    ParentPrintable(heap, item.child, kids);
    var numentries := CountChildren(item.child, kids);
    var entries := heap.MallocPointers(numentries);
    if entries == null { return null; }
    var names := heap.MallocPointers(numentries);
    if names == null { heap.Free(entries); return null; }
    ghost var base := heap.live;
    StillSiblings(heap, item.child, kids, live, base);
    var len, fail; ghost var outs;
    len, fail, outs := PrintPairs(heap, item.child, names, entries, depth + 1, fmt, kids, base);
    out := FinishObject(heap, names, entries, len, fail, depth, fmt, ms, outs, base);
    heap.Free(names);
    heap.Free(entries);
  }

  /** The loop that collects all results; unlike `print_array` it goes on after a failure. */
  method PrintPairs(heap: Heap, first: Node?, names: array<array?<byte>>, entries: array<array?<byte>>, depth: nat,
                    fmt: bool,
                    ghost kids: seq<Tree>, ghost base: set<object>)
    returns (len: nat, fail: bool, ghost outs: seq<array?<byte>>)
    requires Siblings(heap, first, kids, base) && entries !in KidBlocks(kids) && names !in KidBlocks(kids)
    requires entries.Length == |kids| == names.Length && names != entries
    requires heap.live == base
    modifies heap, names, entries
    ensures forall m | m in MembersOf(kids) :: Printable(m.value)
    ensures Alternate(names, entries, outs) && |outs| == 2 * |kids|
    ensures Collected(heap, base, outs) && Hold(outs, MemberTexts(MembersOf(kids), depth, fmt))
    ensures if fail then heap.failures > old(heap.failures) else heap.failures == old(heap.failures)
    ensures !fail ==> len == 7 + (if fmt then depth else 0) + MembersSize(MembersOf(kids), depth, fmt)
    ensures !fail ==> Full(outs)
    decreases kids, 3
  {
    hide Shows, ShowsAll, KidBlocks, ValueOf, MembersOf, PrintValue, Printable;
    hide Collected, Hold, Bufs, Siblings, MembersSize, PrintString, MemberTexts, Alternate, Full, Linked, NodeSet;
    hide Apart;
    ParentPrintable(heap, first, kids);
    ghost var ms := MembersOf(kids);
    len, fail := 7 + (if fmt then depth else 0), false;
    ghost var start := len;
    var i, child := 0, first;
    outs := [];
    NoPairs(names, entries);
    NothingYet(heap, base, outs, MemberTexts(ms, depth, fmt));
    assert ms[0..] == ms;
    while child != null
      invariant i <= |kids| && |outs| == 2 * i && child == NodeAt(kids, i)
      invariant Siblings(heap, First(kids), kids, base)
      invariant Alternate(names, entries, outs)
      invariant Collected(heap, base, outs) && Hold(outs, MemberTexts(ms, depth, fmt))
      invariant if fail then heap.failures > old(heap.failures) else heap.failures == old(heap.failures)
      invariant !fail ==> len + MembersSize(ms[i..], depth, fmt) == start + MembersSize(ms, depth, fmt)
      invariant !fail ==> Full(outs)
      decreases |kids| - i
    {
      var ok, n, next;
      ok, n, next, outs := PrintPair(heap, child, names, entries, i, outs, depth, fmt, kids, base);
      MembersSizeFrom(ms, i, depth, fmt);
      if ok { len := len + n + 2 + (if fmt then 2 + depth else 0); } else { fail := true; }
      i := i + 1;
      child := next;
    }
    MembersSizeFrom(ms, i, depth, fmt);
  }

  lemma NoPairs(names: array<array?<byte>>, entries: array<array?<byte>>)
    requires names.Length == entries.Length
    ensures Alternate(names, entries, []) && Full([])
  {
  }

  /** `names[i]=str=print_string_ptr(child->string);entries[i++]=ret=print_value(child,...);` with the sum of
      the two lengths and `child->next`; ok is `str && ret`. */
  method PrintPair(heap: Heap, child: Node, names: array<array?<byte>>, entries: array<array?<byte>>, i: nat,
                   ghost before: seq<array?<byte>>, depth: nat, fmt: bool, ghost kids: seq<Tree>,
                       ghost base: set<object>)
    returns (ok: bool, n: nat, next: Node?, ghost outs: seq<array?<byte>>)
    requires |before| == 2 * i && i < |kids| == entries.Length == names.Length && child == kids[i].node
      && names != entries
    requires Siblings(heap, First(kids), kids, base) && entries !in KidBlocks(kids) && names !in KidBlocks(kids)
    requires forall m | m in MembersOf(kids) :: Printable(m.value)
    requires Collected(heap, base, before) && Hold(before, MemberTexts(MembersOf(kids), depth, fmt))
    requires Alternate(names, entries, before)
    modifies heap, names, entries
    ensures Siblings(heap, First(kids), kids, base) && next == NodeAt(kids, i + 1)
    ensures |outs| == 2 * i + 2 && Alternate(names, entries, outs) && (ok && Full(before) ==> Full(outs))
    ensures Collected(heap, base, outs) && Hold(outs, MemberTexts(MembersOf(kids), depth, fmt))
    ensures if ok then heap.failures == old(heap.failures) else heap.failures > old(heap.failures)
    ensures ok ==> var m := MembersOf(kids)[i]; n == |PrintString(m.name)| + |PrintValue(m.value, depth, fmt)|
    decreases kids, 2
  {
    hide Shows, ShowsAll, KidBlocks, ValueOf, MembersOf, PrintValue, PrintString, Printable;
    hide Collected, Hold, Bufs, Siblings;
    ghost var texts := MemberTexts(MembersOf(kids), depth, fmt);
    MemberTextsAt(MembersOf(kids), i, depth, fmt);
    hide MemberTexts;
    var str, n1 := PrintNextName(heap, child, i, before, kids, texts, base);
    StoreEntry(heap, names, i, str, before + [str], kids, texts, base);
    var ret, n2;
    ret, n2, next := PrintNextMember(heap, child, i, before + [str], depth, fmt, kids, base);
    StoreEntry(heap, entries, i, ret, before + [str] + [ret], kids, texts, base);
    outs := before + [str] + [ret];
    ok, n := str != null && ret != null, n1 + n2;
  }

  /** Allocation and composition of the output, or the failure branch. */
  method FinishObject(heap: Heap, names: array<array?<byte>>, entries: array<array?<byte>>, len: nat, fail: bool,
                      depth: nat,
                      fmt: bool, ghost ms: seq<Member>, ghost outs: seq<array?<byte>>, ghost base: set<object>)
    returns (out: array?<byte>)
    requires names.Length == |ms| && (forall m | m in ms :: Printable(m.value)) && Alternate(names, entries, outs)
      && |outs| == 2 * |ms|
    requires Collected(heap, base, outs) && Hold(outs, MemberTexts(ms, depth + 1, fmt))
    requires !fail ==> len == 7 + (if fmt then depth + 1 else 0) + MembersSize(ms, depth + 1, fmt)
    requires !fail ==> Full(outs)
    requires {names, entries} <= base
    modifies heap
    ensures heap.live == base + Opt(out) && (out != null ==> fresh(out))
    ensures heap.failures == old(heap.failures) + (if !fail && out == null then 1 else 0) && (fail ==> out == null)
    ensures out != null ==> CString(out, PrintValue(Object(ms), depth, fmt))
  {
    hide PrintMembers, MembersSize, Printable, PrintValue, PrintString;
    out := null;
    if !fail { out := heap.Malloc(len); }
    if out == null {
      FreePairs(heap, names, entries, outs);
      return null;
    }
    ObjectFits(ms, depth, fmt);
    ContainerText([], ms, depth, fmt);
    ComposeObject(heap, out, names, entries, depth + 1, fmt, ms, outs);
  }

  method FreePairs(heap: Heap, names: array<array?<byte>>, entries: array<array?<byte>>, ghost outs: seq<array?<byte>>)
    requires Alternate(names, entries, outs) && |outs| == 2 * names.Length && Apart(outs) && Bufs(outs) <= heap.live
    modifies heap`live
    ensures heap.live == old(heap.live) - Bufs(outs)
  {
    var i := 0;
    while i < names.Length
      invariant i <= names.Length && heap.live == old(heap.live) - Bufs(outs[..2 * i])
    {
      BufsPrefix(outs, 2 * i);
      BufsPrefix(outs, 2 * i + 1);
      if names[i] != null { heap.Free(names[i]); }
      if entries[i] != null { heap.Free(entries[i]); }
      i := i + 1;
    }
    assert outs[..2 * i] == outs;
  }

  /** The loop that composes the output and frees names and entries; depth is already incremented. */
  method ComposeObject(heap: Heap, out: array<byte>, names: array<array?<byte>>, entries: array<array?<byte>>,
                       depth: nat,
                       fmt: bool, ghost ms: seq<Member>, ghost outs: seq<array?<byte>>)
    requires depth > 0 && names.Length == |ms| && (forall m | m in ms :: Printable(m.value))
    requires Alternate(names, entries, outs) && |outs| == 2 * |ms| && Full(outs)
    requires Hold(outs, MemberTexts(ms, depth, fmt)) && out !in Bufs(outs)
    requires Apart(outs) && Bufs(outs) <= heap.live && out in heap.live && {names, entries} <= heap.live
    requires |InBraces(If(fmt, [NEWLINE]), PrintMembers(ms, depth, fmt), If(fmt, Tabs(depth - 1)))| < out.Length
    modifies heap`live, out
    ensures heap.live == old(heap.live) - Bufs(outs)
    ensures CString(out, InBraces(If(fmt, [NEWLINE]), PrintMembers(ms, depth, fmt), If(fmt, Tabs(depth - 1))))
  {
    hide PrintValue, PrintMembers, PrintString, Printable, Hold, MemberTexts, Apart, Bufs, PrintMember, Tabs;
    BufferFacts(heap, outs);
    ghost var whole := [LBRACE] + If(fmt, [NEWLINE]) + PrintMembers(ms, depth, fmt);
    BracesLength(If(fmt, [NEWLINE]), PrintMembers(ms, depth, fmt), If(fmt, Tabs(depth - 1)));
    var ptr: nat, i: nat := 1, 0;
    out[0] := LBRACE;
    if fmt { out[ptr] := NEWLINE; ptr := ptr + 1; }
    out[ptr] := NUL;
    assert ms[0..] == ms;
    assert out[..ptr] == [LBRACE] + If(fmt, [NEWLINE]);
    while i < names.Length
      invariant i <= |ms| && ptr <= |whole| && Hold(outs, MemberTexts(ms, depth, fmt))
      invariant heap.live == old(heap.live) - Bufs(outs[..2 * i]) && out in heap.live && {names, entries} <= heap.live
      invariant whole == out[..ptr] + PrintMembers(ms[i..], depth, fmt)
    {
      ghost var before := out[..ptr];
      MembersStepText(ms, i, depth, fmt, before, whole);
      MemberTextsAt(ms, i, depth, fmt);
      BufsPrefix(outs, 2 * i);
      BufsPrefix(outs, 2 * i + 1);
      HoldAt(outs, 2 * i, MemberTexts(ms, depth, fmt), out);
      HoldAt(outs, 2 * i + 1, MemberTexts(ms, depth, fmt), out);
      ptr := PutMember(heap, out, ptr, names[i], entries[i], i + 1 == names.Length, depth, fmt, ms[i]);
      heap.Free(names[i]);
      heap.Free(entries[i]);
      i := i + 1;
    }
    assert outs[..2 * i] == outs && ms[i..] == [];
    NothingPrinted(depth, fmt);
    assert out[..ptr] == whole;
    if fmt { ptr := PutTabs(out, ptr, depth - 1); }
    assert out[..ptr] == whole + If(fmt, Tabs(depth - 1));
    out[ptr], out[ptr + 1] := RBRACE, NUL;
    ObjectIsText(ms, depth, fmt);
  }

  lemma BracesLength(line: bytes, body: bytes, tabs: bytes)
    ensures |InBraces(line, body, tabs)| == |[LBRACE] + line + body| + |tabs| + 1
  {
  }

  lemma ObjectIsText(ms: seq<Member>, depth: nat, fmt: bool)
    requires depth > 0 && forall m | m in ms :: Printable(m.value)
    ensures NUL !in InBraces(If(fmt, [NEWLINE]), PrintMembers(ms, depth, fmt), If(fmt, Tabs(depth - 1)))
  {
    MembersAreText(ms, depth, fmt);
  }

  /** One member is next in the output, and there is room for it. */
  lemma MembersStepText(ms: seq<Member>, i: nat, depth: nat, fmt: bool, before: bytes, whole: bytes)
    requires i < |ms| && (forall m | m in ms :: Printable(m.value))
      && whole == before + PrintMembers(ms[i..], depth, fmt)
    ensures var e := PrintMember(ms[i], i + 1 == |ms|, depth, fmt);
      whole == before + e + PrintMembers(ms[i + 1..], depth, fmt) && |before| + |e| <= |whole|
  {
    hide PrintMember, Printable;
    assert ms[i..][0] == ms[i] && ms[i..][1..] == ms[i + 1..];
  }

  /** Writes n tabs. */
  method PutTabs(out: array<byte>, at: nat, n: nat) returns (end: nat)
    requires at + n <= out.Length
    modifies out
    ensures end == at + n && out[..end] == old(out[..at]) + Tabs(n)
  {
    var j := 0;
    while j < n
      invariant j <= n && out[..at] == old(out[..at])
      invariant forall k | at <= k < at + j :: out[k] == TAB
    {
      out[at + j] := TAB;
      j := j + 1;
    }
    end := at + n;
  }

  /** One turn of the composing loop, without the calls of `cJSON_free`. */
  method PutMember(ghost heap: Heap, out: array<byte>, at: nat, name: array<byte>, entry: array<byte>, last: bool,
                   depth: nat, fmt: bool,
                   ghost m: Member) returns (end: nat)
    requires Printable(m.value) && CString(name, PrintString(m.name)) && CString(entry, PrintValue(m.value, depth, fmt))
    requires {name, entry, out} <= heap.live
    requires name != out && entry != out && at + |PrintMember(m, last, depth, fmt)| < out.Length
    modifies out
    ensures end == at + |PrintMember(m, last, depth, fmt)|
    ensures out[..end] == old(out[..at]) + PrintMember(m, last, depth, fmt)
  {
    hide PrintValue, PrintString, Printable, Tabs;
    ghost var before, tabs, t1, t2 :=
        out[..at], If(fmt, Tabs(depth)), PrintString(m.name), PrintValue(m.value, depth, fmt);
    MemberLength(m, last, depth, fmt);
    end := at;
    if fmt { end := PutTabs(out, end, depth); }
    assert out[..end] == before + tabs;
    end := PutString(heap, out, end, name, t1);
    end := PutColon(out, end, fmt);
    end := PutString(heap, out, end, entry, t2);
    end := PutEnd(out, end, last, fmt);
    Reassociate(before, tabs, t1, [COLON] + If(fmt, [TAB]), t2, If(!last, [COMMA]) + If(fmt, [NEWLINE]));
  }

  /** The colon, and a tab in formatted output. */
  method PutColon(out: array<byte>, at: nat, fmt: bool) returns (end: nat)
    requires at + 1 + |If(fmt, [TAB])| <= out.Length
    modifies out
    ensures end == at + 1 + |If(fmt, [TAB])| && out[..end] == old(out[..at]) + ([COLON] + If(fmt, [TAB]))
  {
    end := at;
    out[end] := COLON;
    end := end + 1;
    if fmt { out[end] := TAB; end := end + 1; }
  }

  /** What follows a member, and a terminator. */
  method PutEnd(out: array<byte>, at: nat, last: bool, fmt: bool) returns (end: nat)
    requires at + |If(!last, [COMMA])| + |If(fmt, [NEWLINE])| < out.Length
    modifies out
    ensures end == at + |If(!last, [COMMA])| + |If(fmt, [NEWLINE])|
    ensures out[..end] == old(out[..at]) + (If(!last, [COMMA]) + If(fmt, [NEWLINE]))
  {
    end := at;
    if !last { out[end] := COMMA; end := end + 1; }
    if fmt { out[end] := NEWLINE; end := end + 1; }
    out[end] := NUL;
  }

  lemma Reassociate(a: bytes, b: bytes, c: bytes, d: bytes, e: bytes, f: bytes)
    ensures a + b + c + d + e + f == a + (b + c + d + e + f)
  {
  }

  lemma MemberLength(m: Member, last: bool, depth: nat, fmt: bool)
    requires Printable(m.value)
    ensures |PrintMember(m, last, depth, fmt)| ==
      |If(fmt, Tabs(depth))| + |PrintString(m.name)| + 1 + |If(fmt, [TAB])| + |PrintValue(m.value, depth, fmt)|
      + |If(!last, [COMMA])| + |If(fmt, [NEWLINE])|
  {
    hide PrintValue, PrintString, Printable, Tabs;
  }

  /** Copies a string to the position and moves behind it; both buffers are live. */
  method PutString(ghost heap: Heap, out: array<byte>, at: nat, src: array<byte>, ghost t: bytes) returns (end: nat)
    requires {src, out} <= heap.live && CString(src, t) && src != out && at + |t| < out.Length
    modifies out
    ensures end == at + |t| && out[..end] == old(out[..at]) + t
  {
    Strcpy(out, at, src, t);
    var n := Strlen(src, t);
    end := at + n;
  }

  lemma BlocksOfKids(t: Tree)
    ensures KidBlocks(t.kids) <= Blocks(t)
  {
    hide KidBlocks;
  }

  lemma EntriesIsNoBuffer(entries: array<array?<byte>>, outs: seq<array?<byte>>)
    ensures entries !in Bufs(outs)
  {
  }

  /** The call of `print_value` for one child, and `strlen` of its result. */
  method PrintKid(heap: Heap, child: Node, i: nat, depth: nat, fmt: bool, ghost kids: seq<Tree>,
                  ghost base: set<object>)
    returns (ret: array?<byte>, n: nat)
    requires i < |kids| && child == kids[i].node && Siblings(heap, First(kids), kids, base)
    requires base <= heap.live
    modifies heap
    ensures Siblings(heap, First(kids), kids, base) && child.next == NodeAt(kids, i + 1) && Printable(ValueOf(kids[i]))
    ensures ret == null ==> heap.live == old(heap.live) && heap.failures > old(heap.failures)
    ensures ret != null ==> fresh(ret) && heap.live == old(heap.live) + {ret} && heap.failures == old(heap.failures)
    ensures ret != null ==> var t := PrintValue(ValueOf(kids[i]), depth, fmt); CString(ret, t) && n == |t|
    decreases kids, 1, 0
  {
    hide Shows, ShowsAll, KidBlocks, ValueOf, PrintValue, Printable;
    ShowsAt(kids, i);
    KidsInBlocks(kids);
    ret := PrintNode(heap, child, depth, fmt, kids[i]);
    n := 0;
    if ret != null { n := Strlen(ret, PrintValue(ValueOf(kids[i]), depth, fmt)); }
  }

  /** The same with the result in the place of the value of an object member. */
  method PrintNextMember(heap: Heap, child: Node, i: nat, ghost before: seq<array?<byte>>, depth: nat, fmt: bool,
                         ghost kids: seq<Tree>, ghost base: set<object>)
    returns (ret: array?<byte>, n: nat, next: Node?)
    requires 2 * i + 1 == |before| && i < |kids| && child == kids[i].node && Siblings(heap, First(kids), kids, base)
    requires forall m | m in MembersOf(kids) :: Printable(m.value)
    requires Collected(heap, base, before) && Hold(before, MemberTexts(MembersOf(kids), depth, fmt))
    modifies heap
    ensures Siblings(heap, First(kids), kids, base) && next == NodeAt(kids, i + 1)
    ensures Collected(heap, base, before + [ret]) && Hold(before + [ret], MemberTexts(MembersOf(kids), depth, fmt))
    ensures if ret == null then heap.failures > old(heap.failures) else heap.failures == old(heap.failures)
    ensures ret != null ==> n == |PrintValue(MembersOf(kids)[i].value, depth, fmt)|
    decreases kids, 1, 1
  {
    hide Shows, ShowsAll, KidBlocks, ValueOf, MembersOf, PrintValue, PrintString, Printable;
    ValuesAt(kids, i);
    MemberTextsAt(MembersOf(kids), i, depth, fmt);
    ghost var live := heap.live;
    BufferFacts(heap, before);
    hide MemberTexts, Hold, Bufs;
    ret, n := PrintKid(heap, child, i, depth, fmt, kids, base);
    next := child.next;
    hide Siblings;
    StillCollected(heap, base, before, ret, MemberTexts(MembersOf(kids), depth, fmt), live);
  }

  /** `print_string_ptr(child->string)`. */
  method PrintNextName(heap: Heap, child: Node, i: nat, ghost before: seq<array?<byte>>, ghost kids: seq<Tree>,
                       ghost texts: seq<bytes>, ghost base: set<object>)
    returns (str: array?<byte>, n: nat)
    requires 2 * i == |before| && i < |kids| && child == kids[i].node && Siblings(heap, First(kids), kids, base)
    requires |texts| == 2 * |kids| && texts[2 * i] == PrintString(MembersOf(kids)[i].name)
    requires Collected(heap, base, before) && Hold(before, texts)
    modifies heap
    ensures Siblings(heap, First(kids), kids, base)
    ensures Collected(heap, base, before + [str]) && Hold(before + [str], texts)
    ensures if str == null then heap.failures > old(heap.failures) else heap.failures == old(heap.failures)
    ensures str != null ==> n == |PrintString(MembersOf(kids)[i].name)|
  {
    hide Shows, ShowsAll, KidBlocks, ValueOf, MembersOf, PrintString, Hold, Bufs, Siblings, NodeSet;
    NameOf(heap, kids, i, base);
    ghost var live := heap.live;
    BufferFacts(heap, before);
    str := PrintStringPtr(heap, child.name, kids[i].name);
    n := 0;
    if str != null { n := Strlen(str, PrintString(MembersOf(kids)[i].name)); }
    StillCollected(heap, base, before, str, texts, live);
  }

  lemma NameOf(heap: Heap, kids: seq<Tree>, i: nat, base: set<object>)
    requires i < |kids| && Siblings(heap, First(kids), kids, base)
    ensures kids[i].node.name == kids[i].key && (kids[i].key != null ==> CString(kids[i].key, kids[i].name))
    ensures MembersOf(kids)[i].name == TextOf(kids[i].key, kids[i].name)
    ensures NodeSet(kids) <= KidBlocks(kids) <= base && heap !in KidBlocks(kids)
  {
    hide ShowsAll, KidBlocks, MembersOf;
    ShowsAt(kids, i);
    ValuesAt(kids, i);
    KidsInBlocks(kids);
  }

  /** One more buffer, new or null, that holds the next text; live is what was live before. */
  lemma StillCollected(heap: Heap, base: set<object>, before: seq<array?<byte>>, ret: array?<byte>, texts: seq<bytes>,
                       live: set<object>)
    requires |before| < |texts| && Hold(before, texts)
    requires live == base + Bufs(before) && base !! Bufs(before) && Apart(before)
    requires ret != null ==> ret !in live && CString(ret, texts[|before|])
    requires heap.live == live + Opt(ret)
    ensures Collected(heap, base, before + [ret]) && Hold(before + [ret], texts)
  {
    BufsAppend(before, ret);
  }

  lemma SizeFrom(vs: seq<Value>, i: nat, depth: nat, fmt: bool)
    requires i <= |vs| && forall x | x in vs :: Printable(x)
    ensures ItemsSize(vs[i..], depth, fmt) ==
      if i == |vs| then 0
      else |PrintValue(vs[i], depth, fmt)| + 2 + (if fmt then 1 else 0) + ItemsSize(vs[i + 1..], depth, fmt)
  {
    hide PrintValue, Printable;
    if i < |vs| { assert vs[i..][0] == vs[i] && vs[i..][1..] == vs[i + 1..]; }
  }

  lemma MembersSizeFrom(ms: seq<Member>, i: nat, depth: nat, fmt: bool)
    requires i <= |ms| && forall m | m in ms :: Printable(m.value)
    ensures MembersSize(ms[i..], depth, fmt) ==
      if i == |ms| then 0
      else |PrintString(ms[i].name)| + |PrintValue(ms[i].value, depth, fmt)| + 2 + (if fmt then 2 + depth else 0)
           + MembersSize(ms[i + 1..], depth, fmt)
  {
    hide PrintValue, Printable;
    if i < |ms| { assert ms[i..][0] == ms[i] && ms[i..][1..] == ms[i + 1..]; }
  }

  lemma NothingYet(heap: Heap, base: set<object>, outs: seq<array?<byte>>, texts: seq<bytes>)
    requires outs == [] && heap.live == base
    ensures Collected(heap, base, outs) && Bufs(outs) == {} && Hold(outs, texts) && Full(outs)
  {
  }

  lemma Padded(heap: Heap, base: set<object>, entries: array<array?<byte>>, outs: seq<array?<byte>>, texts: seq<bytes>)
    requires Stored(entries, outs) && entries.Length <= |texts| && Collected(heap, base, outs) && Hold(outs, texts)
    ensures Collected(heap, base, entries[..]) && Hold(entries[..], texts)
    ensures |outs| == entries.Length ==> entries[..] == outs
  {
    assert entries[..][..|outs|] == outs;
    BufsPadded(entries[..], |outs|);
  }

  lemma BufsAppend(outs: seq<array?<byte>>, b: array?<byte>)
    ensures Bufs(outs + [b]) == Bufs(outs) + Opt(b)
    ensures Apart(outs) && (b != null ==> b !in Bufs(outs)) ==> Apart(outs + [b])
  {
    BufsPrefix(outs + [b], |outs|);
    assert (outs + [b])[..|outs|] == outs && (outs + [b])[..|outs| + 1] == outs + [b];
  }

  /** Null pointers behind the buffers add nothing. */
  lemma BufsPadded(outs: seq<array?<byte>>, i: nat)
    requires i <= |outs| && forall k | i <= k < |outs| :: outs[k] == null
    ensures Bufs(outs) == Bufs(outs[..i]) && (Apart(outs[..i]) ==> Apart(outs))
  {
    forall o | o in Bufs(outs) ensures o in Bufs(outs[..i]) {
      var k :| 0 <= k < |outs| && outs[k] != null && outs[k] == o;
      assert outs[..i][k] == o;
    }
    forall o | o in Bufs(outs[..i]) ensures o in Bufs(outs) {
      var k :| 0 <= k < i && outs[..i][k] != null && outs[..i][k] == o;
      assert outs[k] == o;
    }
    if Apart(outs[..i]) {
      forall a, b | 0 <= a < b < |outs| ensures outs[a] != null ==> outs[a] != outs[b] {
        if b < i { assert outs[..i][a] == outs[a] && outs[..i][b] == outs[b]; }
      }
    }
  }
}
