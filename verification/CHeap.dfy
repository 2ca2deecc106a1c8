/** The C heap that json/cJSON.c works on: nodes, buffers, and an allocator that may fail. */
module CHeap {
  import opened CText

  /** `struct cJSON`. The field `string` is called name here; `valuelong` is not modelled. */
  class Node {
    var next: Node?
    var prev: Node?
    var child: Node?
    var typ: nat
    var valuestring: array?<byte>
    var valueint: int
    var valuedouble: real
    var name: array?<byte>

    /** `memset(node,0,sizeof(cJSON))`. */
    constructor ()
      ensures next == null && prev == null && child == null && typ == 0
      ensures valuestring == null && valueint == 0 && valuedouble == 0.0 && name == null
    {
      next, prev, child, typ := null, null, null, 0;
      valuestring, valueint, valuedouble, name := null, 0, 0.0, null;
    }
  }

  /** A buffer that holds a C string. */
  ghost predicate CString(a: array<byte>, t: bytes)
    reads a
  {
    |t| < a.Length && (forall k | 0 <= k < |t| :: a[k] == t[k] && a[k] != NUL) && a[|t|] == NUL
  }

  /** `malloc` and `free`. Whether the k-th request is granted is decided by an arbitrary oracle. */
  class Heap {
    const grants: nat -> bool
    var calls: nat
    /** The blocks that are allocated and not yet freed. */
    ghost var live: set<object>
    /** How many requests were refused. */
    ghost var failures: nat

    constructor (grants: nat -> bool)
      ensures live == {} && failures == 0
    {
      this.grants := grants;
      calls, live, failures := 0, {}, 0;
    }

    method Request() returns (granted: bool)
      modifies this
      ensures granted == this.grants(old(calls))
      ensures live == old(live) && failures == old(failures) + (if granted then 0 else 1)
    {
      granted := grants(calls);
      calls := calls + 1;
      if !granted { failures := failures + 1; }
    }

    method Malloc(n: nat) returns (a: array?<byte>)
      modifies this
      ensures a != null ==> fresh(a) && a.Length == n && live == old(live) + {a} && failures == old(failures)
      ensures a == null ==> live == old(live) && failures == old(failures) + 1
    {
      var granted := Request();
      if !granted { return null; }
      a := new byte[n];
      live := live + {a};
    }

    /** An array of n pointers, zeroed as the callers do with `memset`. */
    method MallocPointers(n: nat) returns (a: array?<array?<byte>>)
      modifies this
      ensures a != null ==> fresh(a) && a.Length == n && live == old(live) + {a} && failures == old(failures)
      ensures a != null ==> forall k | 0 <= k < n :: a[k] == null
      ensures a == null ==> live == old(live) && failures == old(failures) + 1
    {
      var granted := Request();
      if !granted { return null; }
      a := new array?<byte>[n](_ => null);
      live := live + {a};
    }

    /** `cJSON_New_Item`. */
    method NewItem() returns (c: Node?)
      modifies this
      ensures c != null ==> fresh(c) && live == old(live) + {c} && failures == old(failures)
      ensures c != null ==> c.next == null && c.prev == null && c.child == null && c.typ == 0
      ensures c != null ==> c.valuestring == null && c.valueint == 0 && c.valuedouble == 0.0 && c.name == null
      ensures c == null ==> live == old(live) && failures == old(failures) + 1
    {
      var granted := Request();
      if !granted { return null; }
      c := new Node();
      live := live + {c};
    }

    /** `cJSON_free`: only a block that is live may be freed, so no block is freed twice. */
    method Free(block: object)
      requires block in live
      modifies this`live
      ensures live == old(live) - {block}
    {
      live := live - {block};
    }
  }

  /** `strlen`. */
  method Strlen(a: array<byte>, ghost t: bytes) returns (n: nat)
    requires CString(a, t)
    ensures n == |t|
  {
    n := 0;
    while a[n] != NUL
      invariant n <= |t|
      decreases |t| - n
    {
      n := n + 1;
    }
  }

  /** `strcpy(dst + at, src)`: the copy includes the terminator. */
  method Strcpy(dst: array<byte>, at: nat, src: array<byte>, ghost t: bytes)
    requires CString(src, t) && src != dst && at + |t| < dst.Length
    modifies dst
    ensures dst[..at] == old(dst[..at]) && dst[at..at + |t|] == t && dst[at + |t|] == NUL
  {
    var n := 0;
    while src[n] != NUL
      invariant n <= |t| && CString(src, t)
      invariant dst[..at] == old(dst[..at]) && dst[at..at + n] == t[..n]
      decreases |t| - n
    {
      dst[at + n] := src[n];
      n := n + 1;
    }
    dst[at + n] := NUL;
  }

  /** `cJSON_strdup` of a string given by its bytes. */
  method Strdup(heap: Heap, t: text) returns (a: array?<byte>)
    modifies heap
    ensures a != null ==> fresh(a) && CString(a, t) && heap.live == old(heap.live) + {a}
    ensures a != null ==> heap.failures == old(heap.failures)
    ensures a == null ==> heap.live == old(heap.live) && heap.failures == old(heap.failures) + 1
  {
    a := heap.Malloc(|t| + 1);
    if a == null { return; }
    var n := 0;
    while n < |t|
      invariant n <= |t| && forall k | 0 <= k < n :: a[k] == t[k]
      modifies a
    {
      a[n] := t[n];
      n := n + 1;
    }
    a[n] := NUL;
  }
}
