/** Reference-counted packet buffers in singly linked chains, with lwIP's rules: a free
    decrements the head's count, returns the buffer to its pool at zero, and only then goes
    on to the next buffer. `live` says whether a buffer is still out of its pool. */
module Pbuf {

  type Byte = bv8

  class Pbuf {
    var next: Pbuf?
    const payload: seq<Byte>
    var ref: nat
    var live: bool

    constructor (payload: seq<Byte>, next: Pbuf?)
      ensures this.payload == payload && this.next == next && ref == 1 && live
    {
      this.payload, this.next, ref, live := payload, next, 1, true;
    }
  }

  /** What the buffer at position i must point to. */
  function Successor(nodes: seq<Pbuf>, i: nat): Pbuf? {
    if i + 1 < |nodes| then nodes[i + 1] else null
  }

  /** The buffers reachable from p are exactly `nodes`, in order. */
  ghost predicate Chain(p: Pbuf?, nodes: seq<Pbuf>)
    reads nodes`next
  {
    && p == (if nodes == [] then null else nodes[0])
    && forall i: nat :: i < |nodes| ==> nodes[i].next == Successor(nodes, i)
  }

  /** A chain that ends repeats no buffer: two equal ones would have equal successors up to
      the end of the chain, which only the last buffer has. */
  lemma {:induction false} ChainRepeatsNothing(p: Pbuf?, nodes: seq<Pbuf>, i: nat, j: nat)
    requires Chain(p, nodes) && i < j < |nodes|
    ensures nodes[i] != nodes[j]
    decreases |nodes| - j
  {
    assert nodes[i].next == Successor(nodes, i) && nodes[j].next == Successor(nodes, j);
    if j + 1 < |nodes| {
      ChainRepeatsNothing(p, nodes, i + 1, j + 1);
    }
  }

  lemma OthersDiffer(p: Pbuf?, nodes: seq<Pbuf>, k: nat)
    requires Chain(p, nodes) && k < |nodes|
    ensures forall i: nat :: i < |nodes| && i != k ==> nodes[i] != nodes[k]
  {
    forall i: nat | i < |nodes| && i != k ensures nodes[i] != nodes[k] {
      if i < k { ChainRepeatsNothing(p, nodes, i, k); } else { ChainRepeatsNothing(p, nodes, k, i); }
    }
  }

  lemma NextInChain(p: Pbuf?, nodes: seq<Pbuf>, i: nat)
    requires Chain(p, nodes) && i < |nodes|
    ensures nodes[i].next == if i + 1 < |nodes| then nodes[i + 1] else null
  {
  }

  /** Every buffer is out of the pool and counted at least once. */
  ghost predicate Counted(nodes: seq<Pbuf>)
    reads nodes
  {
    forall i :: 0 <= i < |nodes| ==> nodes[i].live && nodes[i].ref >= 1
  }

  /** The owner of the head owns the whole chain: each count is the one pointer to it. */
  ghost predicate SoleOwner(nodes: seq<Pbuf>)
    reads nodes
  {
    forall i :: 0 <= i < |nodes| ==> nodes[i].live && nodes[i].ref == 1
  }

  function Payloads(nodes: seq<Pbuf>): (q: seq<seq<Byte>>)
    ensures |q| == |nodes| && forall i :: 0 <= i < |nodes| ==> q[i] == nodes[i].payload
  {
    seq(|nodes|, i requires 0 <= i < |nodes| => nodes[i].payload)
  }

  function Flatten(q: seq<seq<Byte>>): seq<Byte> {
    if q == [] then [] else q[0] + Flatten(q[1..])
  }

  ghost function Refs(nodes: seq<Pbuf>): (r: seq<int>)
    reads nodes
    ensures |r| == |nodes| && forall i: nat :: i < |nodes| ==> r[i] == nodes[i].ref
  {
    seq(|nodes|, i requires 0 <= i < |nodes| reads nodes => nodes[i].ref)
  }

  /** How many leading counts are 1. */
  function LeadingOnes(refs: seq<int>): (k: nat)
    ensures k <= |refs| && (forall i: nat :: i < k ==> refs[i] == 1)
    ensures k < |refs| ==> refs[k] != 1
  {
    if refs == [] || refs[0] != 1 then 0 else 1 + LeadingOnes(refs[1..])
  }

  predicate Positive(refs: seq<int>) {
    forall i: nat :: i < |refs| ==> refs[i] >= 1
  }

  predicate OnesUpTo(refs: seq<int>, k: nat) {
    k <= |refs| && forall i: nat :: i < k ==> refs[i] == 1
  }

  /** The chain part of the way through a free: the first `done` buffers are back in the
      pool, the next one has lost a count when the walk has stopped there. */
  ghost predicate Walked(nodes: seq<Pbuf>, refs: seq<int>, done: nat, stopped: bool)
    reads nodes
  {
    && |refs| == |nodes|
    && forall i: nat :: i < |nodes| ==>
      && nodes[i].live == (i >= done)
      && nodes[i].ref == if i < done then 0 else if i == done && stopped then refs[i] - 1 else refs[i]
  }

  /** What holds when the walk is about to look at q. */
  ghost predicate Walking(q: Pbuf?, nodes: seq<Pbuf>, refs: seq<int>, done: nat, stopped: bool)
    reads nodes
  {
    && Walked(nodes, refs, done, stopped) && Positive(refs) && OnesUpTo(refs, done)
    && (stopped ==> q == null && done < |nodes| && refs[done] != 1)
    && (!stopped ==> q == if done < |nodes| then nodes[done] else null)
  }

  /** An eight-bit count. */
  function Low8(n: nat): nat { n % 0x100 }

  lemma Low8Value(n: nat)
    ensures Low8(n) == n % 0x100
  {
  }

  lemma Low8Counts(n: nat)
    ensures Low8(Low8(n) + 1) == Low8(n + 1)
  {
  }

  /** `pbuf_ref` */
  method PbufRef(p: Pbuf?)
    modifies if p == null then {} else {p}`ref
    ensures p != null ==> p.ref == (old(p.ref) + 1) % 0x1_0000
  {
    if p != null {
      p.ref := (p.ref + 1) % 0x1_0000;
    }
  }

  /** One turn of the walk: take a count from the buffer; at zero, return it to the pool and
      go on to the next. */
  method Release(q: Pbuf, ghost p: Pbuf?, ghost nodes: seq<Pbuf>, ghost refs: seq<int>, ghost done: nat)
    returns (rest: Pbuf?, gone: bool)
    requires Chain(p, nodes) && Walking(q, nodes, refs, done, false)
    modifies q`ref, q`live
    ensures Walking(rest, nodes, refs, if gone then done + 1 else done, !gone)
  {
    OthersDiffer(p, nodes, done);
    q.ref := q.ref - 1;
    gone := q.ref == 0;
    rest := null;
    if gone {
      rest := q.next;
      q.live := false;
    }
  }

  lemma {:induction false} LeadingOnesUnique(refs: seq<int>, k: nat)
    requires OnesUpTo(refs, k) && (k < |refs| ==> refs[k] != 1)
    ensures k == LeadingOnes(refs)
  {
    if refs != [] && refs[0] == 1 {
      LeadingOnesUnique(refs[1..], k - 1);
    }
  }

  lemma WalkStarts(p: Pbuf?, nodes: seq<Pbuf>)
    requires Chain(p, nodes) && Counted(nodes)
    ensures Walking(p, nodes, Refs(nodes), 0, false)
  {
  }

  lemma WalkEnds(nodes: seq<Pbuf>, refs: seq<int>, done: nat, stopped: bool)
    requires Walking(null, nodes, refs, done, stopped)
    ensures done == LeadingOnes(refs) && stopped == (done < |nodes|) && Walked(nodes, refs, done, stopped)
  {
    LeadingOnesUnique(refs, done);
  }

  lemma InChain(q: Pbuf, nodes: seq<Pbuf>, refs: seq<int>, done: nat, stopped: bool)
    requires Walking(q, nodes, refs, done, stopped)
    ensures !stopped && done < |nodes| && q == nodes[done]
  {
  }

  /** `pbuf_free`: returns to the pool the leading buffers whose only pointer goes away, and
      takes one from the count of the buffer that stops the walk. The number of buffers
      returned is kept in eight bits. */
  method PbufFree(p: Pbuf?, ghost nodes: seq<Pbuf>) returns (count: nat)
    requires Chain(p, nodes) && Counted(nodes)
    modifies nodes`ref, nodes`live
    ensures var k := LeadingOnes(old(Refs(nodes)));
      count == k % 0x100 && Walked(nodes, old(Refs(nodes)), k, k < |nodes|)
  {
    hide *;
    ghost var refs, done, stopped := Refs(nodes), 0, false;
    var q := p;
    count := Low8(0);
    WalkStarts(p, nodes);
    while q != null
      invariant Chain(p, nodes) && Walking(q, nodes, refs, done, stopped) && count == Low8(done)
      decreases q != null, |nodes| - done
    {
      InChain(q, nodes, refs, done, stopped);
      var rest, gone := Release(q, p, nodes, refs, done);
      stopped := !gone;
      if gone {
        Low8Counts(done);
        count, done := Low8(count + 1), done + 1;
      }
      q := rest;
    }
    WalkEnds(nodes, refs, done, stopped);
    Low8Value(done);
  }

  lemma ChainTail(p: Pbuf, nodes: seq<Pbuf>)
    requires Chain(p, nodes)
    ensures nodes != [] && p.next == (if |nodes| > 1 then nodes[1] else null)
    ensures Chain(p.next, nodes[1..])
  {
    var rest := nodes[1..];
    forall i: nat | i < |rest| ensures rest[i].next == Successor(rest, i) {
      assert rest[i] == nodes[i + 1] && nodes[i + 1].next == Successor(nodes, i + 1);
    }
  }

  /** What a caller who owns the head holds afterwards: the tail, on the counts it had. Only a
      head that somebody else still points to leaves the tail one count richer. */
  ghost predicate HeadTaken(nodes: seq<Pbuf>, refs: seq<int>)
    requires 0 < |nodes| == |refs|
    reads nodes
  {
    && nodes[0].ref == refs[0] - 1 && nodes[0].live == (refs[0] > 1)
    && forall i: nat :: 0 < i < |nodes| ==>
      nodes[i].live && nodes[i].ref == if i == 1 && refs[0] > 1 then refs[i] + 1 else refs[i]
  }

  /** The counts with one more pointer to the second buffer. */
  function SecondCounted(refs: seq<int>): seq<int> {
    if |refs| > 1 then refs[1 := refs[1] + 1] else refs
  }

  ghost predicate CountsAre(nodes: seq<Pbuf>, refs: seq<int>)
    reads nodes
  {
    |refs| == |nodes| && forall i: nat :: i < |nodes| ==> nodes[i].live && nodes[i].ref == refs[i]
  }

  lemma CountsAreRefs(nodes: seq<Pbuf>, refs: seq<int>)
    requires CountsAre(nodes, refs) && Positive(refs)
    ensures refs == Refs(nodes) && Counted(nodes)
  {
  }

  lemma SecondCountedStays(refs: seq<int>)
    requires Positive(refs)
    ensures Positive(SecondCounted(refs))
  {
  }

  lemma HeadIsTaken(nodes: seq<Pbuf>, refs: seq<int>)
    requires 0 < |nodes| == |refs| && Positive(refs)
    requires var k := LeadingOnes(SecondCounted(refs));
             Walked(nodes, SecondCounted(refs), k, k < |nodes|)
    ensures HeadTaken(nodes, refs)
  {
    LeadingOnesUnique(SecondCounted(refs), if refs[0] == 1 then 1 else 0);
  }

  /** The second pointer to the next buffer, counted. */
  method RefNext(ptr: Pbuf, ghost nodes: seq<Pbuf>, ghost refs: seq<int>) returns (rest: Pbuf?)
    requires Chain(ptr, nodes) && CountsAre(nodes, refs)
    requires forall i: nat :: i < |refs| ==> 0 <= refs[i] < 0xFFFF
    modifies nodes`ref
    ensures Chain(rest, nodes[1..]) && CountsAre(nodes, SecondCounted(refs))
  {
    hide Chain;
    ChainTail(ptr, nodes);
    rest := ptr.next;
    if rest != null {
      OthersDiffer(ptr, nodes, 1);
      PbufRef(rest);
    }
  }

  /** The step of both send loops: look up the next buffer, count the new pointer to it, free
      the head. */
  method TakeNext(ptr: Pbuf, ghost nodes: seq<Pbuf>, ghost refs: seq<int>) returns (rest: Pbuf?)
    requires Chain(ptr, nodes) && CountsAre(nodes, refs) && Positive(refs)
    requires forall i: nat :: i < |refs| ==> 0 <= refs[i] < 0xFFFF
    modifies nodes`ref, nodes`live
    ensures 0 < |nodes| == |refs| && Chain(rest, nodes[1..]) && HeadTaken(nodes, refs)
  {
    hide *;
    CountsAreRefs(nodes, refs);
    ChainTail(ptr, nodes);
    rest := RefNext(ptr, nodes, refs);
    SecondCountedStays(refs);
    CountsAreRefs(nodes, SecondCounted(refs));
    var _ := PbufFree(ptr, nodes);
    HeadIsTaken(nodes, refs);
  }

  // ----- allocation -----

  function Sum(sizes: seq<nat>): nat {
    if sizes == [] then 0 else sizes[0] + Sum(sizes[1..])
  }

  /** The sizes `pbuf_alloc` cuts a length into: the first buffer has `room` bytes behind its
      headers, the others `size`. */
  function PoolSizes(len: nat, room: nat, size: nat): (sizes: seq<nat>)
    requires room > 0 && size > 0
    ensures sizes != [] && Sum(sizes) == len
    ensures sizes[0] <= room && forall i :: 1 <= i < |sizes| ==> 0 < sizes[i] <= size
    ensures forall i :: 0 <= i < |sizes| - 1 ==> sizes[i] == if i == 0 then room else size
  {
    if len <= room then [len] + TailSizes(0, size) else [room] + TailSizes(len - room, size)
  }

  function TailSizes(len: nat, size: nat): (sizes: seq<nat>)
    requires size > 0
    ensures Sum(sizes) == len && (sizes == [] <==> len == 0)
    ensures forall i :: 0 <= i < |sizes| ==> 0 < sizes[i] <= size
    ensures forall i :: 0 <= i < |sizes| - 1 ==> sizes[i] == size
  {
    if len == 0 then [] else if len <= size then [len] else [size] + TailSizes(len - size, size)
  }

  /** data cut into pieces of the given sizes. */
  function Split(data: seq<Byte>, sizes: seq<nat>): (q: seq<seq<Byte>>)
    requires Sum(sizes) == |data|
    ensures |q| == |sizes| && Flatten(q) == data
    ensures forall i :: 0 <= i < |q| ==> |q[i]| == sizes[i]
  {
    if sizes == [] then [] else [data[..sizes[0]]] + Split(data[sizes[0]..], sizes[1..])
  }

  lemma ConsChain(p: Pbuf, tail: Pbuf?, rest: seq<Pbuf>)
    requires Chain(tail, rest) && SoleOwner(rest)
    requires p.next == tail && p.live && p.ref == 1
    ensures Chain(p, [p] + rest) && SoleOwner([p] + rest)
    ensures Payloads([p] + rest) == [p.payload] + Payloads(rest)
  {
    var nodes := [p] + rest;
    forall i: nat | i < |nodes| ensures nodes[i].next == Successor(nodes, i) {
      if i > 0 { assert nodes[i] == rest[i - 1] && rest[i - 1].next == Successor(rest, i - 1); }
    }
  }

  /** `pbuf_alloc` followed by `pbuf_take`: a fresh chain over a copy of the data, in pieces
      whose sizes the pool decides. */
  method AllocAndTake(data: seq<Byte>, sizes: seq<nat>) returns (p: Pbuf?, ghost nodes: seq<Pbuf>)
    requires Sum(sizes) == |data|
    ensures Chain(p, nodes) && SoleOwner(nodes) && Payloads(nodes) == Split(data, sizes)
    ensures forall i :: 0 <= i < |nodes| ==> fresh(nodes[i])
    decreases |sizes|
  {
    p, nodes := null, [];
    if sizes != [] {
      var tail, rest := AllocAndTake(data[sizes[0]..], sizes[1..]);
      var head := new Pbuf(data[..sizes[0]], tail);
      ConsChain(head, tail, rest);
      p, nodes := head, [head] + rest;
    }
  }
}
