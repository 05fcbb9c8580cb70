/** The send loops of the echo server and of the client: a chain of packet buffers is handed
    to the TCP layer buffer by buffer, under a send window and with error replies that the
    network decides. */
module TcpSend {
  import opened Pbuf

  datatype Err = OK | MEM | ABRT | OTHER

  /** What the TCP layer answers at one moment: the room left in its send buffer if asked for
      it, the result if handed data. */
  datatype Reply = Reply(window: nat, err: Err)

  datatype End = InUse | Closed | Aborted | Dropped

  /** The connection as the application sees it. The answers are an arbitrary sequence;
      `tcp_write` with the copy flag takes all of the bytes or none. */
  class TcpPcb {
    const replies: nat -> Reply
    var now: nat
    var accepted: seq<Byte>
    var end: End

    method SndBuf() returns (window: nat)
      modifies `now
      ensures window == replies(old(now)).window && now == old(now) + 1
    {
      window := replies(now).window;
      now := now + 1;
    }

    method Close()
      modifies `end
      ensures end == Closed
    {
      end := Closed;
    }

    method Abort()
      modifies `end
      ensures end == Aborted
    {
      end := Aborted;
    }

    /** The TCP layer's own doing: the peer has reset the connection. */
    method Drop()
      modifies `end
      ensures end == Dropped
    {
      end := Dropped;
    }

    method Write(data: seq<Byte>) returns (err: Err)
      modifies `now, `accepted
      ensures err == replies(old(now)).err && now == old(now) + 1
      ensures accepted == if err == OK then old(accepted) + data else old(accepted)
    {
      err := replies(now).err;
      now := now + 1;
      if err == OK {
        accepted := accepted + data;
      }
    }
  }

  // ----- one call of a send loop, on values -----

  /** The bytes waiting, buffer by buffer, and the bytes the TCP layer has taken. */
  datatype Sending = Sending(queue: seq<seq<Byte>>, accepted: seq<Byte>, now: nat) {
    /** Everything that was to be sent, in order. */
    function Stream(): seq<Byte> { accepted + Flatten(queue) }
  }

  /** The window test: the server sends a buffer that fills the window, the client does not. */
  predicate Fits(strict: bool, len: nat, window: nat) {
    if strict then len < window else len <= window
  }

  function SendLoop(s: Sending, replies: nat -> Reply, strict: bool): Sending
    decreases |s.queue|
  {
    if s.queue == [] then s
    else if !Fits(strict, |s.queue[0]|, replies(s.now).window) then s.(now := s.now + 1)
    else if replies(s.now + 1).err != OK then s.(now := s.now + 2)
    else SendLoop(Sending(s.queue[1..], s.accepted + s.queue[0], s.now + 2), replies, strict)
  }

  /** The TCP layer takes the first k buffers when it is asked from `now` on. */
  predicate Takes(queue: seq<seq<Byte>>, now: nat, replies: nat -> Reply, strict: bool, k: nat) {
    && k <= |queue|
    && forall i: nat :: i < k ==> TakesAt(queue, now, replies, strict, i)
  }

  predicate TakesAt(queue: seq<seq<Byte>>, now: nat, replies: nat -> Reply, strict: bool, i: nat)
    requires i < |queue|
  {
    Fits(strict, |queue[i]|, replies(now + 2 * i).window) && replies(now + 2 * i + 1).err == OK
  }

  lemma {:induction false} FlattenSplit(q: seq<seq<Byte>>, k: nat)
    requires k <= |q|
    ensures Flatten(q) == Flatten(q[..k]) + Flatten(q[k..])
  {
    if k == 0 {
      assert q[..0] == [] && q[0..] == q;
    } else {
      FlattenSplit(q[1..], k - 1);
      assert q[..k][1..] == q[1..][..k - 1] && q[k..] == q[1..][k - 1..];
    }
  }

  /** A call takes exactly the leading buffers that the replies admit, appends their bytes in
      order, and leaves the others as they were. */
  lemma {:induction false} SendTakesPrefix(s: Sending, replies: nat -> Reply, strict: bool) returns (k: nat)
    ensures k <= |s.queue| && Takes(s.queue, s.now, replies, strict, k)
    ensures k < |s.queue| ==> !TakesAt(s.queue, s.now, replies, strict, k)
    ensures SendLoop(s, replies, strict).queue == s.queue[k..]
    ensures SendLoop(s, replies, strict).accepted == s.accepted + Flatten(s.queue[..k])
    decreases |s.queue|
  {
    hide *;
    SendUnfolds(s, replies, strict);
    if s.queue == [] || !TakesAt(s.queue, s.now, replies, strict, 0) {
      k := 0;
      TakeNone(s.queue);
    } else {
      var rest := Sending(s.queue[1..], s.accepted + s.queue[0], s.now + 2);
      var j := SendTakesPrefix(rest, replies, strict);
      k := j + 1;
      TakesOneMore(s, replies, strict, j);
      TakeFirst(s.queue, k);
    }
  }

  lemma SendUnfolds(s: Sending, replies: nat -> Reply, strict: bool)
    ensures if s.queue == [] || !TakesAt(s.queue, s.now, replies, strict, 0) then
              SendLoop(s, replies, strict).queue == s.queue && SendLoop(s, replies, strict).accepted == s.accepted
            else
              SendLoop(s, replies, strict) ==
              SendLoop(Sending(s.queue[1..], s.accepted + s.queue[0], s.now + 2), replies, strict)
    ensures Takes(s.queue, s.now, replies, strict, 0)
  {
  }

  lemma TakeNone(q: seq<seq<Byte>>)
    ensures Flatten(q[..0]) == [] && q[0..] == q
  {
  }

  lemma TakeFirst(q: seq<seq<Byte>>, k: nat)
    requires 0 < k <= |q|
    ensures Flatten(q[..k]) == q[0] + Flatten(q[1..][..k - 1])
    ensures q[1..][k - 1..] == q[k..]
  {
    assert q[..k][1..] == q[1..][..k - 1];
  }

  lemma TakesLater(s: Sending, replies: nat -> Reply, strict: bool, i: nat)
    requires i + 1 < |s.queue|
    ensures TakesAt(s.queue, s.now, replies, strict, i + 1) <==>
      TakesAt(s.queue[1..], s.now + 2, replies, strict, i)
  {
    assert s.now + 2 + 2 * i == s.now + 2 * (i + 1);
  }

  lemma TakesOneMore(s: Sending, replies: nat -> Reply, strict: bool, j: nat)
    requires s.queue != [] && TakesAt(s.queue, s.now, replies, strict, 0)
    requires Takes(s.queue[1..], s.now + 2, replies, strict, j)
    ensures Takes(s.queue, s.now, replies, strict, j + 1)
    ensures j + 1 < |s.queue| ==>
      (TakesAt(s.queue, s.now, replies, strict, j + 1) <==> TakesAt(s.queue[1..], s.now + 2, replies, strict, j))
  {
    hide TakesAt;
    forall i: nat | i < j + 1 ensures TakesAt(s.queue, s.now, replies, strict, i) {
      if i > 0 { TakesLater(s, replies, strict, i - 1); }
    }
    if j + 1 < |s.queue| { TakesLater(s, replies, strict, j); }
  }

  /** Nothing is lost, repeated or reordered by a call, whatever the replies. */
  lemma SendConserves(s: Sending, replies: nat -> Reply, strict: bool)
    ensures SendLoop(s, replies, strict).Stream() == s.Stream()
  {
    var k := SendTakesPrefix(s, replies, strict);
    FlattenSplit(s.queue, k);
  }

  /** The queue is emptied by one call exactly when every buffer fits and is taken. */
  lemma DrainsExactlyWhen(s: Sending, replies: nat -> Reply, strict: bool)
    ensures SendLoop(s, replies, strict).queue == [] <==> Takes(s.queue, s.now, replies, strict, |s.queue|)
  {
    var k := SendTakesPrefix(s, replies, strict);
  }

  /** The two loops part ways exactly at a buffer as long as the window: the server's sends
      it, the client's waits. */
  lemma LoopsDifferExactlyWhen(s: Sending, replies: nat -> Reply)
    requires s.queue != [] && replies(s.now + 1).err == OK
    ensures (SendLoop(s, replies, true).queue == s.queue && SendLoop(s, replies, false).queue != s.queue) <==>
      |s.queue[0]| == replies(s.now).window
  {
    var k := SendTakesPrefix(s, replies, true);
    var n := SendTakesPrefix(s, replies, false);
    assert TakesAt(s.queue, s.now, replies, true, 0) <==> |s.queue[0]| < replies(s.now).window;
    assert TakesAt(s.queue, s.now, replies, false, 0) <==> |s.queue[0]| <= replies(s.now).window;
    assert (k == 0) == (s.queue[k..] == s.queue) && (n == 0) == (s.queue[n..] == s.queue);
  }

  /** How many buffers a call hands over. */
  function SentCount(s: Sending, replies: nat -> Reply, strict: bool): nat
    decreases |s.queue|
  {
    if s.queue == [] || !TakesAt(s.queue, s.now, replies, strict, 0) then 0
    else 1 + SentCount(Sending(s.queue[1..], s.accepted + s.queue[0], s.now + 2), replies, strict)
  }

  lemma {:induction false} SentOrQueued(s: Sending, replies: nat -> Reply, strict: bool)
    ensures |s.queue| == SentCount(s, replies, strict) + |SendLoop(s, replies, strict).queue|
    decreases |s.queue|
  {
    if s.queue != [] && TakesAt(s.queue, s.now, replies, strict, 0) {
      SentOrQueued(Sending(s.queue[1..], s.accepted + s.queue[0], s.now + 2), replies, strict);
    }
  }

  /** The first reply admits the head, so the call hands over at least that. */
  predicate HeadGoes(s: Sending, replies: nat -> Reply, strict: bool) {
    s.queue != [] && TakesAt(s.queue, s.now, replies, strict, 0)
  }

  lemma SendShortens(s: Sending, replies: nat -> Reply, strict: bool)
    ensures |SendLoop(s, replies, strict).queue| <= |s.queue|
    ensures HeadGoes(s, replies, strict) ==> |SendLoop(s, replies, strict).queue| < |s.queue|
  {
    SentOrQueued(s, replies, strict);
  }

  /** The questions of a call that hands over k buffers: the window and a write for each, then
      the window for the one that stops it, and a write for that only if it fits. */
  function Questions(queue: seq<seq<Byte>>, now: nat, replies: nat -> Reply, strict: bool, k: nat): nat
    requires k <= |queue|
  {
    2 * k + if k == |queue| then 0 else if Fits(strict, |queue[k]|, replies(now + 2 * k).window) then 2 else 1
  }

  lemma QuestionsAfterOne(queue: seq<seq<Byte>>, now: nat, replies: nat -> Reply, strict: bool, k: nat)
    requires queue != [] && k < |queue|
    ensures Questions(queue, now, replies, strict, k + 1) == 2 + Questions(queue[1..], now + 2, replies, strict, k)
  {
    hide Fits;
    assert now + 2 + 2 * k == now + 2 * (k + 1);
    assert k + 1 < |queue| ==> queue[1..][k] == queue[k + 1];
  }

  lemma QuestionsAtStop(s: Sending, replies: nat -> Reply, strict: bool)
    requires s.queue == [] || !TakesAt(s.queue, s.now, replies, strict, 0)
    ensures SentCount(s, replies, strict) == 0
    ensures SendLoop(s, replies, strict).now == s.now + Questions(s.queue, s.now, replies, strict, 0)
  {
  }

  lemma SentCountUnfolds(s: Sending, replies: nat -> Reply, strict: bool)
    requires s.queue != [] && TakesAt(s.queue, s.now, replies, strict, 0)
    ensures var rest := Sending(s.queue[1..], s.accepted + s.queue[0], s.now + 2);
      SentCount(s, replies, strict) == 1 + SentCount(rest, replies, strict)
  {
  }

  lemma {:induction false} QuestionsAsked(s: Sending, replies: nat -> Reply, strict: bool)
    ensures SentCount(s, replies, strict) <= |s.queue|
    ensures SendLoop(s, replies, strict).now ==
      s.now + Questions(s.queue, s.now, replies, strict, SentCount(s, replies, strict))
    decreases |s.queue|
  {
    hide *;
    if s.queue == [] || !TakesAt(s.queue, s.now, replies, strict, 0) {
      QuestionsAtStop(s, replies, strict);
    } else {
      var rest := Sending(s.queue[1..], s.accepted + s.queue[0], s.now + 2);
      SendUnfolds(s, replies, strict);
      SentCountUnfolds(s, replies, strict);
      QuestionsAsked(rest, replies, strict);
      QuestionsAfterOne(s.queue, s.now, replies, strict, SentCount(rest, replies, strict));
    }
  }

  // ----- which queues the windows let through -----

  predicate AllFit(queue: seq<seq<Byte>>, strict: bool, largest: nat) {
    forall i :: 0 <= i < |queue| ==> Fits(strict, |queue[i]|, largest)
  }

  /** No reply ever offers more room than `largest`. */
  ghost predicate WindowsUpTo(replies: nat -> Reply, largest: nat) {
    forall t: nat :: replies(t).window <= largest
  }

  /** A buffer that the largest window does not admit stays queued. */
  lemma TooLongStays(s: Sending, replies: nat -> Reply, strict: bool, largest: nat)
    requires WindowsUpTo(replies, largest) && !AllFit(s.queue, strict, largest)
    ensures !AllFit(SendLoop(s, replies, strict).queue, strict, largest)
  {
    var i: nat :| i < |s.queue| && !Fits(strict, |s.queue[i]|, largest);
    var k := SendTakesPrefix(s, replies, strict);
    TakenFit(s, replies, strict, largest, k);
    assert s.queue[k..][i - k] == s.queue[i];
  }

  lemma TakenFit(s: Sending, replies: nat -> Reply, strict: bool, largest: nat, k: nat)
    requires WindowsUpTo(replies, largest) && Takes(s.queue, s.now, replies, strict, k)
    ensures forall i :: 0 <= i < k ==> Fits(strict, |s.queue[i]|, largest)
  {
    forall i: nat | i < k ensures Fits(strict, |s.queue[i]|, largest) {
      assert TakesAt(s.queue, s.now, replies, strict, i);
    }
  }

  /** Against a constant largest window and no errors, one call sends a queue that fits. */
  lemma FittingQueueDrains(s: Sending, replies: nat -> Reply, strict: bool, largest: nat)
    requires AllFit(s.queue, strict, largest) && forall t: nat :: replies(t) == Reply(largest, OK)
    ensures SendLoop(s, replies, strict).queue == []
  {
    assert Takes(s.queue, s.now, replies, strict, |s.queue|);
    DrainsExactlyWhen(s, replies, strict);
  }

  // ----- connections and callbacks -----

  datatype Phase = Established | Closing

  /** A connection: `open` until its callbacks are removed. */
  datatype Conn = Conn(phase: Phase, open: bool, sending: Sending)

  /** How the allocations of one callback come out: nothing from the heap, no buffers from the
      pool, or buffers of the given sizes. */
  datatype Supply = NoHeap | NoBuffers | Buffers(sizes: seq<nat>)

  predicate Holds(supply: Supply, data: seq<Byte>) {
    supply.Buffers? ==> supply.sizes != [] && Sum(supply.sizes) == |data|
  }

  /** What the TCP layer reports to a connection; Failed is a receive with an error, Reset the
      end of a connection that the TCP layer has dropped. */
  datatype Event =
    | PeerClosed | Failed(data: seq<Byte>) | Received(data: seq<Byte>, supply: Supply)
    | Acked | Polled | Reset

  predicate WellFormed(e: Event) { e.Received? ==> Holds(e.supply, e.data) }

  // ----- the loops on the heap -----

  lemma PayloadsTail(nodes: seq<Pbuf>)
    requires nodes != []
    ensures Payloads(nodes)[0] == nodes[0].payload && Payloads(nodes)[1..] == Payloads(nodes[1..])
    ensures Payloads(nodes) != []
  {
  }

  /** After k buffers of the chain have been sent: those are back in the pool, the others are
      a chain of buffers owned by p alone. */
  ghost predicate Progress(p: Pbuf?, nodes: seq<Pbuf>, k: nat)
    reads nodes
  {
    && k <= |nodes|
    && Chain(p, nodes[k..]) && SoleOwner(nodes[k..])
    && forall i: nat :: i < k ==> !nodes[i].live && nodes[i].ref == 0
  }

  lemma HeadOf(p: Pbuf?, nodes: seq<Pbuf>, k: nat)
    requires Progress(p, nodes, k)
    ensures k <= |nodes| && (p == null <==> k == |nodes|) && (p != null ==> p == nodes[k])
    ensures Chain(p, nodes[k..]) && SoleOwner(nodes[k..])
    ensures p == null ==> Payloads(nodes[k..]) == []
  {
  }

  lemma Ones(nodes: seq<Pbuf>) returns (refs: seq<int>)
    requires SoleOwner(nodes)
    ensures CountsAre(nodes, refs) && Positive(refs) && forall i: nat :: i < |refs| ==> refs[i] == 1
  {
    refs := seq(|nodes|, _ => 1);
  }

  /** The step of both loops on a chain that p owns: the sent buffer goes back to the pool,
      once, and every other buffer keeps the state it had. */
  method Advance(p: Pbuf, ghost nodes: seq<Pbuf>, ghost k: nat) returns (rest: Pbuf?)
    requires Progress(p, nodes, k) && k < |nodes|
    modifies nodes`ref, nodes`live
    ensures Progress(rest, nodes, k + 1)
  {
    ghost var left := nodes[k..];
    ghost var refs := Ones(left);
    rest := TakeNext(p, left, refs);
    assert left[1..] == nodes[k + 1..];
  }

  /** One turn of either loop on values. */
  lemma SendCases(s: Sending, replies: nat -> Reply, strict: bool)
    requires s.queue != []
    ensures SendLoop(s, replies, strict) ==
      if !Fits(strict, |s.queue[0]|, replies(s.now).window) then Sending(s.queue, s.accepted, s.now + 1)
      else if replies(s.now + 1).err != OK then Sending(s.queue, s.accepted, s.now + 2)
      else SendLoop(Sending(s.queue[1..], s.accepted + s.queue[0], s.now + 2), replies, strict)
  {
  }

  lemma SendNothing(s: Sending, replies: nat -> Reply, strict: bool)
    requires s.queue == []
    ensures SendLoop(s, replies, strict) == s
  {
  }

  lemma ProgressStarts(p: Pbuf?, nodes: seq<Pbuf>)
    requires Chain(p, nodes) && SoleOwner(nodes)
    ensures Progress(p, nodes, 0) && nodes[0..] == nodes
  {
    assert nodes[0..] == nodes;
  }

  lemma PayloadsLeft(nodes: seq<Pbuf>, k: nat)
    requires k < |nodes|
    ensures Payloads(nodes[k..]) != [] && Payloads(nodes[k..])[0] == nodes[k].payload
    ensures Payloads(nodes[k..])[1..] == Payloads(nodes[k + 1..])
  {
    assert nodes[k..][1..] == nodes[k + 1..];
    PayloadsTail(nodes[k..]);
  }

  /** Whether p is offered: the window test of the loop with p at the head. */
  method Offer(pcb: TcpPcb, p: Pbuf, strict: bool) returns (taken: bool)
    modifies pcb`now, pcb`accepted
    ensures taken == (Fits(strict, |p.payload|, pcb.replies(old(pcb.now)).window) &&
                      pcb.replies(old(pcb.now) + 1).err == OK)
    ensures pcb.accepted == if taken then old(pcb.accepted) + p.payload else old(pcb.accepted)
    ensures pcb.now == old(pcb.now) +
      if Fits(strict, |p.payload|, pcb.replies(old(pcb.now)).window) then 2 else 1
  {
    var window := pcb.SndBuf();
    taken := Fits(strict, |p.payload|, window);
    if taken {
      var err := pcb.Write(p.payload);
      taken := err == OK;
    }
  }

  /** One turn of the loop with p at the head. */
  method Turn(pcb: TcpPcb, p: Pbuf, ghost nodes: seq<Pbuf>, ghost k: nat, strict: bool)
    returns (rest: Pbuf?, going: bool)
    requires Progress(p, nodes, k)
    modifies pcb`now, pcb`accepted, nodes`ref, nodes`live
    ensures var left := if going then k + 1 else k;
      left <= |nodes| && Progress(rest, nodes, left) &&
      var s := Sending(Payloads(nodes[left..]), pcb.accepted, pcb.now);
      SendLoop(Sending(Payloads(nodes[k..]), old(pcb.accepted), old(pcb.now)), pcb.replies, strict) ==
        if going then SendLoop(s, pcb.replies, strict) else s
  {
    hide *;
    HeadOf(p, nodes, k);
    PayloadsLeft(nodes, k);
    SendCases(Sending(Payloads(nodes[k..]), pcb.accepted, pcb.now), pcb.replies, strict);
    rest := p;
    going := Offer(pcb, p, strict);
    if going {
      rest := Advance(p, nodes, k);
    }
  }

  /** The loop of `tcp_server_send` and `tcpclient_send`. */
  method SendChain(pcb: TcpPcb, head: Pbuf?, ghost nodes: seq<Pbuf>, strict: bool)
    returns (p: Pbuf?, ghost k: nat)
    requires Chain(head, nodes) && SoleOwner(nodes)
    modifies pcb`now, pcb`accepted, nodes`ref, nodes`live
    ensures k <= |nodes| && Progress(p, nodes, k)
    ensures Sending(Payloads(nodes[k..]), pcb.accepted, pcb.now) ==
      SendLoop(Sending(Payloads(nodes), old(pcb.accepted), old(pcb.now)), pcb.replies, strict)
  {
    hide *;
    ghost var goal := SendLoop(Sending(Payloads(nodes), pcb.accepted, pcb.now), pcb.replies, strict);
    ProgressStarts(head, nodes);
    p, k := head, 0;
    var going := true;
    while going && p != null
      invariant k <= |nodes| && Progress(p, nodes, k)
      invariant var s := Sending(Payloads(nodes[k..]), pcb.accepted, pcb.now);
        goal == if going then SendLoop(s, pcb.replies, strict) else s
      decreases |nodes| - k, going
    {
      HeadOf(p, nodes, k);
      p, going := Turn(pcb, p, nodes, k, strict);
      k := if going then k + 1 else k;
    }
    HeadOf(p, nodes, k);
    SendNothing(Sending([], pcb.accepted, pcb.now), pcb.replies, strict);
  }

  lemma EmptyTogether(p: Pbuf?, nodes: seq<Pbuf>)
    requires Chain(p, nodes)
    ensures p == null <==> Payloads(nodes) == []
  {
  }

  /** The callback's arguments as an event. */
  ghost function RecvEvent(q: Pbuf?, err: Err, supply: Supply, incoming: seq<Pbuf>): Event {
    if q == null then PeerClosed
    else if err != OK then Failed(Flatten(Payloads(incoming)))
    else Received(Flatten(Payloads(incoming)), supply)
  }

  ghost predicate Apart(a: seq<Pbuf>, b: seq<Pbuf>) {
    forall i :: 0 <= i < |a| ==> a[i] !in b
  }

  /** The chain with these counts has been freed once. */
  ghost predicate Released(nodes: seq<Pbuf>, refs: seq<int>)
    reads nodes
  {
    var k := LeadingOnes(refs);
    Walked(nodes, refs, k, k < |nodes|)
  }
}
