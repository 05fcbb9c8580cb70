/** The echo server: its callbacks as methods of a connection, the state machine they
    implement, and what happens to bytes and buffers over whole runs of callbacks. */
module TcpServer {
  import opened Pbuf
  import opened TcpSend

  // ----- one callback -----

  /** The event asks for an echo and gets everything it needs. */
  predicate Queues(c: Conn, e: Event) {
    c.open && c.phase == Established && e.Received? && e.supply.Buffers?
  }

  /** No memory for the copy: the TCP layer keeps the chain and delivers it again. */
  predicate Defers(c: Conn, e: Event) {
    c.open && c.phase == Established && e.Received? && e.supply.NoHeap?
  }

  /** The event takes the queue away: it overwrites the pointer to it or frees its holder. */
  predicate Assigns(c: Conn, e: Event) {
    c.open && (e.PeerClosed? || e.Reset? || (e.Received? && !Defers(c, e)))
  }

  predicate LeavesQueue(c: Conn, e: Event) { !Assigns(c, e) }

  function Step(c: Conn, e: Event, replies: nat -> Reply): Conn
    requires WellFormed(e)
  {
    if !c.open then c
    else match e
      case PeerClosed => Conn(Closing, true, c.sending.(queue := []))
      case Failed(_) => c
      case Received(data, supply) =>
        if c.phase == Closing then c.(sending := c.sending.(queue := []))
        else (match supply
          case NoHeap => c
          case NoBuffers => c.(open := false, sending := c.sending.(queue := []))
          case Buffers(sizes) => c.(sending := SendLoop(c.sending.(queue := Split(data, sizes)), replies, false)))
      case Acked => if c.sending.queue == [] then c else c.(sending := SendLoop(c.sending, replies, false))
      case Polled =>
        if c.sending.queue != [] then c.(sending := SendLoop(c.sending, replies, false))
        else if c.phase == Closing then c.(open := false)
        else c
      case Reset => c.(open := false, sending := c.sending.(queue := []))
  }

  // ----- runs -----

  type Replies = nat -> Reply

  predicate AllWellFormed(es: seq<Event>) { forall e <- es :: WellFormed(e) }

  function Run(c: Conn, es: seq<Event>, replies: Replies): Conn
    requires AllWellFormed(es)
    decreases |es|
  {
    if es == [] then c else Run(Step(c, es[0], replies), es[1..], replies)
  }

  /** The condition holds at every event of the run, in the state the event meets. */
  predicate Throughout(c: Conn, es: seq<Event>, replies: Replies, p: (Conn, Event) -> bool)
    requires AllWellFormed(es)
  {
    forall i: nat :: i < |es| ==> p(Run(c, es[..i], replies), es[i])
  }

  lemma ThroughoutUnfolds(c: Conn, es: seq<Event>, replies: Replies, p: (Conn, Event) -> bool)
    requires es != [] && AllWellFormed(es)
    ensures Throughout(c, es, replies, p) <==>
      p(c, es[0]) && Throughout(Step(c, es[0], replies), es[1..], replies, p)
  {
    hide Step;
    var next, rest := Step(c, es[0], replies), es[1..];
    assert es[..0] == [];
    forall i: nat | i < |rest| ensures Run(next, rest[..i], replies) == Run(c, es[..i + 1], replies) {
      assert es[..i + 1][1..] == rest[..i];
    }
    if Throughout(c, es, replies, p) {
      assert p(Run(c, es[..0], replies), es[0]);
      forall i: nat | i < |rest| ensures p(Run(next, rest[..i], replies), rest[i]) {
        assert p(Run(c, es[..i + 1], replies), es[i + 1]);
      }
    }
    if p(c, es[0]) && Throughout(next, rest, replies, p) {
      forall i: nat | i < |es| ensures p(Run(c, es[..i], replies), es[i]) {
        if i > 0 { assert p(Run(next, rest[..i - 1], replies), rest[i - 1]); }
      }
    }
  }

  // ----- bytes -----

  /** The bytes the TCP layer hands over for good. */
  function Arrived(c: Conn, e: Event): seq<Byte> {
    if c.open && (e.Failed? || (e.Received? && !Defers(c, e))) then e.data else []
  }

  /** How many bytes the event loses: queued ones it overwrites and new ones it discards. */
  function Discarded(c: Conn, e: Event): nat {
    (if Assigns(c, e) then |Flatten(c.sending.queue)| else 0) +
    (if Queues(c, e) then 0 else |Arrived(c, e)|)
  }

  lemma StreamAfter(c: Conn, e: Event, replies: Replies)
    requires WellFormed(e)
    ensures Step(c, e, replies).sending.Stream() ==
      (if Assigns(c, e) then c.sending.accepted else c.sending.Stream()) +
      (if Queues(c, e) then e.data else [])
  {
    SendConserves(c.sending, replies, false);
    if Queues(c, e) {
      SendConserves(c.sending.(queue := Split(e.data, e.supply.sizes)), replies, false);
    }
  }

  lemma StepBalance(c: Conn, e: Event, replies: Replies)
    requires WellFormed(e)
    ensures var s, t := c.sending.Stream(), Step(c, e, replies).sending.Stream();
      && |t| + Discarded(c, e) == |s| + |Arrived(c, e)|
      && (Discarded(c, e) == 0 ==> t == s + Arrived(c, e))
  {
    hide Step;
    StreamAfter(c, e, replies);
  }

  /** As long as nothing takes the queue away, under any interleaving of acknowledgements, polls,
      failed receives and receives put off, what is taken followed by what is queued stays. */
  lemma {:induction false} ConservesBetweenAssignments(c: Conn, es: seq<Event>, replies: Replies)
    requires AllWellFormed(es) && Throughout(c, es, replies, LeavesQueue)
    ensures Run(c, es, replies).sending.Stream() == c.sending.Stream()
    decreases |es|
  {
    if es != [] {
      hide Step;
      ThroughoutUnfolds(c, es, replies, LeavesQueue);
      StreamAfter(c, es[0], replies);
      ConservesBetweenAssignments(Step(c, es[0], replies), es[1..], replies);
    }
  }

  function ArrivedOver(c: Conn, es: seq<Event>, replies: Replies): seq<Byte>
    requires AllWellFormed(es)
    decreases |es|
  {
    if es == [] then []
    else Arrived(c, es[0]) + ArrivedOver(Step(c, es[0], replies), es[1..], replies)
  }

  function DiscardedOver(c: Conn, es: seq<Event>, replies: Replies): nat
    requires AllWellFormed(es)
    decreases |es|
  {
    if es == [] then 0
    else Discarded(c, es[0]) + DiscardedOver(Step(c, es[0], replies), es[1..], replies)
  }

  lemma RunUnfolds(c: Conn, es: seq<Event>, replies: Replies)
    requires es != [] && AllWellFormed(es)
    ensures AllWellFormed(es[1..])
    ensures var next, rest := Step(c, es[0], replies), es[1..];
      && Run(c, es, replies) == Run(next, rest, replies)
      && ArrivedOver(c, es, replies) == Arrived(c, es[0]) + ArrivedOver(next, rest, replies)
      && DiscardedOver(c, es, replies) == Discarded(c, es[0]) + DiscardedOver(next, rest, replies)
  {
  }

  /** Over any run, bytes taken, queued and lost make up the bytes there were and arrived. */
  lemma {:induction false} Balance(c: Conn, es: seq<Event>, replies: Replies)
    requires AllWellFormed(es)
    ensures |Run(c, es, replies).sending.Stream()| + DiscardedOver(c, es, replies) ==
      |c.sending.Stream()| + |ArrivedOver(c, es, replies)|
    decreases |es|
  {
    if es != [] {
      hide Step, Arrived, Discarded, Sending.Stream;
      RunUnfolds(c, es, replies);
      StepBalance(c, es[0], replies);
      Balance(Step(c, es[0], replies), es[1..], replies);
    }
  }

  lemma {:induction false} LosslessRun(c: Conn, es: seq<Event>, replies: Replies)
    requires AllWellFormed(es) && DiscardedOver(c, es, replies) == 0
    ensures Run(c, es, replies).sending.Stream() == c.sending.Stream() + ArrivedOver(c, es, replies)
    decreases |es|
  {
    if es != [] {
      hide Step, Arrived, Discarded, Sending.Stream;
      var next := Step(c, es[0], replies);
      RunUnfolds(c, es, replies);
      StepBalance(c, es[0], replies);
      LosslessRun(next, es[1..], replies);
      Associate(c.sending.Stream(), Arrived(c, es[0]), ArrivedOver(next, es[1..], replies));
    }
  }

  lemma Associate(a: seq<Byte>, b: seq<Byte>, c: seq<Byte>)
    ensures a + b + c == a + (b + c)
  {
  }

  /** What a callback must find for no byte to be lost: a queue without bytes if it takes it away,
      and for new bytes an established connection, no error and buffers in the pool. */
  predicate KeepsBytes(c: Conn, e: Event) {
    c.open ==>
      match e
      case PeerClosed => Flatten(c.sending.queue) == []
      case Failed(data) => data == []
      case Received(data, supply) =>
        || (c.phase == Established && supply.NoHeap?)
        || (Flatten(c.sending.queue) == [] && (data == [] || (c.phase == Established && supply.Buffers?)))
      case Reset => Flatten(c.sending.queue) == []
      case Acked => true
      case Polled => true
  }

  lemma {:induction false} NothingDiscardedExactlyWhen(c: Conn, es: seq<Event>, replies: Replies)
    requires AllWellFormed(es)
    ensures DiscardedOver(c, es, replies) == 0 <==> Throughout(c, es, replies, KeepsBytes)
    decreases |es|
  {
    if es != [] {
      NothingDiscardedExactlyWhen(Step(c, es[0], replies), es[1..], replies);
      ThroughoutUnfolds(c, es, replies, KeepsBytes);
      assert Discarded(c, es[0]) == 0 <==> KeepsBytes(c, es[0]);
    }
  }

  /** The server echoes every byte that arrived, in order and once, exactly when every callback
      of the run found what it needs. */
  lemma EchoCompleteExactlyWhen(c: Conn, es: seq<Event>, replies: Replies)
    requires AllWellFormed(es)
    ensures Run(c, es, replies).sending.Stream() == c.sending.Stream() + ArrivedOver(c, es, replies) <==>
      Throughout(c, es, replies, KeepsBytes)
  {
    Balance(c, es, replies);
    NothingDiscardedExactlyWhen(c, es, replies);
    if DiscardedOver(c, es, replies) == 0 {
      LosslessRun(c, es, replies);
    }
  }

  /** One byte, a full window, a peer that closes: the byte is taken out of the queue and
      never reaches the TCP layer. */
  lemma EchoLost(b: Byte)
    ensures var c := Conn(Established, true, Sending([], [], 0));
      var es := [Received([b], Buffers([1])), PeerClosed];
      var replies := (t: nat) => Reply(0, OK);
      && AllWellFormed(es)
      && ArrivedOver(c, es, replies) == [b]
      && Run(c, es, replies).sending.Stream() == []
  {
    var c := Conn(Established, true, Sending([], [], 0));
    var replies := (t: nat) => Reply(0, OK);
    var e := Received([b], Buffers([1]));
    assert Sum([1]) == 1;
    assert WellFormed(e);
    assert |Split([b], [1])| == 1 && Split([b], [1])[0] == [b];
    var next := Step(c, e, replies);
    assert next.sending.queue == Split([b], [1]) && next.sending.accepted == [];
    var last := Step(next, PeerClosed, replies);
    assert [e, PeerClosed][1..] == [PeerClosed] && [PeerClosed][1..] == [];
    assert Run(c, [e, PeerClosed], replies) == Run(next, [PeerClosed], replies) == last;
    assert ArrivedOver(next, [PeerClosed], replies) == [];
  }

  /** Once the peer has closed, the server hands nothing more to the TCP layer: what was
      queued at that moment is gone, whatever happens later. */
  lemma {:induction false} NothingSentAfterPeerCloses(c: Conn, es: seq<Event>, replies: Replies)
    requires AllWellFormed(es)
    requires c.phase == Closing && c.sending.queue == []
    ensures Run(c, es, replies).sending.accepted == c.sending.accepted
    ensures Run(c, es, replies).sending.queue == []
    decreases |es|
  {
    if es != [] {
      NothingSentAfterPeerCloses(Step(c, es[0], replies), es[1..], replies);
    }
  }

  // ----- when a connection ends -----

  /** The event ends a connection, given whether the peer has closed before it. */
  predicate Ends(e: Event, peerClosed: bool) {
    match e
    case Reset => true
    case Polled => peerClosed
    case Received(_, supply) => !peerClosed && supply.NoBuffers?
    case _ => false
  }

  predicate EndsAt(es: seq<Event>, i: nat, peerClosed: bool)
    requires i < |es|
  {
    Ends(es[i], peerClosed || PeerClosed in es[..i])
  }

  predicate EndsWithin(es: seq<Event>, peerClosed: bool) {
    exists i: nat :: i < |es| && EndsAt(es, i, peerClosed)
  }

  lemma EndsWithinUnfolds(es: seq<Event>, peerClosed: bool)
    requires es != []
    ensures EndsWithin(es, peerClosed) <==>
      Ends(es[0], peerClosed) || EndsWithin(es[1..], peerClosed || es[0].PeerClosed?)
  {
    assert EndsAt(es, 0, peerClosed) <==> Ends(es[0], peerClosed);
    if EndsWithin(es, peerClosed) {
      var i: nat :| i < |es| && EndsAt(es, i, peerClosed);
      if i > 0 { EndsAtShifts(es, i - 1, peerClosed); }
    }
    if EndsWithin(es[1..], peerClosed || es[0].PeerClosed?) {
      var i: nat :| i < |es[1..]| && EndsAt(es[1..], i, peerClosed || es[0].PeerClosed?);
      EndsAtShifts(es, i, peerClosed);
    }
  }

  lemma EndsAtShifts(es: seq<Event>, i: nat, peerClosed: bool)
    requires i + 1 < |es|
    ensures EndsAt(es, i + 1, peerClosed) <==> EndsAt(es[1..], i, peerClosed || es[0].PeerClosed?)
  {
    assert es[..i + 1] == [es[0]] + es[1..][..i];
  }

  lemma {:induction false} EndedStays(c: Conn, es: seq<Event>, replies: Replies)
    requires AllWellFormed(es) && !c.open
    ensures Run(c, es, replies) == c
    decreases |es|
  {
    if es != [] {
      EndedStays(c, es[1..], replies);
    }
  }

  /** What every reachable connection satisfies: a closing one has nothing queued. */
  predicate Settled(c: Conn) { c.phase == Closing ==> c.sending.queue == [] }

  /** A run ends the connection exactly when it has a reset, a receive that finds the pool
      empty before the peer has closed, or a poll after that. */
  lemma {:induction false} EndsExactlyWhen(c: Conn, es: seq<Event>, replies: Replies)
    requires AllWellFormed(es) && c.open && Settled(c)
    ensures !Run(c, es, replies).open <==> EndsWithin(es, c.phase == Closing)
    decreases |es|
  {
    if es != [] {
      hide SendLoop, EndsWithin;
      var next := Step(c, es[0], replies);
      EndsWithinUnfolds(es, c.phase == Closing);
      if next.open {
        EndsExactlyWhen(next, es[1..], replies);
      } else {
        EndedStays(next, es[1..], replies);
      }
    }
  }

  /** A peer's closing is remembered: whatever comes between, the next poll finds the
      connection ended or ends it. */
  lemma PeerClosedThenPolledEnds(c: Conn, es: seq<Event>, replies: Replies)
    requires c.open && AllWellFormed(es)
    ensures AllWellFormed([PeerClosed] + es + [Polled])
    ensures !Run(c, [PeerClosed] + es + [Polled], replies).open
  {
    var all, rest := [PeerClosed] + es + [Polled], es + [Polled];
    assert all[0] == PeerClosed && all[1..] == rest;
    var next := Step(c, PeerClosed, replies);
    assert AllWellFormed(rest) && Run(c, all, replies) == Run(next, rest, replies);
    assert EndsAt(rest, |es|, true);
    EndsExactlyWhen(next, rest, replies);
  }

  // ----- when a queue can be sent at all -----

  lemma {:induction false} TooLongStaysQueued(c: Conn, es: seq<Event>, replies: Replies, largest: nat)
    requires AllWellFormed(es) && Throughout(c, es, replies, LeavesQueue)
    requires WindowsUpTo(replies, largest) && !AllFit(c.sending.queue, false, largest)
    ensures !AllFit(Run(c, es, replies).sending.queue, false, largest)
    decreases |es|
  {
    if es != [] {
      hide SendLoop, AllFit, WindowsUpTo;
      ThroughoutUnfolds(c, es, replies, LeavesQueue);
      TooLongStays(c.sending, replies, false, largest);
      TooLongStaysQueued(Step(c, es[0], replies), es[1..], replies, largest);
    }
  }

  /** Some run that leaves the queue to the send loop sends all of it. */
  ghost predicate CanDrain(c: Conn, largest: nat) {
    exists es: seq<Event>, replies: Replies ::
      && AllWellFormed(es) && Throughout(c, es, replies, LeavesQueue)
      && WindowsUpTo(replies, largest) && Run(c, es, replies).sending.queue == []
  }

  /** The queue can be sent, with windows up to the given size, exactly when no buffer is
      longer than that. */
  lemma DrainsEventuallyExactlyWhen(c: Conn, largest: nat)
    requires c.open
    ensures CanDrain(c, largest) <==> AllFit(c.sending.queue, false, largest)
  {
    if AllFit(c.sending.queue, false, largest) {
      var es, replies := [Acked], (t: nat) => Reply(largest, OK);
      FittingQueueDrains(c.sending, replies, false, largest);
      assert es[1..] == [];
      assert Run(c, es, replies) == Step(c, Acked, replies);
      assert AllWellFormed(es) && Throughout(c, es, replies, LeavesQueue) && WindowsUpTo(replies, largest);
    } else {
      forall es: seq<Event>, replies: Replies |
        AllWellFormed(es) && Throughout(c, es, replies, LeavesQueue) && WindowsUpTo(replies, largest)
        ensures Run(c, es, replies).sending.queue != []
      {
        TooLongStaysQueued(c, es, replies, largest);
      }
    }
  }

  /** The event resumes sending, and the first reply admits the head of the queue. */
  predicate Served(c: Conn, e: Event, replies: Replies) {
    c.open && (e.Acked? || e.Polled?) && HeadGoes(c.sending, replies, false)
  }

  function ServedOver(c: Conn, es: seq<Event>, replies: Replies): nat
    requires AllWellFormed(es)
    decreases |es|
  {
    if es == [] then 0
    else (if Served(c, es[0], replies) then 1 else 0) + ServedOver(Step(c, es[0], replies), es[1..], replies)
  }

  /** In every such run each event of that kind sends at least one buffer, so as many of them
      as there are buffers send everything. */
  lemma {:induction false} ServedEventsDrain(c: Conn, es: seq<Event>, replies: Replies)
    requires AllWellFormed(es) && Throughout(c, es, replies, LeavesQueue)
    ensures |Run(c, es, replies).sending.queue| + ServedOver(c, es, replies) <= |c.sending.queue|
    ensures ServedOver(c, es, replies) >= |c.sending.queue| ==> Run(c, es, replies).sending.queue == []
    decreases |es|
  {
    if es != [] {
      hide SendLoop, HeadGoes;
      ThroughoutUnfolds(c, es, replies, LeavesQueue);
      SendShortens(c.sending, replies, false);
      ServedEventsDrain(Step(c, es[0], replies), es[1..], replies);
    }
  }

  // ----- buffers -----

  /** Buffers taken from the pool, returned to it, and left without a pointer. */
  datatype Tally = Tally(taken: nat, freed: nat, forgotten: nat) {
    function Plus(t: Tally): Tally {
      Tally(taken + t.taken, freed + t.freed, forgotten + t.forgotten)
    }
  }

  /** The buffers the event offers to the send loop. */
  function Offered(c: Conn, e: Event): seq<seq<Byte>>
    requires WellFormed(e)
  {
    if Queues(c, e) then Split(e.data, e.supply.sizes)
    else if c.open && (e.Acked? || e.Polled?) then c.sending.queue
    else []
  }

  function Buffered(c: Conn, e: Event, replies: Replies): Tally
    requires WellFormed(e)
  {
    Tally(if Queues(c, e) then |e.supply.sizes| else 0,
          SentCount(c.sending.(queue := Offered(c, e)), replies, false),
          if Assigns(c, e) then |c.sending.queue| else 0)
  }

  function BufferedOver(c: Conn, es: seq<Event>, replies: Replies): Tally
    requires AllWellFormed(es)
    decreases |es|
  {
    if es == [] then Tally(0, 0, 0)
    else Buffered(c, es[0], replies).Plus(BufferedOver(Step(c, es[0], replies), es[1..], replies))
  }

  lemma BuffersAfter(c: Conn, e: Event, replies: Replies)
    requires WellFormed(e)
    ensures var t := Buffered(c, e, replies);
      |c.sending.queue| + t.taken == t.freed + |Step(c, e, replies).sending.queue| + t.forgotten
  {
    SentOrQueued(c.sending.(queue := Offered(c, e)), replies, false);
  }

  /** Over any run, every buffer there was or was allocated is freed, queued or forgotten. */
  lemma {:induction false} BufferBalance(c: Conn, es: seq<Event>, replies: Replies)
    requires AllWellFormed(es)
    ensures var t := BufferedOver(c, es, replies);
      |c.sending.queue| + t.taken == t.freed + |Run(c, es, replies).sending.queue| + t.forgotten
    decreases |es|
  {
    if es != [] {
      hide Step, Buffered;
      BuffersAfter(c, es[0], replies);
      BufferBalance(Step(c, es[0], replies), es[1..], replies);
    }
  }

  /** A queue that is taken away holds no buffer, with or without bytes. */
  predicate KeepsBuffers(c: Conn, e: Event) { Assigns(c, e) ==> c.sending.queue == [] }

  /** A run forgets no buffer exactly when every queue taken away was empty. */
  lemma {:induction false} NothingForgottenExactlyWhen(c: Conn, es: seq<Event>, replies: Replies)
    requires AllWellFormed(es)
    ensures BufferedOver(c, es, replies).forgotten == 0 <==> Throughout(c, es, replies, KeepsBuffers)
    decreases |es|
  {
    if es != [] {
      NothingForgottenExactlyWhen(Step(c, es[0], replies), es[1..], replies);
      ThroughoutUnfolds(c, es, replies, KeepsBuffers);
      assert Buffered(c, es[0], replies).forgotten == 0 <==> KeepsBuffers(c, es[0]);
    }
  }

  // ----- the callbacks on the heap -----

  /** The copying loop of `tcp_server_recv`. */
  method CopyOut(p: Pbuf?, ghost nodes: seq<Pbuf>) returns (data: seq<Byte>)
    requires Chain(p, nodes)
    ensures data == Flatten(Payloads(nodes))
  {
    var q := p;
    data := [];
    ghost var k := 0;
    assert nodes[0..] == nodes;
    while q != null
      invariant k <= |nodes| && q == if k < |nodes| then nodes[k] else null
      invariant data + Flatten(Payloads(nodes[k..])) == Flatten(Payloads(nodes))
      decreases |nodes| - k
    {
      PayloadsLeft(nodes, k);
      NextInChain(p, nodes, k);
      data := data + q.payload;
      q := q.next;
      k := k + 1;
    }
  }

  class Connection {
    const pcb: TcpPcb
    var phase: Phase
    var p: Pbuf?
    ghost var nodes: seq<Pbuf>      // the queued chain
    ghost var forgotten: seq<Pbuf>  // every buffer it lost its pointer to, in order

    /** Forgotten buffers stay out of the pool, with a count that nothing will ever take. */
    ghost predicate Valid()
      reads this, nodes, forgotten
    {
      Chain(p, nodes) && SoleOwner(nodes) && SoleOwner(forgotten) && Apart(forgotten, nodes)
    }

    ghost function View(): Conn
      reads this, pcb
    {
      Conn(phase, pcb.end == InUse, Sending(Payloads(nodes), pcb.accepted, pcb.now))
    }

    /** `tcp_server_accept` */
    constructor (pcb: TcpPcb)
      ensures this.pcb == pcb && Valid() && forgotten == []
      ensures View() == Conn(Established, pcb.end == InUse, Sending([], pcb.accepted, pcb.now))
    {
      this.pcb, phase, p, nodes, forgotten := pcb, Established, null, [], [];
    }

    /** `tcp_server_send`: sent buffers go back to the pool, once each; the others stay a chain
        that this connection owns, wherever the loop stops. */
    method Send()
      requires Valid()
      modifies `p, `nodes, pcb`now, pcb`accepted, nodes`ref, nodes`live
      ensures Valid() && |nodes| <= |old(nodes)|
      ensures Progress(p, old(nodes), |old(nodes)| - |nodes|) && nodes == old(nodes)[|old(nodes)| - |nodes|..]
      ensures View().sending == SendLoop(old(View()).sending, pcb.replies, false)
    {
      hide Chain, SoleOwner, Progress, Payloads, SendLoop;
      ghost var k;
      p, k := SendChain(pcb, p, nodes, false);
      HeadOf(p, nodes, k);
      nodes := nodes[k..];
    }

    /** `tcp_server_sent` */
    method Sent() returns (ret: Err)
      requires Valid() && pcb.end == InUse
      modifies `p, `nodes, pcb`now, pcb`accepted, nodes`ref, nodes`live
      ensures Valid() && View() == Step(old(View()), Acked, pcb.replies) && ret == OK
    {
      hide Chain, SoleOwner, Progress, Payloads, SendLoop, Apart;
      EmptyTogether(p, nodes);
      if p != null {
        Send();
      }
      ret := OK;
    }

    /** `tcp_server_poll` with a connection */
    method Poll()
      requires Valid() && pcb.end == InUse
      modifies `p, `nodes, pcb`now, pcb`accepted, pcb`end, nodes`ref, nodes`live
      ensures Valid() && View() == Step(old(View()), Polled, pcb.replies)
      ensures pcb.end == Closed <==> old(phase) == Closing && old(nodes) == []
      ensures pcb.end == Closed || pcb.end == InUse
    {
      hide Chain, SoleOwner, Progress, Payloads, SendLoop, Apart;
      EmptyTogether(p, nodes);
      if p != null {
        Send();
      } else if phase == Closing {
        pcb.Close();
      }
    }

    /** The queue pointer gone: the chain is forgotten. */
    method Forget()
      requires Valid()
      modifies `p, `nodes, `forgotten
      ensures Valid() && nodes == [] && Payloads(nodes) == [] && forgotten == old(forgotten + nodes)
    {
      forgotten := forgotten + nodes;
      p, nodes := null, [];
    }

    /** The received bytes queued in buffers from the pool and sent as far as they go; with no
        buffers in the pool the connection is closed. */
    method Echo(data: seq<Byte>, supply: Supply)
      requires Valid() && pcb.end == InUse && phase == Established
      requires !supply.NoHeap? && Holds(supply, data)
      modifies `p, `nodes, `forgotten, pcb`now, pcb`accepted, pcb`end
      ensures Valid() && forall i :: 0 <= i < |nodes| ==> fresh(nodes[i])
      ensures forgotten == old(forgotten + nodes)
      ensures View() == Step(old(View()), Received(data, supply), pcb.replies)
    {
      hide Chain, SoleOwner, Progress, Payloads, SendLoop, Split;
      Forget();
      if supply.Buffers? {
        p, nodes := AllocAndTake(data, supply.sizes);
        Send();
      } else {
        pcb.Close();
      }
    }

    /** What becomes of received data before its chain is freed. */
    method TakeIn(q: Pbuf, supply: Supply, ghost incoming: seq<Pbuf>)
      requires Valid() && pcb.end == InUse && (phase == Established ==> !supply.NoHeap?)
      requires Chain(q, incoming) && Apart(incoming, nodes) && Apart(incoming, forgotten)
      requires Holds(supply, Flatten(Payloads(incoming)))
      modifies `p, `nodes, `forgotten, pcb`now, pcb`accepted, pcb`end
      ensures Valid() && Apart(incoming, nodes) && Apart(incoming, forgotten)
      ensures forgotten == old(forgotten + nodes)
      ensures View() == Step(old(View()), Received(Flatten(Payloads(incoming)), supply), pcb.replies)
    {
      hide Chain, SoleOwner, Payloads, SendLoop, Flatten, Split, Holds;
      if phase == Established {
        var data := CopyOut(q, incoming);
        Echo(data, supply);
      } else {
        Forget();
      }
    }

    /** `tcp_server_recv`: the chain that was queued, if any, is forgotten. The received chain
        is freed, unless there is no memory for the copy: then nothing changes. */
    method Recv(q: Pbuf?, err: Err, supply: Supply, ghost incoming: seq<Pbuf>) returns (ret: Err)
      requires Valid() && pcb.end == InUse
      requires Chain(q, incoming) && Counted(incoming)
      requires Apart(incoming, nodes) && Apart(incoming, forgotten)
      requires Holds(supply, Flatten(Payloads(incoming)))
      modifies `phase, `p, `nodes, `forgotten, pcb`now, pcb`accepted, pcb`end, incoming`ref, incoming`live
      ensures phase == if q == null then Closing else old(phase)
      ensures var e := RecvEvent(q, err, supply, incoming);
        && Valid() && View() == Step(old(View()), e, pcb.replies)
        && forgotten == old(forgotten) + (if Assigns(old(View()), e) then old(nodes) else [])
        && ret == (if e.Failed? then err else if Defers(old(View()), e) then MEM else OK)
        && (if Defers(old(View()), e) then CountsAre(incoming, old(Refs(incoming)))
            else q != null ==> Released(incoming, old(Refs(incoming))))
    {
      hide Chain, SoleOwner, Walked, Payloads, SendLoop, Flatten, LeadingOnes, Split, Holds, Released;
      if q == null {
        phase := Closing;
        Forget();
        return OK;
      } else if err == OK && phase == Established && supply.NoHeap? {
        return MEM;
      }
      ret := err;
      hide Counted, Refs;
      if err == OK {
        TakeIn(q, supply, incoming);
      }
      FreeIncoming(q, incoming);
    }

    /** The received chain freed, nothing of the connection's own touched. */
    method FreeIncoming(q: Pbuf, ghost incoming: seq<Pbuf>)
      requires Valid() && Chain(q, incoming) && Counted(incoming)
      requires Apart(incoming, nodes) && Apart(incoming, forgotten)
      modifies incoming`ref, incoming`live
      ensures Valid() && Released(incoming, old(Refs(incoming)))
    {
      hide Chain, SoleOwner, Counted, Walked, LeadingOnes, Refs;
      var _ := PbufFree(q, incoming);
    }
  }

  /** The TCP layer drops a connection and calls `tcp_server_error`, which frees the state
      and with it the only pointer to the queued chain. */
  method ErrorCallback(es: Connection?, tpcb: TcpPcb)
    requires es != null ==> es.pcb == tpcb && es.Valid() && tpcb.end == InUse
    modifies tpcb`end, es
    ensures tpcb.end == Dropped
    ensures es != null ==>
      && es.Valid() && es.View() == Step(old(es.View()), Reset, tpcb.replies)
      && es.forgotten == old(es.forgotten + es.nodes)
  {
    tpcb.Drop();
    if es != null {
      es.Forget();
    }
  }

  /** `tcp_server_poll`: a connection without state is aborted. */
  method PollCallback(es: Connection?, tpcb: TcpPcb) returns (ret: Err)
    requires es != null ==> es.pcb == tpcb && es.Valid() && tpcb.end == InUse
    modifies tpcb, es, if es == null then [] else es.nodes
    ensures es == null ==> tpcb.end == Aborted && ret == ABRT
    ensures es != null ==> es.Valid() && es.View() == Step(old(es.View()), Polled, tpcb.replies) && ret == OK
    ensures es != null ==> es.forgotten == old(es.forgotten)
  {
    if es != null {
      es.Poll();
      ret := OK;
    } else {
      tpcb.Abort();
      ret := ABRT;
    }
  }
}
