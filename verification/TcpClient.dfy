/** The client: its callbacks as methods of a connection, and what every run of callbacks does
    to its message. */
module TcpClient {
  import opened FixedPoint
  import opened Pbuf
  import opened TcpSend

  type Replies = nat -> Reply

  function Start(message: seq<Byte>, sizes: seq<nat>, now: nat, replies: Replies): Conn
    requires Sum(sizes) == |message|
  {
    Conn(Established, true, SendLoop(Sending(Split(message, sizes), [], now), replies, true))
  }

  function Step(c: Conn, e: Event, replies: Replies): Conn {
    if !c.open then c
    else match e
      case PeerClosed =>
        if c.sending.queue == [] then c.(phase := Closing, open := false)
        else c.(phase := Closing, sending := SendLoop(c.sending, replies, true))
      case Failed(_) => c
      case Received(_, _) => c
      case Acked => if c.sending.queue == [] then c else c.(sending := SendLoop(c.sending, replies, true))
      case Polled =>
        if c.sending.queue != [] then c.(sending := SendLoop(c.sending, replies, true))
        else if c.phase == Closing then c.(open := false)
        else c
      case Reset => c.(open := false)
  }

  function Run(c: Conn, es: seq<Event>, replies: Replies): Conn
    decreases |es|
  {
    if es == [] then c else Run(Step(c, es[0], replies), es[1..], replies)
  }

  /** What a client keeps: the stream, and no closing of its own before the queue is empty. */
  predicate Delivering(c: Conn, message: seq<Byte>, reset: bool) {
    && c.sending.Stream() == message
    && (!c.open && !reset ==> c.sending.queue == [] && c.phase == Closing)
  }

  lemma {:induction false} KeepsDelivering(
      c: Conn, message: seq<Byte>, reset: bool, es: seq<Event>, replies: Replies)
    requires Delivering(c, message, reset)
    ensures Delivering(Run(c, es, replies), message, reset || Reset in es)
    decreases |es|
  {
    if es != [] {
      SendConserves(c.sending, replies, true);
      assert es == [es[0]] + es[1..];
      KeepsDelivering(Step(c, es[0], replies), message, reset || es[0].Reset?, es[1..], replies);
    }
  }

  /** The client, unlike the server, drops nothing in any run: what the TCP layer has taken is
      a beginning of the message, the rest is queued, and unless the connection is reset it is
      closed only after the peer has closed and all of the message has been taken. */
  lemma Delivers(message: seq<Byte>, sizes: seq<nat>, now: nat, es: seq<Event>, replies: Replies)
    requires Sum(sizes) == |message|
    ensures var c := Run(Start(message, sizes, now, replies), es, replies);
      && c.sending.accepted + Flatten(c.sending.queue) == message
      && (!c.open && Reset !in es ==> c.sending.accepted == message && c.phase == Closing)
  {
    SendConserves(Sending(Split(message, sizes), [], now), replies, true);
    KeepsDelivering(Start(message, sizes, now, replies), message, false, es, replies);
  }

  /** A reset of the connection meets a queue with buffers in it. */
  predicate ResetMeetsQueue(c: Conn, es: seq<Event>, replies: Replies)
    decreases |es|
  {
    es != [] && (
      || (c.open && es[0].Reset? && c.sending.queue != [])
      || ResetMeetsQueue(Step(c, es[0], replies), es[1..], replies))
  }

  lemma {:induction false} ClosedStays(c: Conn, es: seq<Event>, replies: Replies)
    requires !c.open
    ensures Run(c, es, replies) == c && !ResetMeetsQueue(c, es, replies)
    decreases |es|
  {
    if es != [] {
      ClosedStays(Step(c, es[0], replies), es[1..], replies);
    }
  }

  /** Buffers are left behind, out of the pool and with no callback to come, exactly when that
      happens: nothing is registered that would free them. */
  lemma {:induction false} LeavesBuffersExactlyWhen(c: Conn, es: seq<Event>, replies: Replies)
    requires c.open
    ensures var d := Run(c, es, replies);
      !d.open && d.sending.queue != [] <==> ResetMeetsQueue(c, es, replies)
    decreases |es|
  {
    if es != [] {
      var next := Step(c, es[0], replies);
      if next.open {
        LeavesBuffersExactlyWhen(next, es[1..], replies);
      } else {
        ClosedStays(next, es[1..], replies);
      }
    }
  }

  // ----- when a connection ends -----

  /** The event ends the connection it meets, given whether the peer has closed by then: a
      reset always; the closing, or a poll after it, once nothing is queued. */
  predicate Ends(c: Conn, e: Event, peerClosed: bool) {
    e.Reset? || ((e.PeerClosed? || (e.Polled? && peerClosed)) && c.sending.queue == [])
  }

  predicate EndsAt(c: Conn, es: seq<Event>, i: nat, peerClosed: bool, replies: Replies)
    requires i < |es|
  {
    Ends(Run(c, es[..i], replies), es[i], peerClosed || PeerClosed in es[..i])
  }

  predicate EndsWithin(c: Conn, es: seq<Event>, peerClosed: bool, replies: Replies) {
    exists i: nat :: i < |es| && EndsAt(c, es, i, peerClosed, replies)
  }

  lemma EndsAtShifts(c: Conn, es: seq<Event>, i: nat, peerClosed: bool, replies: Replies)
    requires i + 1 < |es|
    ensures EndsAt(c, es, i + 1, peerClosed, replies) <==>
      EndsAt(Step(c, es[0], replies), es[1..], i, peerClosed || es[0].PeerClosed?, replies)
  {
    hide Step, Ends;
    assert es[..i + 1] == [es[0]] + es[1..][..i] && es[..i + 1][1..] == es[1..][..i];
  }

  lemma EndsWithinUnfolds(c: Conn, es: seq<Event>, peerClosed: bool, replies: Replies)
    requires es != []
    ensures EndsWithin(c, es, peerClosed, replies) <==>
      || Ends(c, es[0], peerClosed)
      || EndsWithin(Step(c, es[0], replies), es[1..], peerClosed || es[0].PeerClosed?, replies)
  {
    hide Step, Ends;
    var next, closed := Step(c, es[0], replies), peerClosed || es[0].PeerClosed?;
    assert es[..0] == [];
    assert EndsAt(c, es, 0, peerClosed, replies) <==> Ends(c, es[0], peerClosed);
    if EndsWithin(c, es, peerClosed, replies) {
      var i: nat :| i < |es| && EndsAt(c, es, i, peerClosed, replies);
      if i > 0 { EndsAtShifts(c, es, i - 1, peerClosed, replies); }
    }
    if EndsWithin(next, es[1..], closed, replies) {
      var i: nat :| i < |es[1..]| && EndsAt(next, es[1..], i, closed, replies);
      EndsAtShifts(c, es, i, peerClosed, replies);
    }
  }

  /** A run ends the connection exactly when it has a reset, a closing of the peer with nothing
      queued, or a poll after the closing with nothing queued. */
  lemma {:induction false} EndsExactlyWhen(c: Conn, es: seq<Event>, replies: Replies)
    requires c.open
    ensures !Run(c, es, replies).open <==> EndsWithin(c, es, c.phase == Closing, replies)
    decreases |es|
  {
    if es != [] {
      hide SendLoop, EndsWithin;
      var next := Step(c, es[0], replies);
      EndsWithinUnfolds(c, es, c.phase == Closing, replies);
      if next.open {
        EndsExactlyWhen(next, es[1..], replies);
      } else {
        ClosedStays(next, es[1..], replies);
      }
    }
  }

  // ----- when a message can be delivered at all -----

  lemma {:induction false} TooLongStaysQueued(c: Conn, es: seq<Event>, replies: Replies, largest: nat)
    requires WindowsUpTo(replies, largest) && !AllFit(c.sending.queue, true, largest)
    ensures !AllFit(Run(c, es, replies).sending.queue, true, largest)
    decreases |es|
  {
    if es != [] {
      hide SendLoop, AllFit, WindowsUpTo;
      TooLongStays(c.sending, replies, true, largest);
      TooLongStaysQueued(Step(c, es[0], replies), es[1..], replies, largest);
    }
  }

  /** Some run against windows up to the given size empties the queue. */
  ghost predicate CanDrain(c: Conn, largest: nat) {
    exists es: seq<Event>, replies: Replies ::
      WindowsUpTo(replies, largest) && Run(c, es, replies).sending.queue == []
  }

  /** The queue can be sent, with windows up to the given size, exactly when every buffer in
      it is shorter than that: a buffer as long as the largest window never leaves. */
  lemma DrainsEventuallyExactlyWhen(c: Conn, largest: nat)
    requires c.open
    ensures CanDrain(c, largest) <==> forall i :: 0 <= i < |c.sending.queue| ==> |c.sending.queue[i]| < largest
  {
    assert AllFit(c.sending.queue, true, largest) <==>
      forall i :: 0 <= i < |c.sending.queue| ==> |c.sending.queue[i]| < largest;
    if AllFit(c.sending.queue, true, largest) {
      var es, replies := [Acked], (t: nat) => Reply(largest, OK);
      FittingQueueDrains(c.sending, replies, true, largest);
      assert es[1..] == [];
      assert Run(c, es, replies) == Step(c, Acked, replies);
      assert WindowsUpTo(replies, largest);
    } else {
      forall es: seq<Event>, replies: Replies | WindowsUpTo(replies, largest)
        ensures Run(c, es, replies).sending.queue != []
      {
        TooLongStaysQueued(c, es, replies, largest);
      }
    }
  }

  /** Some run from the connected callback on hands over the whole queue. */
  ghost predicate CanDeliver(message: seq<Byte>, sizes: seq<nat>, now: nat, largest: nat)
    requires Sum(sizes) == |message|
  {
    exists es: seq<Event>, replies: Replies :: WindowsUpTo(replies, largest) &&
      Run(Start(message, sizes, now, replies), es, replies).sending.queue == []
  }

  /** A message can be delivered exactly when all its buffers are shorter than the largest
      window. */
  lemma DeliverableExactlyWhen(message: seq<Byte>, sizes: seq<nat>, now: nat, largest: nat)
    requires Sum(sizes) == |message|
    ensures CanDeliver(message, sizes, now, largest) <==> forall i :: 0 <= i < |sizes| ==> sizes[i] < largest
  {
    var first := Sending(Split(message, sizes), [], now);
    PiecesFit(message, sizes, largest);
    hide SendLoop, Run, Split, AllFit, Flatten, Sum;
    if AllFit(first.queue, true, largest) {
      var replies := (t: nat) => Reply(largest, OK);
      FittingQueueDrains(first, replies, true, largest);
      NoEvents(Start(message, sizes, now, replies), replies);
      assert WindowsUpTo(replies, largest);
    } else {
      forall es: seq<Event>, replies: Replies | WindowsUpTo(replies, largest)
        ensures Run(Start(message, sizes, now, replies), es, replies).sending.queue != []
      {
        TooLongStays(first, replies, true, largest);
        TooLongStaysQueued(Start(message, sizes, now, replies), es, replies, largest);
        NoneTooLong(largest);
      }
    }
  }

  lemma NoneTooLong(largest: nat)
    ensures AllFit([], true, largest)
  {
  }

  lemma PiecesFit(message: seq<Byte>, sizes: seq<nat>, largest: nat)
    requires Sum(sizes) == |message|
    ensures AllFit(Split(message, sizes), true, largest) <==> forall i :: 0 <= i < |sizes| ==> sizes[i] < largest
  {
    assert forall i :: 0 <= i < |sizes| ==> |Split(message, sizes)[i]| == sizes[i];
  }

  lemma NoEvents(c: Conn, replies: Replies)
    ensures Run(c, [], replies) == c
  {
  }

  /** The event resumes sending, and the first reply admits the head of the queue. */
  predicate Served(c: Conn, e: Event, replies: Replies) {
    c.open && (e.PeerClosed? || e.Acked? || e.Polled?) && HeadGoes(c.sending, replies, true)
  }

  function ServedOver(c: Conn, es: seq<Event>, replies: Replies): nat
    decreases |es|
  {
    if es == [] then 0
    else (if Served(c, es[0], replies) then 1 else 0) + ServedOver(Step(c, es[0], replies), es[1..], replies)
  }

  /** In every run each event of that kind sends at least one buffer, so as many of them as
      there are buffers send everything. */
  lemma {:induction false} ServedEventsDrain(c: Conn, es: seq<Event>, replies: Replies)
    ensures |Run(c, es, replies).sending.queue| + ServedOver(c, es, replies) <= |c.sending.queue|
    ensures ServedOver(c, es, replies) >= |c.sending.queue| ==> Run(c, es, replies).sending.queue == []
    decreases |es|
  {
    if es != [] {
      hide SendLoop, HeadGoes;
      SendShortens(c.sending, replies, true);
      ServedEventsDrain(Step(c, es[0], replies), es[1..], replies);
    }
  }

  /** A head buffer that no window exceeds holds everything up, and the client never closes. */
  lemma {:induction false} Stalls(c: Conn, es: seq<Event>, replies: Replies)
    requires c.open && c.sending.queue != []
    requires forall t: nat :: replies(t).window <= |c.sending.queue[0]|
    ensures var d := Run(c, es, replies);
      && d.sending.queue == c.sending.queue && d.sending.accepted == c.sending.accepted
      && (Reset !in es ==> d.open)
    decreases |es|
  {
    if es != [] {
      var next := Step(c, es[0], replies);
      if next.open {
        Stalls(next, es[1..], replies);
      } else {
        ClosedStays(next, es[1..], replies);
      }
    }
  }

  // ----- the callbacks on the heap -----

  class Connection {
    const pcb: TcpPcb
    var phase: Phase
    var p: Pbuf?
    var messages: Uint32  // the source's global message_count
    ghost var nodes: seq<Pbuf>

    ghost predicate Valid()
      reads this, nodes
    {
      Chain(p, nodes) && SoleOwner(nodes)
    }

    ghost function View(): Conn
      reads this, pcb
    {
      Conn(phase, pcb.end == InUse, Sending(Payloads(nodes), pcb.accepted, pcb.now))
    }

    /** The connected callback once everything is allocated. */
    constructor (pcb: TcpPcb, message: seq<Byte>, sizes: seq<nat>, messages: Uint32)
      requires pcb.accepted == [] && pcb.end == InUse && Sum(sizes) == |message|
      modifies pcb`now, pcb`accepted
      ensures this.pcb == pcb && Valid() && this.messages == messages
      ensures View() == Start(message, sizes, old(pcb.now), pcb.replies)
    {
      hide Chain, SoleOwner, Progress, Payloads, SendLoop, Split;
      this.pcb, phase, p, nodes, this.messages := pcb, Established, null, [], messages;
      new;
      p, nodes := AllocAndTake(message, sizes);
      Send();
    }

    /** `tcpclient_send` */
    method Send()
      requires Valid()
      modifies `p, `nodes, pcb`now, pcb`accepted, nodes`ref, nodes`live
      ensures Valid() && |nodes| <= |old(nodes)|
      ensures Progress(p, old(nodes), |old(nodes)| - |nodes|) && nodes == old(nodes)[|old(nodes)| - |nodes|..]
      ensures View().sending == SendLoop(old(View()).sending, pcb.replies, true)
    {
      hide Chain, SoleOwner, Progress, Payloads, SendLoop;
      ghost var k;
      p, k := SendChain(pcb, p, nodes, true);
      HeadOf(p, nodes, k);
      nodes := nodes[k..];
    }

    /** `tcpclient_sent` */
    method Sent()
      requires Valid() && pcb.end == InUse
      modifies `p, `nodes, pcb`now, pcb`accepted, nodes`ref, nodes`live
      ensures Valid() && View() == Step(old(View()), Acked, pcb.replies)
    {
      hide Chain, SoleOwner, Progress, Payloads, SendLoop;
      EmptyTogether(p, nodes);
      if p != null {
        Send();
      }
    }

    /** `tcpclient_poll` with a connection */
    method Poll()
      requires Valid() && pcb.end == InUse
      modifies `p, `nodes, pcb`now, pcb`accepted, pcb`end, nodes`ref, nodes`live
      ensures Valid() && View() == Step(old(View()), Polled, pcb.replies)
      ensures pcb.end == Closed <==> old(phase) == Closing && old(nodes) == []
      ensures pcb.end == Closed || pcb.end == InUse
    {
      hide Chain, SoleOwner, Progress, Payloads, SendLoop;
      EmptyTogether(p, nodes);
      if p != null {
        Send();
      } else if phase == Closing {
        pcb.Close();
      }
    }

    /** `tcpclient_recv`: the peer's closing starts a last round of sending; received data is
        counted, if it comes before that, and freed. */
    method Recv(q: Pbuf?, err: Err, ghost incoming: seq<Pbuf>)
      requires Valid() && pcb.end == InUse
      requires Chain(q, incoming) && Counted(incoming) && Apart(incoming, nodes)
      modifies `phase, `p, `nodes, `messages, pcb`now, pcb`accepted, pcb`end
      modifies nodes`ref, nodes`live, incoming`ref, incoming`live
      ensures Valid() && View() == Step(old(View()), RecvEvent(q, err, NoHeap, incoming), pcb.replies)
      ensures phase == if q == null then Closing else old(phase)
      ensures pcb.end == if q == null && old(nodes) == [] then Closed else InUse
      ensures q != null ==> Released(incoming, old(Refs(incoming)))
      ensures messages ==
        if q != null && err == OK && old(phase) == Established then (old(messages) + 1) % 0x1_0000_0000
        else old(messages)
    {
      hide Chain, SoleOwner, Counted, Progress, Walked, Payloads, SendLoop, Flatten, Refs, LeadingOnes;
      EmptyTogether(p, nodes);
      if q == null {
        phase := Closing;
        if p == null {
          pcb.Close();
        } else {
          Send();
        }
      } else {
        if err == OK && phase == Established {
          messages := (messages + 1) % 0x1_0000_0000;
        }
        var _ := PbufFree(q, incoming);
      }
    }
  }

  /** The TCP layer drops a connection. The client has registered nothing for that: its state
      and its chain stay as they are. */
  method ResetByPeer(es: Connection)
    requires es.Valid() && es.pcb.end == InUse
    modifies es.pcb`end
    ensures es.Valid() && es.View() == Step(old(es.View()), Reset, es.pcb.replies)
  {
    es.pcb.Drop();
  }

  /** `tcpclient_connected`: without memory for the state or buffers for the message the
      connection is closed. */
  method Connected(tpcb: TcpPcb, err: Err, message: seq<Byte>, supply: Supply, messages: Uint32)
    returns (es: Connection?)
    requires tpcb.accepted == [] && tpcb.end == InUse && Holds(supply, message)
    modifies tpcb`now, tpcb`accepted, tpcb`end
    ensures err != OK ==> es == null && tpcb.end == InUse
    ensures err == OK && !supply.Buffers? ==> es == null && tpcb.end == Closed
    ensures es == null ==> tpcb.accepted == [] && tpcb.now == old(tpcb.now)
    ensures err == OK && supply.Buffers? ==>
      && es != null && es.pcb == tpcb && es.Valid()
      && es.View() == Start(message, supply.sizes, old(tpcb.now), tpcb.replies)
  {
    es := null;
    if err == OK {
      if supply.Buffers? {
        es := new Connection(tpcb, message, supply.sizes, messages);
      } else {
        tpcb.Close();
      }
    }
  }

  /** `tcpclient_poll`: a connection without state is aborted. */
  method PollCallback(es: Connection?, tpcb: TcpPcb)
    requires es != null ==> es.pcb == tpcb && es.Valid() && tpcb.end == InUse
    modifies tpcb, es, if es == null then [] else es.nodes
    ensures es == null ==> tpcb.end == Aborted
    ensures es != null ==> es.Valid() && es.View() == Step(old(es.View()), Polled, tpcb.replies)
    ensures es != null ==> es.messages == old(es.messages)
  {
    if es != null {
      es.Poll();
    } else {
      tpcb.Abort();
    }
  }
}
