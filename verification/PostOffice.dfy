/**
 The post office of network/post.cc over the network of machine/network.cc: messages are
 packed into fixed-size packets, the wire may lose a packet but keeps the order, one packet
 at a time is buffered, and a worker thread moves it to the mailbox it names.
 */
module PostOffices {
  import opened Bytes
  import opened Semaphores
  import D = DeviceDrivers

  const HEADER_SIZE := 12
  const MAX_WIRE_SIZE := 64
  const MAX_PACKET_SIZE := MAX_WIRE_SIZE - HEADER_SIZE
  const MAX_MAIL_SIZE := MAX_PACKET_SIZE - HEADER_SIZE

  /** PacketHeader and MailHeader have the same shape: two addresses and the length of what follows. */
  datatype Header = Header(to: uint32, from: uint32, length: uint32)

  datatype Mail = Mail(packet: Header, header: Header, data: seq<byte>)

  function ZeroPacket(): seq<byte> { seq(MAX_WIRE_SIZE, _ => 0 as byte) }

  type Packet = p: seq<byte> | |p| == MAX_WIRE_SIZE witness ZeroPacket()

  // ---- packing ----

  function HeaderBytes(h: Header): (bs: seq<byte>)
    ensures |bs| == HEADER_SIZE
  {
    EncodeInts([h.to, h.from, h.length])
  }

  function HeaderOf(bs: seq<byte>): Header
    requires |bs| >= HEADER_SIZE
  {
    var ns := DecodeInts(bs[..HEADER_SIZE]);
    Header(ns[0], ns[1], ns[2])
  }

  lemma HeaderRoundTrip(h: Header, rest: seq<byte>)
    ensures HeaderOf(HeaderBytes(h) + rest) == h
  {
    hide EncodeInts, DecodeInts;
    DecodeEncodeInts([h.to, h.from, h.length]);
    assert (HeaderBytes(h) + rest)[..HEADER_SIZE] == HeaderBytes(h);
  }

  /** On the wire: the address sent to, the address sent from, the length. */
  lemma HeaderLayout(h: Header)
    ensures HeaderBytes(h) == IntBytes(h.to) + IntBytes(h.from) + IntBytes(h.length)
  {
    hide IntBytes;
  }

  /** What Send's assertions and its filling in of the packet header leave true of a message. */
  predicate CanSend(m: Mail) {
    && m.header.length <= MAX_MAIL_SIZE
    && |m.data| == m.header.length
    && m.packet.length == m.header.length + HEADER_SIZE
  }

  /** A message as sent: the bytes of padding are whatever the buffer held, and the wire may lose it. */
  datatype Outgoing = Outgoing(mail: Mail, padding: seq<byte>, lost: bool)

  predicate Sendable(o: Outgoing) {
    CanSend(o.mail) && |o.padding| == MAX_PACKET_SIZE - o.mail.packet.length
  }

  /** PostOfficeOutput::Send and NetworkOutput::Send: header, mail header, data, padding. */
  function Pack(o: Outgoing): Packet
    requires Sendable(o)
  {
    HeaderBytes(o.mail.packet) + (HeaderBytes(o.mail.header) + o.mail.data + o.padding)
  }

  /** NetworkInput::CallBack: the packet's header, and as many bytes of data as it announces. */
  function PayloadOf(p: Packet): seq<byte> {
    p[HEADER_SIZE..HEADER_SIZE + Min(HeaderOf(p).length, MAX_PACKET_SIZE)]
  }

  /** PostalDelivery: what the payload says, together with the packet header. */
  function MailOf(packet: Header, payload: seq<byte>): Mail {
    if |payload| < HEADER_SIZE then Mail(packet, Header(0, 0, 0), [])
    else
      var header := HeaderOf(payload);
      Mail(packet, header, payload[HEADER_SIZE..HEADER_SIZE + Min(header.length, |payload| - HEADER_SIZE)])
  }

  function MailIn(p: Packet): Mail { MailOf(HeaderOf(p), PayloadOf(p)) }

  /** Header and data arrive as they were sent, whatever the padding. */
  lemma PackRoundTrip(o: Outgoing)
    requires Sendable(o)
    ensures MailIn(Pack(o)) == o.mail
    ensures HeaderOf(Pack(o)) == o.mail.packet && |PayloadOf(Pack(o))| == o.mail.packet.length
  {
    hide HeaderBytes, HeaderOf;
    var m := o.mail;
    var payload := HeaderBytes(m.header) + m.data;
    HeaderRoundTrip(m.packet, payload + o.padding);
    assert Pack(o) == HeaderBytes(m.packet) + (payload + o.padding);
    assert PayloadOf(Pack(o)) == payload;
    HeaderRoundTrip(m.header, m.data);
    assert payload[HEADER_SIZE..] == m.data;
  }

  // ---- the office ----

  datatype Worker =
    | Waiting                                       // in P on messageAvailable
    | Took                                          // past that P
    | Holding(packet: Header, payload: seq<byte>)   // has called Receive

  const WORKER: Tid := 0

  /** sent, delivered and taken record history. */
  datatype Office = Office(
    numBoxes: nat,
    wire: seq<Packet>,
    inHdr: Header,
    inbox: seq<byte>,
    messageAvailable: Sem,
    worker: Worker,
    boxes: seq<seq<Mail>>,
    aborted: bool,
    sent: seq<Outgoing>,
    delivered: seq<Mail>,
    taken: seq<seq<Mail>>)

  datatype Action =
    | Send(message: Outgoing)
    | Poll              // the network's receive interrupt
    | WorkerP           // one pass of P on messageAvailable
    | Receive
    | Deliver
    | Get(box: nat)     // a thread takes the first message of a mailbox

  predicate Enabled(o: Office, a: Action) {
    && !o.aborted
    && match a
       case Send(message) => Sendable(message)
       case Poll => true
       case WorkerP => o.worker.Waiting? && WORKER !in o.messageAvailable.queue
       case Receive => o.worker.Took?
       case Deliver => o.worker.Holding?
       case Get(box) => box < |o.boxes| && box < |o.taken| && o.boxes[box] != []
  }

  /** The two assertions of PostalDelivery. */
  predicate Legal(o: Office, m: Mail) { m.header.to < o.numBoxes && m.header.length <= MAX_MAIL_SIZE }

  function Next(o: Office, a: Action): Office
    requires Enabled(o, a)
  {
    match a
    case Send(message) =>
      o.(sent := o.sent + [message], wire := if message.lost then o.wire else o.wire + [Pack(message)])
    case Poll =>
      if o.inHdr.length != 0 || o.wire == [] then o
      else o.(wire := o.wire[1..], inHdr := HeaderOf(o.wire[0]), inbox := PayloadOf(o.wire[0]),
              messageAvailable := SemV(o.messageAvailable))
    case WorkerP =>
      var o' := o.(messageAvailable := SemP(o.messageAvailable, WORKER));
      if o.messageAvailable.value == 0 then o' else o'.(worker := Took)
    case Receive => o.(worker := Holding(o.inHdr, o.inbox), inHdr := o.inHdr.(length := 0))
    case Deliver =>
      var m := MailOf(o.worker.packet, o.worker.payload);
      var to := m.header.to;
      if !Legal(o, m) || to >= |o.boxes| then o.(aborted := true)
      else o.(worker := Waiting, boxes := o.boxes[to := o.boxes[to] + [m]], delivered := o.delivered + [m])
    case Get(box) =>
      o.(boxes := o.boxes[box := o.boxes[box][1..]], taken := o.taken[box := o.taken[box] + [o.boxes[box][0]]])
  }

  predicate Init(o: Office) {
    && o.wire == [] && o.inHdr.length == 0 && o.messageAvailable == NewSem(0) && o.worker == Waiting && !o.aborted
    && |o.boxes| == |o.taken| == o.numBoxes
    && (forall b :: 0 <= b < o.numBoxes ==> o.boxes[b] == [] && o.taken[b] == [])
    && o.sent == [] && o.delivered == []
  }

  // ---- the specification: what was sent, what survived, and what went to one box ----

  function Survivors(sent: seq<Outgoing>): seq<Mail> {
    if sent == [] then []
    else
      var last := sent[|sent| - 1];
      Survivors(sent[..|sent| - 1]) + (if last.lost then [] else [last.mail])
  }

  function ToBox(ms: seq<Mail>, box: nat): seq<Mail> {
    if ms == [] then []
    else
      var last := ms[|ms| - 1];
      ToBox(ms[..|ms| - 1], box) + (if last.header.to == box then [last] else [])
  }

  lemma {:induction false} ToBoxConcat(a: seq<Mail>, b: seq<Mail>, box: nat)
    ensures ToBox(a + b, box) == ToBox(a, box) + ToBox(b, box)
  {
    if b == [] {
      assert a + b == a;
    } else {
      ToBoxConcat(a, b[..|b| - 1], box);
      assert (a + b)[..|a + b| - 1] == a + b[..|b| - 1];
    }
  }

  /** Where the survivors stand among all messages sent. */
  function Positions(sent: seq<Outgoing>): seq<nat> {
    if sent == [] then []
    else
      var n := |sent| - 1;
      Positions(sent[..n]) + (if sent[n].lost then [] else [n])
  }

  /** The survivors are the messages not lost, in the order sent. */
  lemma {:induction false} SurvivorsInOrder(sent: seq<Outgoing>)
    ensures |Positions(sent)| == |Survivors(sent)|
    ensures forall i :: 0 <= i < |Positions(sent)| ==>
              Positions(sent)[i] < |sent| && !sent[Positions(sent)[i]].lost && Survivors(sent)[i] == sent[Positions(sent)[i]].mail
    ensures forall i, j :: 0 <= i < j < |Positions(sent)| ==> Positions(sent)[i] < Positions(sent)[j]
  {
    if sent != [] {
      SurvivorsInOrder(sent[..|sent| - 1]);
    }
  }

  // ---- the invariant ----

  predicate Full(o: Office) { o.inHdr.length != 0 }

  /** Inbox-full equals messageAvailable's value plus wakeups taken but not yet received. */
  predicate Wakeups(o: Office) {
    && (if Full(o) then 1 else 0) == o.messageAvailable.value + (if o.worker.Took? then 1 else 0)
    && (o.messageAvailable.queue == [] || (o.messageAvailable.queue == [WORKER] && o.worker.Waiting? && !Full(o)))
  }

  function OnWire(wire: seq<Packet>): seq<Mail> { seq(|wire|, i requires 0 <= i < |wire| => MailIn(wire[i])) }

  function InInbox(o: Office): seq<Mail> { if Full(o) then [MailOf(o.inHdr, o.inbox)] else [] }

  function InHand(o: Office): seq<Mail> { if o.worker.Holding? then [MailOf(o.worker.packet, o.worker.payload)] else [] }

  function InTransit(o: Office): seq<Mail> { InHand(o) + InInbox(o) + OnWire(o.wire) }

  /** Nothing that survives the wire is lost, repeated, reordered or changed on the way to delivery. */
  ghost predicate Pipeline(o: Office) {
    && Survivors(o.sent) == o.delivered + InTransit(o)
    && (forall p :: p in o.wire ==> HeaderOf(p).length >= HEADER_SIZE)
    && (forall m :: m in InTransit(o) ==> CanSend(m))
  }

  ghost predicate Boxes(o: Office) {
    && |o.boxes| == |o.taken| == o.numBoxes
    && (forall b :: 0 <= b < o.numBoxes ==> o.taken[b] + o.boxes[b] == ToBox(o.delivered, b))
  }

  ghost predicate Inv(o: Office) { Wakeups(o) && Pipeline(o) && Boxes(o) }

  lemma InitInv(o: Office)
    requires Init(o)
    ensures Inv(o)
  {
  }

  lemma WakeupsKept(o: Office, a: Action)
    requires Inv(o) && Enabled(o, a)
    ensures Wakeups(Next(o, a))
  {
    hide HeaderOf, PayloadOf, MailOf, OnWire, Survivors, ToBox, Pack, Sendable, Boxes, InTransit;
    match a
    case WorkerP => assert o.messageAvailable.queue == [];
    case Poll => if o.wire != [] { assert o.wire[0] in o.wire; }
    case _ =>
  }

  lemma SendKeepsPipeline(o: Office, message: Outgoing)
    requires Pipeline(o) && Enabled(o, Send(message))
    ensures Pipeline(Next(o, Send(message)))
  {
    hide HeaderOf, PayloadOf, MailOf, Pack;
    var o' := Next(o, Send(message));
    assert o'.sent[..|o'.sent| - 1] == o.sent;
    if !message.lost {
      PackRoundTrip(message);
      assert OnWire(o'.wire) == OnWire(o.wire) + [message.mail];
      assert InTransit(o') == InTransit(o) + [message.mail];
    }
  }

  lemma PollKeepsPipeline(o: Office)
    requires Pipeline(o) && Enabled(o, Poll)
    ensures Pipeline(Next(o, Poll))
  {
    hide HeaderOf, PayloadOf, MailOf, Pack, Survivors;
    if !Full(o) && o.wire != [] {
      var o' := Next(o, Poll);
      assert o.wire[0] in o.wire;
      assert OnWire(o.wire) == [MailIn(o.wire[0])] + OnWire(o.wire[1..]);
      assert InTransit(o') == InTransit(o);
    }
  }

  lemma ReceiveKeepsPipeline(o: Office)
    requires Pipeline(o) && Wakeups(o) && Enabled(o, Receive)
    ensures Pipeline(Next(o, Receive))
  {
    hide HeaderOf, PayloadOf, MailOf, Pack, Survivors, OnWire;
    assert InTransit(Next(o, Receive)) == InTransit(o);
  }

  lemma DeliverKeeps(o: Office)
    requires Pipeline(o) && Boxes(o) && Enabled(o, Deliver)
    ensures Pipeline(Next(o, Deliver)) && Boxes(Next(o, Deliver))
  {
    hide HeaderOf, PayloadOf, MailOf, Pack, Survivors, OnWire;
    var o' := Next(o, Deliver);
    var m := MailOf(o.worker.packet, o.worker.payload);
    if !o'.aborted {
      assert InTransit(o) == [m] + InTransit(o');
      assert o'.delivered[..|o'.delivered| - 1] == o.delivered;
    } else {
      assert InTransit(o) == InTransit(o');
    }
  }

  lemma GetKeepsBoxes(o: Office, box: nat)
    requires Boxes(o) && Enabled(o, Get(box))
    ensures Boxes(Next(o, Get(box)))
  {
    hide ToBox;
    assert o.boxes[box] == [o.boxes[box][0]] + o.boxes[box][1..];
  }

  lemma StepKeepsInv(o: Office, a: Action)
    requires Inv(o) && Enabled(o, a)
    ensures Inv(Next(o, a))
  {
    hide HeaderOf, PayloadOf, MailOf, Pack, Survivors, OnWire, ToBox, Sendable;
    WakeupsKept(o, a);
    match a
    case Send(message) => SendKeepsPipeline(o, message);
    case Poll => PollKeepsPipeline(o);
    case WorkerP => assert InTransit(Next(o, a)) == InTransit(o);
    case Receive => ReceiveKeepsPipeline(o);
    case Deliver => DeliverKeeps(o);
    case Get(box) =>
      GetKeepsBoxes(o, box);
      assert InTransit(Next(o, a)) == InTransit(o);
  }

  // ---- what holds in every run ----

  ghost predicate Run(states: seq<Office>, actions: seq<Action>) {
    && |states| == |actions| + 1
    && Init(states[0])
    && forall i :: 0 <= i < |actions| ==> StepOk(states[i], actions[i], states[i + 1])
  }

  ghost predicate StepOk(o: Office, a: Action, o': Office) { Enabled(o, a) && o' == Next(o, a) }

  lemma {:induction false} RunInv(states: seq<Office>, actions: seq<Action>, n: nat)
    requires Run(states, actions) && n < |states|
    ensures Inv(states[n])
  {
    hide Inv, Next, Enabled;
    if n == 0 {
      InitInv(states[0]);
    } else {
      RunInv(states, actions, n - 1);
      assert StepOk(states[n - 1], actions[n - 1], states[n - 1 + 1]);
      StepKeepsInv(states[n - 1], actions[n - 1]);
    }
  }

  /** What leaves a mailbox is, message for message, the front of what was sent to it and not lost. */
  lemma TakenIsPrefixOfSurvivors(states: seq<Office>, actions: seq<Action>, n: nat, box: nat)
    requires Run(states, actions) && n < |states| && box < states[n].numBoxes
    ensures box < |states[n].taken|
    ensures states[n].taken[box] <= ToBox(Survivors(states[n].sent), box)
  {
    hide StepOk, ToBox, Survivors, InTransit;
    RunInv(states, actions, n);
    var o := states[n];
    ToBoxConcat(o.delivered, InTransit(o), box);
    assert o.taken[box] + o.boxes[box] + ToBox(InTransit(o), box) == ToBox(Survivors(o.sent), box);
  }

  /** Receive always finds a packet, and polling never replaces one that has not been received. */
  lemma InboxNeverOverwritten(o: Office)
    requires Inv(o)
    ensures o.worker.Took? ==> Full(o)
    ensures Full(o) && Enabled(o, Poll) ==> Next(o, Poll) == o
  {
  }

  /** The worker stops the machine exactly on a message for a mailbox that does not exist. */
  lemma AbortsOnlyForMissingBox(o: Office)
    requires Inv(o) && Enabled(o, Deliver)
    ensures Next(o, Deliver).aborted <==> MailOf(o.worker.packet, o.worker.payload).header.to >= o.numBoxes
  {
    hide HeaderOf, PayloadOf, Pack, Survivors, OnWire, ToBox, MailOf;
    assert InTransit(o)[0] == MailOf(o.worker.packet, o.worker.payload);
    assert CanSend(InTransit(o)[0]);
  }

  // ---- sending, with the network as a driven device ----

  /** NetworkOutput::Send: the packet goes on the wire, or is lost. */
  function Transmit(wire: seq<Packet>, o: Outgoing): (seq<Packet>, bool) {
    if o.lost || !Sendable(o) then (wire, false) else (wire + [Pack(o)], true)
  }

  function Messages(issued: seq<D.Issued<Outgoing>>): seq<Outgoing> {
    seq(|issued|, i requires 0 <= i < |issued| => issued[i].request)
  }

  lemma {:induction false} ReplayCarriesSurvivors(issued: seq<D.Issued<Outgoing>>, n: nat)
    requires n <= |issued| && forall i :: 0 <= i < n ==> Sendable(issued[i].request)
    ensures OnWire(D.Replay(Transmit, [], issued, n)) == Survivors(Messages(issued[..n]))
  {
    hide HeaderOf, PayloadOf, MailOf, Pack;
    if n > 0 {
      ReplayCarriesSurvivors(issued, n - 1);
      var before := D.Replay(Transmit, [], issued, n - 1);
      var message := issued[n - 1].request;
      PackRoundTrip(message);
      assert Messages(issued[..n])[..n - 1] == Messages(issued[..n - 1]);
      if !message.lost {
        assert OnWire(before + [Pack(message)]) == OnWire(before) + [message.mail];
      }
    }
  }

  type Sender = D.Driver<seq<Packet>, Outgoing, bool>

  ghost predicate OnlySendable(d: Sender) {
    && (forall i :: 0 <= i < |d.issued| ==> Sendable(d.issued[i].request))
    && (forall t: Tid :: D.Doing(d, t).Asking? ==> Sendable(D.Doing(d, t).request))
  }

  lemma StepKeepsSendable(d: Sender, step: D.Step<Outgoing>, d': Sender)
    requires OnlySendable(d) && D.StepOk(Transmit, d, step, d')
    requires step.action.Start? ==> Sendable(step.action.request)
    ensures OnlySendable(d')
  {
    hide Sendable, Transmit;
    forall u: Tid | D.Doing(d', u).Asking?
      ensures Sendable(D.Doing(d', u).request)
    {
      if u != step.thread || step.action.Interrupt? {
        D.OthersUnmoved(Transmit, d, step.thread, step.action, u);
      }
    }
  }

  lemma {:induction false} RunIsSendable(states: seq<Sender>, steps: seq<D.Step<Outgoing>>, n: nat)
    requires D.Run(Transmit, [], states, steps) && n < |states|
    requires forall i :: 0 <= i < |steps| && steps[i].action.Start? ==> Sendable(steps[i].action.request)
    ensures OnlySendable(states[n])
  {
    hide Sendable, D.StepOk;
    if n > 0 {
      RunIsSendable(states, steps, n - 1);
      assert D.StepOk(Transmit, states[n - 1], steps[n - 1], states[n - 1 + 1]);
      StepKeepsSendable(states[n - 1], steps[n - 1], states[n]);
    }
  }

  /**
   Any number of threads in Send, in every run: the wire carries the surviving messages in the
   order the calls issued them, each under the lock; the messages are those its assertions let by.
   */
  lemma WireCarriesSurvivors(states: seq<Sender>, steps: seq<D.Step<Outgoing>>, n: nat)
    requires D.Run(Transmit, [], states, steps) && n < |states|
    requires forall i :: 0 <= i < |steps| && steps[i].action.Start? ==> Sendable(steps[i].action.request)
    ensures OnWire(states[n].device) == Survivors(Messages(states[n].issued))
  {
    hide Sendable, D.StepOk, OnWire, Survivors, Messages;
    var issued := states[n].issued;
    RunIsSendable(states, steps, n);
    D.RunInv(Transmit, [], states, steps, n);
    ReplayCarriesSurvivors(issued, |issued|);
    assert issued[..|issued|] == issued;
  }
}
