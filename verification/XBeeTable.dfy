/**
 The table of outstanding XBee requests (`src/XBeeCommunicator.cpp`): frame ids
 are given out by `registerRequest`, requests are sent by the dispatcher and
 slots are freed by the handler of incoming frames.  The three run in threads of
 their own; each is one step here.
 */
module XBeeTable {
  import opened XBeeFrames
  import Stream = XBeeStream

  const MAX_CONCURRENT_COMMS := 255

  datatype Callback = NoCallback | Callback(tag: nat)

  datatype Order =
    | Command(command: nat, data: Data)
    | Transmit(address: Bytes, packet: Bytes)

  type Sendable = o: Order | o.Transmit? ==> |o.address| == 8 && |o.packet| >= PACKET_SIZE
    witness Command(0, NoData)

  datatype Request = Request(callback: Callback, order: Sendable, id: nat)

  datatype Kept = NoFrame | Kept(frame: Bytes)

  datatype CommStruct = CommStruct(
    callback: Callback, origFrame: Kept, replyFrame: Kept, id: nat, finished: bool, waiting: nat)

  /** The body of the frame a request is sent as. */
  function BodyOf(order: Sendable, id: byte): (b: Bytes)
    ensures 4 <= |b| <= 62 && b[1] == id
  {
    match order
    case Command(command, data) => CommandBody(command, data, id)
    case Transmit(address, packet) => TransmitBody(address, packet[..PACKET_SIZE], id)
  }

  /** The fields of an order fit the fields of its frame. */
  predicate Fits(o: Order) {
    o.Command? ==> o.command < 0x1_0000 && (o.data.Word? ==> o.data.value < 0x1_0000_0000)
  }

  /** What of an order goes into its frame: of a packet the first 48 bytes. */
  predicate SameOrder(o: Sendable, o': Sendable) {
    match (o, o')
    case (Command(command, data), Command(command', data')) => command == command' && data == data'
    case (Transmit(address, packet), Transmit(address', packet')) =>
      address == address' && packet[..48] == packet'[..48]
    case _ => false
  }

  /** Different orders, and different ids, give different frames. */
  lemma {:induction false} FrameTellsOrder(o: Sendable, id: byte, o': Sendable, id': byte)
    requires Fits(o) && Fits(o') && Framed(BodyOf(o, id)) == Framed(BodyOf(o', id'))
    ensures id == id' && SameOrder(o, o')
  {
    match o {
      case Command(command, data) => CommandReads(command, data, id);
      case Transmit(address, packet) => TransmitReads(address, packet[..PACKET_SIZE], id);
    }
    match o' {
      case Command(command, data) => CommandReads(command, data, id');
      case Transmit(address, packet) => TransmitReads(address, packet[..PACKET_SIZE], id');
    }
  }

  // ----- the steps on values -----

  /** The communicator's state, and what has been registered and sent so far. */
  datatype Table = Table(
    bits: seq<bool>, comms: seq<CommStruct>, queue: seq<Request>, registered: seq<Request>, sent: seq<Request>)

  predicate Sized(t: Table) {
    && |t.bits| == |t.comms| == MAX_CONCURRENT_COMMS
    && forall k :: 0 <= k < |t.queue| ==> t.queue[k].id <= MAX_CONCURRENT_COMMS
  }

  const EMPTY := CommStruct(NoCallback, NoFrame, NoFrame, 0, false, 0)

  function Initial(): Table {
    Table(seq(MAX_CONCURRENT_COMMS, i => false), seq(MAX_CONCURRENT_COMMS, i => EMPTY), [], [], [])
  }

  function FirstFree(bits: seq<bool>): (i: nat)
    ensures i <= |bits| && (i < |bits| ==> !bits[i]) && forall k :: 0 <= k < i ==> bits[k]
  {
    if bits == [] || !bits[0] then 0 else 1 + FirstFree(bits[1..])
  }

  /** The id a request gets: the first free slot's, or 0 when there is none. */
  function IdFor(bits: seq<bool>): nat {
    if FirstFree(bits) == |bits| then 0 else FirstFree(bits) + 1
  }

  function Register(t: Table, r: Request): Table
    requires Sized(t)
  {
    var id := IdFor(t.bits);
    var given := r.(id := id);
    var t' := t.(queue := [given] + t.queue, registered := t.registered + [given]);
    if id == 0 then t'
    else t'.(bits := t.bits[id - 1 := true], comms := t.comms[id - 1 := t.comms[id - 1].(waiting := 0)])
  }

  function Dispatch(t: Table): Table
    requires Sized(t)
  {
    if t.queue == [] then t
    else
      var r := t.queue[|t.queue| - 1];
      var t' := t.(queue := t.queue[..|t.queue| - 1]);
      if r.id == 0 then t'
      else
        var frame := Framed(BodyOf(r.order, r.id));
        var c := t.comms[r.id - 1].(callback := r.callback, id := r.id, origFrame := Kept(frame));
        t'.(comms := t.comms[r.id - 1 := c], sent := t.sent + [r])
  }

  /** What the callback and the default handler answer to a frame. */
  datatype Answer = Answer(own: int, default: int)

  /** The verdict on a frame: the callback's, or the default one where the
      callback is missing or declines. */
  function Verdict(c: CommStruct, a: Answer): int {
    if c.callback != NoCallback && a.own != 0 then a.own else a.default
  }

  predicate InFlight(t: Table, i: nat)
    requires i < |t.comms|
  {
    t.comms[i].origFrame.Kept?
  }

  predicate Queued(t: Table, id: nat) {
    exists k :: 0 <= k < |t.queue| && t.queue[k].id == id
  }

  /** A slot whose request is out keeps the frame, which carries the slot's id. */
  predicate Carries(c: CommStruct, id: nat) {
    c.origFrame.Kept? && |c.origFrame.frame| > 4 && c.origFrame.frame[4] == id == c.id
  }

  /** What holds in every state: a slot is allocated while its request is queued or
      in flight, never both, and no two requests share an id. */
  ghost predicate Inv(t: Table) {
    && Sized(t)
    && (forall i :: 0 <= i < MAX_CONCURRENT_COMMS ==> (t.bits[i] <==> InFlight(t, i) || Queued(t, i + 1)))
    && (forall i :: 0 <= i < MAX_CONCURRENT_COMMS && InFlight(t, i) ==> !Queued(t, i + 1) && Carries(t.comms[i], i + 1))
    && (forall i :: 0 <= i < MAX_CONCURRENT_COMMS ==> t.comms[i].waiting == 0)
    && (forall j, k :: 0 <= j < k < |t.queue| ==> t.queue[j].id != 0 ==> t.queue[j].id != t.queue[k].id)
  }

  /** Freeing the slot with this id. */
  function Freed(t: Table, id: nat): Table
    requires Sized(t) && 1 <= id <= MAX_CONCURRENT_COMMS
  {
    t.(bits := t.bits[id - 1 := false],
       comms := t.comms[id - 1 := t.comms[id - 1].(origFrame := NoFrame, replyFrame := NoFrame)])
  }

  /** The byte of a frame that is taken as its id, whatever kind of frame it is. */
  function IdOf(frame: Bytes): byte
    requires |frame| > 4
  {
    frame[4]
  }

  /** The slot after its frame has been handled. */
  function Handled(c: CommStruct, frame: Bytes, a: Answer): CommStruct {
    c.(replyFrame := Kept(frame), finished := c.finished || Verdict(c, a) == 1)
  }

  function Reply(t: Table, frame: Bytes, a: Answer): Table
    requires Inv(t) && |frame| > 4
  {
    var id := IdOf(frame);
    if id == 0 then t
    else
      assert InFlight(t, id - 1) ==> Carries(t.comms[id - 1], id);
      var c := t.comms[id - 1];
      var t' := t.(comms := t.comms[id - 1 := Handled(c, frame, a)]);
      if Verdict(c, a) == 1 && c.waiting == 0 && c.id != 0 && c.origFrame.Kept? then Freed(t', IdOf(c.origFrame.frame))
      else t'
  }

  // ----- every reachable state -----

  datatype Event =
    | Registers(request: Request)
    | Dispatches
    | Replies(frame: Bytes, answer: Answer)

  /** A request does not ask for an id of 1 to 8, and a frame has an id. */
  predicate IsEvent(e: Event) {
    && (e.Registers? ==> e.request.id == 0 || e.request.id >= 9)
    && (e.Replies? ==> |e.frame| > 4)
  }

  function Step(t: Table, e: Event): Table
    requires Inv(t) && IsEvent(e)
  {
    match e
    case Registers(r) => Register(t, r)
    case Dispatches => Dispatch(t)
    case Replies(frame, a) => Reply(t, frame, a)
  }

  lemma InitialHolds()
    ensures Inv(Initial())
  {
  }

  lemma QueuedPush(t: Table, r: Request, id: nat)
    ensures Queued(t.(queue := [r] + t.queue), id) <==> r.id == id || Queued(t, id)
  {
    var q := [r] + t.queue;
    assert q[0] == r;
    assert forall k :: 0 <= k < |t.queue| ==> q[k + 1] == t.queue[k];
  }

  lemma QueuedPop(t: Table, id: nat)
    requires t.queue != []
    ensures Queued(t, id) <==>
            t.queue[|t.queue| - 1].id == id || Queued(t.(queue := t.queue[..|t.queue| - 1]), id)
  {
    var q := t.queue[..|t.queue| - 1];
    assert forall k :: 0 <= k < |q| ==> q[k] == t.queue[k];
  }

  lemma RegisterKeeps(t: Table, r: Request)
    requires Inv(t)
    ensures Inv(Register(t, r))
  {
    var t' := Register(t, r);
    var given := r.(id := IdFor(t.bits));
    assert t'.queue == [given] + t.queue;
    forall id ensures Queued(t', id) <==> given.id == id || Queued(t, id) {
      QueuedPush(t, given, id);
      assert t'.queue == t.(queue := [given] + t.queue).queue;
    }
    assert given.id != 0 ==> !Queued(t, given.id);
    forall j, k | 0 <= j < k < |t'.queue| && t'.queue[j].id != 0 ensures t'.queue[j].id != t'.queue[k].id {
      assert t'.queue[k] == t.queue[k - 1];
      if j > 0 {
        assert t'.queue[j] == t.queue[j - 1];
      }
    }
  }

  lemma DispatchKeeps(t: Table)
    requires Inv(t)
    ensures Inv(Dispatch(t))
  {
    if t.queue != [] {
      var t' := Dispatch(t);
      var r := t.queue[|t.queue| - 1];
      var q := t.queue[..|t.queue| - 1];
      forall id ensures Queued(t, id) <==> r.id == id || Queued(t', id) {
        QueuedPop(t, id);
        assert t'.queue == q;
      }
      if r.id != 0 {
        assert Queued(t, r.id);
        assert !Queued(t', r.id);
        assert Framed(BodyOf(r.order, r.id))[4] == BodyOf(r.order, r.id)[1];
      }
    }
  }

  lemma ReplyKeeps(t: Table, frame: Bytes, a: Answer)
    requires Inv(t) && |frame| > 4
    ensures Inv(Reply(t, frame, a))
  {
    var t' := Reply(t, frame, a);
    assert forall id :: Queued(t', id) <==> Queued(t, id);
  }

  lemma StepKeeps(t: Table, e: Event)
    requires Inv(t) && IsEvent(e)
    ensures Inv(Step(t, e))
  {
    match e
    case Registers(r) => RegisterKeeps(t, r);
    case Dispatches => DispatchKeeps(t);
    case Replies(frame, a) => ReplyKeeps(t, frame, a);
  }

  /** The state after the events of a run. */
  function Run(events: seq<Event>): (t: Table)
    requires forall k :: 0 <= k < |events| ==> IsEvent(events[k])
    ensures Inv(t)
    decreases |events|
  {
    InitialHolds();
    if events == [] then Initial()
    else
      var t := Run(events[..|events| - 1]);
      StepKeeps(t, events[|events| - 1]);
      Step(t, events[|events| - 1])
  }

  // ----- what that means -----

  predicate Allocated(t: Table, id: nat)
    requires Sized(t) && 1 <= id <= MAX_CONCURRENT_COMMS
  {
    t.bits[id - 1]
  }

  predicate Out(t: Table, id: nat)
    requires Sized(t) && 1 <= id <= MAX_CONCURRENT_COMMS
  {
    InFlight(t, id - 1)
  }

  function AllocatedIds(t: Table): set<nat>
    requires Sized(t)
  {
    set id | 1 <= id <= MAX_CONCURRENT_COMMS && Allocated(t, id)
  }

  function QueuedIds(t: Table): set<nat>
    requires Sized(t)
  {
    set id | 1 <= id <= MAX_CONCURRENT_COMMS && Queued(t, id)
  }

  function OutIds(t: Table): set<nat>
    requires Sized(t)
  {
    set id | 1 <= id <= MAX_CONCURRENT_COMMS && Out(t, id)
  }

  /** In every reachable state the allocated ids are those of the queued and those
      of the sent requests, and no id is both. */
  lemma {:induction false} IdsAreAccountedFor(events: seq<Event>)
    requires forall k :: 0 <= k < |events| ==> IsEvent(events[k])
    ensures AllocatedIds(Run(events)) == QueuedIds(Run(events)) + OutIds(Run(events))
    ensures QueuedIds(Run(events)) !! OutIds(Run(events))
  {
    var t := Run(events);
    forall id | 1 <= id <= MAX_CONCURRENT_COMMS
      ensures (Allocated(t, id) <==> Queued(t, id) || Out(t, id)) && !(Queued(t, id) && Out(t, id))
    {
      var i := id - 1;
      assert t.bits[i] <==> InFlight(t, i) || Queued(t, i + 1);
    }
  }

  /** Two requests that are queued or in flight never have the same id. */
  lemma {:induction false} OutstandingIdsDiffer(events: seq<Event>, j: nat, k: nat, i: nat)
    requires forall m :: 0 <= m < |events| ==> IsEvent(events[m])
    requires j < k < |Run(events).queue| && i < MAX_CONCURRENT_COMMS
    ensures var t := Run(events);
            && (t.queue[j].id != 0 ==> t.queue[j].id != t.queue[k].id)
            && (InFlight(t, i) ==> t.queue[k].id != i + 1 && t.comms[i].id == i + 1)
  {
    var t := Run(events);
    if InFlight(t, i) {
      assert !Queued(t, i + 1);
    }
  }

  /** A request gets id 0 exactly when all 255 slots are allocated; otherwise its id is
      the least whose slot is not, and nothing queued or in flight has it. */
  lemma {:induction false} IdIsFree(t: Table)
    requires Inv(t)
    ensures |t.bits| == 255 && (IdFor(t.bits) == 0 <==> forall i :: 0 <= i < 255 ==> t.bits[i])
    ensures var id := IdFor(t.bits);
            id != 0 ==>
              && id <= 255 && !t.bits[id - 1] && (forall i :: 0 <= i < id - 1 ==> t.bits[i])
              && !Queued(t, id) && !InFlight(t, id - 1)
  {
  }

  /** An incoming frame frees the slot of the id it carries, when its request is in
      flight and the verdict is 1, and no other.  The verdict is the callback's, or the
      default one where there is no callback or it answers 0. */
  lemma {:induction false} ReplyFreesItsOwn(t: Table, frame: Bytes, a: Answer, i: nat)
    requires Inv(t) && |frame| > 4 && i < 255
    ensures var t', c := Reply(t, frame, a), t.comms[i];
            var verdict := if c.callback == NoCallback || a.own == 0 then a.default else a.own;
            && (t'.bits[i] <==> t.bits[i] && !(frame[4] == i + 1 && c.origFrame.Kept? && verdict == 1))
            && t'.queue == t.queue && t'.sent == t.sent && t'.registered == t.registered
  {
    assert InFlight(t, i) ==> Carries(t.comms[i], i + 1);
  }

  /** Of the slots' records it changes that one only: the frame is filed in it and a
      verdict of 1 marks it finished, and when the slot is freed both its frames go. */
  lemma {:induction false} ReplyIsFiled(t: Table, frame: Bytes, a: Answer, i: nat)
    requires Inv(t) && |frame| > 4 && i < 255
    ensures var c, c' := t.comms[i], Reply(t, frame, a).comms[i];
            var verdict := if c.callback == NoCallback || a.own == 0 then a.default else a.own;
            if frame[4] != i + 1 then c' == c
            else
              && c'.callback == c.callback && c'.id == c.id && c'.waiting == c.waiting
              && c'.finished == (c.finished || verdict == 1)
              && c'.replyFrame == (if c.origFrame.Kept? && verdict == 1 then NoFrame else Kept(frame))
              && c'.origFrame == (if verdict == 1 then NoFrame else c.origFrame)
  {
    assert InFlight(t, i) ==> Carries(t.comms[i], i + 1);
  }

  // ----- the order of sending -----

  function WithId(rs: seq<Request>): seq<Request> {
    if rs == [] then []
    else WithId(rs[..|rs| - 1]) + (if rs[|rs| - 1].id != 0 then [rs[|rs| - 1]] else [])
  }

  /** The queue from the end it is served at; what has no id is passed over. */
  function ToSend(queue: seq<Request>): seq<Request> {
    if queue == [] then [] else ToSend(queue[1..]) + (if queue[0].id != 0 then [queue[0]] else [])
  }

  lemma {:induction false} ToSendServed(queue: seq<Request>)
    requires queue != []
    ensures var r := queue[|queue| - 1];
            ToSend(queue) == (if r.id != 0 then [r] else []) + ToSend(queue[..|queue| - 1])
  {
    if |queue| > 1 {
      assert queue[1..][..|queue| - 2] == queue[..|queue| - 1][1..];
      ToSendServed(queue[1..]);
    }
  }

  predicate HaveIds(rs: seq<Request>) {
    forall k :: 0 <= k < |rs| ==> 1 <= rs[k].id <= MAX_CONCURRENT_COMMS
  }

  predicate InOrder(t: Table) {
    && t.sent + ToSend(t.queue) == WithId(t.registered)
    && HaveIds(t.sent)
  }

  lemma RegisterKeepsOrder(t: Table, r: Request)
    requires Sized(t) && InOrder(t)
    ensures InOrder(Register(t, r))
  {
    var t' := Register(t, r);
    var given := r.(id := IdFor(t.bits));
    assert t'.queue[1..] == t.queue && t'.registered[..|t'.registered| - 1] == t.registered;
    assert t.sent + (ToSend(t.queue) + (if given.id != 0 then [given] else [])) ==
           t.sent + ToSend(t.queue) + (if given.id != 0 then [given] else []);
  }

  lemma DispatchKeepsOrder(t: Table)
    requires Sized(t) && InOrder(t)
    ensures InOrder(Dispatch(t))
  {
    if t.queue != [] {
      ToSendServed(t.queue);
      var r := t.queue[|t.queue| - 1];
      var rest := ToSend(t.queue[..|t.queue| - 1]);
      assert r.id != 0 ==> t.sent + ([r] + rest) == t.sent + [r] + rest;
      assert [] + rest == rest;
    }
  }

  lemma StepKeepsOrder(t: Table, e: Event)
    requires Inv(t) && IsEvent(e) && InOrder(t)
    ensures InOrder(Step(t, e))
  {
    match e
    case Registers(r) => RegisterKeepsOrder(t, r);
    case Dispatches => DispatchKeepsOrder(t);
    case Replies(frame, a) =>
  }

  /** In every reachable state: what has been sent, and what is queued with an id,
      are together the requests registered with an id, each once and in order. */
  lemma {:induction false} SentInOrder(events: seq<Event>)
    requires forall k :: 0 <= k < |events| ==> IsEvent(events[k])
    ensures InOrder(Run(events))
    decreases |events|
  {
    if events != [] {
      var before := events[..|events| - 1];
      SentInOrder(before);
      StepKeepsOrder(Run(before), events[|events| - 1]);
    }
  }

  // ----- what a slot in flight holds -----

  /** The last request with that id. */
  predicate IsLast(rs: seq<Request>, k: nat, id: nat) {
    k < |rs| && rs[k].id == id && forall j :: k < j < |rs| ==> rs[j].id != id
  }

  /** The slot was filled for that request. */
  predicate FilledFor(c: CommStruct, r: Request, id: byte) {
    c.callback == r.callback && c.id == id && c.origFrame == Kept(Framed(BodyOf(r.order, id)))
  }

  /** Every slot in flight was filled for the last request sent with its id. */
  ghost predicate Remembers(t: Table)
    requires |t.comms| == 255
  {
    forall i :: 0 <= i < 255 && InFlight(t, i) ==>
      exists k: nat :: IsLast(t.sent, k, i + 1) && FilledFor(t.comms[i], t.sent[k], i + 1)
  }

  lemma StillLast(rs: seq<Request>, k: nat, id: nat, r: Request)
    requires IsLast(rs, k, id) && r.id != id
    ensures IsLast(rs + [r], k, id) && (rs + [r])[k] == rs[k]
  {
  }

  lemma DispatchRemembers(t: Table)
    requires Inv(t) && Remembers(t)
    ensures Remembers(Dispatch(t))
  {
    var t' := Dispatch(t);
    if t.queue != [] && t.queue[|t.queue| - 1].id != 0 {
      var r := t.queue[|t.queue| - 1];
      forall i | 0 <= i < 255 && InFlight(t', i)
        ensures exists k: nat :: IsLast(t'.sent, k, i + 1) && FilledFor(t'.comms[i], t'.sent[k], i + 1)
      {
        if r.id == i + 1 {
          assert IsLast(t'.sent, |t.sent|, i + 1);
        } else {
          assert InFlight(t, i);
          var k: nat :| IsLast(t.sent, k, i + 1) && FilledFor(t.comms[i], t.sent[k], i + 1);
          StillLast(t.sent, k, i + 1, r);
        }
      }
    }
  }

  lemma ReplyRemembers(t: Table, frame: Bytes, a: Answer)
    requires Inv(t) && Remembers(t) && |frame| > 4
    ensures Remembers(Reply(t, frame, a))
  {
    var t' := Reply(t, frame, a);
    forall i | 0 <= i < 255 && InFlight(t', i)
      ensures exists k: nat :: IsLast(t'.sent, k, i + 1) && FilledFor(t'.comms[i], t'.sent[k], i + 1)
    {
      ReplyIsFiled(t, frame, a, i);
      ReplyFreesItsOwn(t, frame, a, i);
      assert InFlight(t, i);
    }
  }

  lemma StepRemembers(t: Table, e: Event)
    requires Inv(t) && IsEvent(e) && Remembers(t)
    ensures |Step(t, e).comms| == 255 && Remembers(Step(t, e))
  {
    match e
    case Registers(r) =>
      assert forall i :: 0 <= i < 255 && InFlight(Step(t, e), i) ==> InFlight(t, i);
    case Dispatches => DispatchRemembers(t);
    case Replies(frame, a) => ReplyRemembers(t, frame, a);
  }

  /** In every reachable state a slot in flight holds the callback and the frame of the
      request last sent with its id. */
  lemma {:induction false} InFlightIsLastSent(events: seq<Event>)
    requires forall k :: 0 <= k < |events| ==> IsEvent(events[k])
    ensures |Run(events).comms| == 255 && Remembers(Run(events))
    decreases |events|
  {
    if events != [] {
      var before := events[..|events| - 1];
      InFlightIsLastSent(before);
      StepRemembers(Run(before), events[|events| - 1]);
    }
  }

  // ----- what goes out -----

  /** The bytes the requests go out as. */
  function Wire(rs: seq<Request>): Bytes
    requires HaveIds(rs)
  {
    if rs == [] then [] else Framed(BodyOf(rs[0].order, rs[0].id)) + Wire(rs[1..])
  }

  lemma {:induction false} WireAppend(rs: seq<Request>, more: seq<Request>)
    requires HaveIds(rs) && HaveIds(more)
    ensures HaveIds(rs + more) && Wire(rs + more) == Wire(rs) + Wire(more)
  {
    if rs == [] {
      assert rs + more == more;
    } else {
      var first := Framed(BodyOf(rs[0].order, rs[0].id));
      assert (rs + more)[0] == rs[0] && (rs + more)[1..] == rs[1..] + more;
      WireAppend(rs[1..], more);
      assert first + (Wire(rs[1..]) + Wire(more)) == (first + Wire(rs[1..])) + Wire(more);
    }
  }

  /** The bytes that went out are `before` and those of the requests sent. */
  ghost predicate WentOut(t: Table, before: Bytes, out: Bytes) {
    Inv(t) && InOrder(t) && out == before + Wire(t.sent)
  }

  /** The bytes a request goes out as, if it has an id. */
  function FrameOf(r: Request): Bytes
    requires r.id <= MAX_CONCURRENT_COMMS
  {
    if r.id == 0 then [] else Framed(BodyOf(r.order, r.id))
  }

  lemma WireOne(rs: seq<Request>)
    requires HaveIds(rs) && |rs| == 1
    ensures Wire(rs) == FrameOf(rs[0])
  {
    assert Wire(rs[1..]) == [];
  }

  lemma DispatchSends(t: Table)
    requires Sized(t) && HaveIds(t.sent) && t.queue != []
    ensures HaveIds(Dispatch(t).sent)
    ensures Wire(Dispatch(t).sent) == Wire(t.sent) + FrameOf(t.queue[|t.queue| - 1])
  {
    var r := t.queue[|t.queue| - 1];
    if r.id != 0 {
      WireAppend(t.sent, [r]);
      WireOne([r]);
    }
  }

  lemma Associate(a: Bytes, b: Bytes, c: Bytes)
    ensures a + b + c == a + (b + c)
  {
  }

  lemma DispatchGoesOut(t: Table, before: Bytes, out: Bytes, out': Bytes)
    requires WentOut(t, before, out) && t.queue != [] && out' == out + FrameOf(t.queue[|t.queue| - 1])
    ensures WentOut(Dispatch(t), before, out')
  {
    DispatchKeeps(t);
    DispatchKeepsOrder(t);
    DispatchSends(t);
    Associate(before, Wire(t.sent), FrameOf(t.queue[|t.queue| - 1]));
  }

  function Segments(rs: seq<Request>): (gs: seq<Stream.Segment>)
    requires HaveIds(rs)
    ensures |gs| == |rs|
  {
    if rs == [] then []
    else [Stream.Segment([], [], Framed(BodyOf(rs[0].order, rs[0].id)))] + Segments(rs[1..])
  }

  lemma {:induction false} WireIsStream(rs: seq<Request>)
    requires HaveIds(rs)
    ensures Stream.Segments(Segments(rs)) && Stream.StreamBytes(Segments(rs)) == Wire(rs)
    ensures forall k :: 0 <= k < |rs| ==>
              Stream.Images(Segments(rs))[k] == Padded(Framed(BodyOf(rs[k].order, rs[k].id)))
  {
    if rs != [] {
      WireIsStream(rs[1..]);
      var g := Segments(rs)[0];
      Stream.SentFramesAreFrames(BodyOf(rs[0].order, rs[0].id));
      assert Segments(rs)[1..] == Segments(rs[1..]);
      assert Stream.SegmentBytes(g) == g.frame;
      forall k | 0 <= k < |Segments(rs)| ensures Stream.IsSegment(Segments(rs)[k]) {
        if k > 0 {
          assert Segments(rs)[k] == Segments(rs[1..])[k - 1];
        }
      }
    }
  }

  predicate Answers(images: seq<Bytes>, rs: seq<Request>) {
    && HaveIds(rs) && |images| == |rs|
    && forall k :: 0 <= k < |rs| ==>
         images[k] == Padded(Framed(BodyOf(rs[k].order, rs[k].id))) && IdOf(images[k]) == rs[k].id
  }

  lemma FourthByte(body: Bytes)
    requires 2 <= |body| <= 124
    ensures IdOf(Padded(Framed(body))) == body[1]
  {
  }

  lemma {:induction false} WireReadsBack(rs: seq<Request>)
    requires HaveIds(rs)
    ensures Stream.ReadMany(|rs|, Wire(rs)).1 == [] && Answers(Stream.ReadMany(|rs|, Wire(rs)).0, rs)
  {
    WireIsStream(rs);
    Stream.StreamReads(Segments(rs), []);
    assert Wire(rs) + [] == Wire(rs);
    forall k | 0 <= k < |rs| ensures IdOf(Padded(Framed(BodyOf(rs[k].order, rs[k].id)))) == rs[k].id {
      FourthByte(BodyOf(rs[k].order, rs[k].id));
    }
  }

  /** In every reachable state, a radio that reads frame by frame gets from what was
      sent one frame for each request, in order, each with the id its slot has. */
  lemma {:induction false} SentIsReadBack(events: seq<Event>)
    requires forall k :: 0 <= k < |events| ==> IsEvent(events[k])
    ensures var rs := Run(events).sent;
            HaveIds(rs) && Stream.ReadMany(|rs|, Wire(rs)).1 == [] && Answers(Stream.ReadMany(|rs|, Wire(rs)).0, rs)
  {
    SentInOrder(events);
    WireReadsBack(Run(events).sent);
  }

  // ----- the code -----

  /** The shared state.  `dispatchQueue` is filled at its front. */
  class Communicator {
    var xbeeCommBits: seq<bool>
    var xbeeComms: seq<CommStruct>
    var dispatchQueue: seq<Request>
    const port: SerialPort
    ghost var registered: seq<Request>
    ghost var sent: seq<Request>
    ghost const before: Bytes

    ghost function State(): Table
      reads this
    {
      Table(xbeeCommBits, xbeeComms, dispatchQueue, registered, sent)
    }

    /** The table is in order, and the port has been given what was sent. */
    ghost predicate Valid()
      reads this, port
    {
      WentOut(State(), before, port.outgoing)
    }

    constructor (port: SerialPort)
      ensures State() == Initial() && this.port == port && before == port.outgoing && Valid()
    {
      xbeeCommBits := seq(MAX_CONCURRENT_COMMS, i => false);
      xbeeComms := seq(MAX_CONCURRENT_COMMS, i => EMPTY);
      dispatchQueue, registered, sent := [], [], [];
      this.port, before := port, port.outgoing;
    }

    /** `registerRequest` for a request that does not ask for an id of 1 to 8. */
    method RegisterRequest(request: Request) returns (id: nat)
      requires Valid() && (request.id == 0 || request.id >= 9)
      modifies this
      ensures Valid() && State() == Register(old(State()), request) && id == IdFor(old(xbeeCommBits))
    {
      RegisterKeeps(State(), request);
      RegisterKeepsOrder(State(), request);
      var i: int := 0;
      while i < |xbeeCommBits| && xbeeCommBits[i]
        invariant 0 <= i <= |xbeeCommBits| && forall k :: 0 <= k < i ==> xbeeCommBits[k]
      {
        i := i + 1;
      }
      assert i == FirstFree(xbeeCommBits);
      if i < |xbeeCommBits| {
        xbeeCommBits := xbeeCommBits[i := true];
        xbeeComms := xbeeComms[i := xbeeComms[i].(waiting := 0)];
      } else {
        i := -1;
      }
      var given := request.(id := i + 1);
      dispatchQueue := [given] + dispatchQueue;
      registered := registered + [given];
      id := given.id;
    }

    /** One turn of the dispatcher's inner loop. */
    method DispatchOne()
      requires Valid() && dispatchQueue != []
      modifies this, port`outgoing
      ensures Valid() && State() == Dispatch(old(State()))
      ensures port.outgoing == old(port.outgoing) + FrameOf(old(dispatchQueue[|dispatchQueue| - 1]))
    {
      ghost var t, out := State(), port.outgoing;
      ServeLast();
      DispatchGoesOut(t, before, out, port.outgoing);
    }

    /** Takes the oldest request, sends it and records it in its slot. */
    method ServeLast()
      requires Sized(State()) && dispatchQueue != []
      modifies this, port`outgoing
      ensures State() == Dispatch(old(State()))
      ensures port.outgoing == old(port.outgoing) + FrameOf(old(dispatchQueue[|dispatchQueue| - 1]))
    {
      var request := dispatchQueue[|dispatchQueue| - 1];
      dispatchQueue := dispatchQueue[..|dispatchQueue| - 1];
      var commId := request.id;
      if commId == 0 {
        return;
      }
      var frame := Send(request.order, commId);
      xbeeComms := xbeeComms[commId - 1 :=
        xbeeComms[commId - 1].(callback := request.callback, id := commId, origFrame := Kept(frame))];
      sent := sent + [request];
    }

    /** Builds the frame for a request and writes it; what is kept of it. */
    method Send(order: Sendable, commId: byte) returns (frame: Bytes)
      modifies port`outgoing
      ensures frame == Framed(BodyOf(order, commId)) && port.outgoing == old(port.outgoing) + frame
    {
      match order {
        case Command(command, data) =>
          var built := CommandInternal(port, command, data, commId);
          frame := built[..if data.Word? then 12 else 8];
          assert frame == built[..][..|frame|];
        case Transmit(address, packet) =>
          var built := TransmitInternal(port, address, packet, commId);
          frame := built[..66];
      }
    }

    method FreeCommStruct(id: nat)
      requires 1 <= id <= MAX_CONCURRENT_COMMS && Sized(State()) && xbeeCommBits[id - 1]
      modifies this`xbeeComms, this`xbeeCommBits
      ensures State() == Freed(old(State()), id)
    {
      xbeeComms := xbeeComms[id - 1 := xbeeComms[id - 1].(origFrame := NoFrame, replyFrame := NoFrame)];
      xbeeCommBits := xbeeCommBits[id - 1 := false];
    }

    /** One turn of the handler's loop, for the frame read. */
    method Handle(frame: Bytes, answer: Answer)
      requires Valid() && |frame| == FRAME_SIZE
      modifies this`xbeeComms, this`xbeeCommBits
      ensures Valid() && Inv(old(State())) && State() == Reply(old(State()), frame, answer)
    {
      ReplyKeeps(State(), frame, answer);
      var commId := IdOf(frame);
      if commId == 0 {
        return;
      }
      assert InFlight(State(), commId - 1) ==> Carries(xbeeComms[commId - 1], commId);
      var commStruct := xbeeComms[commId - 1].(replyFrame := Kept(frame));
      var cbRet := 0;
      if commStruct.callback != NoCallback {
        cbRet := answer.own;
      }
      if cbRet == 0 {
        cbRet := answer.default;
      }
      if cbRet == 1 {
        commStruct := commStruct.(finished := true);
      }
      xbeeComms := xbeeComms[commId - 1 := commStruct];
      if cbRet == 1 && commStruct.waiting == 0 && commStruct.id != 0 && commStruct.origFrame.Kept? {
        FreeCommStruct(IdOf(commStruct.origFrame.frame));
      }
    }
  }

  /** At any time: the bytes given to the port are, read frame by frame, one frame for
      each request sent, in the order they were registered and each with its slot's id. */
  lemma PortIsReadBack(c: Communicator)
    requires c.Valid()
    ensures c.before <= c.port.outgoing && InOrder(c.State())
    ensures var read := Stream.ReadMany(|c.sent|, c.port.outgoing[|c.before|..]);
            read.1 == [] && Answers(read.0, c.sent)
  {
    WireReadsBack(c.sent);
    assert c.port.outgoing[|c.before|..] == Wire(c.sent);
  }
}
