/** Control transfers on endpoint 0. */
module Ep0 {
  import opened Words

  const EP0_MPS := 64

  /** sizeof(ep0.data). */
  const DATA_SIZE := 128

  datatype Request = Request(dataIn: bool, wLength: U16)

  /** What handle_control_request makes of a request. */
  datatype Answer = Unhandled | Handled(response: seq<Byte>)

  /** A request as handle_control_request sees it: with all the data of an OUT request. */
  datatype Call = Call(req: Request, payload: seq<Byte>)

  /** What happens on endpoint 0: a Setup packet, a data packet from the host, and the
      completion of a packet to the host. */
  datatype Event = Setup(req: Request) | Out(packet: seq<Byte>) | Completed

  /** A request that is not refused for its length alone. */
  predicate Acceptable(r: Request) { r.dataIn || r.wLength <= DATA_SIZE }

  /* ---- The data stage of section 5.5.3 of the USB 1.1 specification ------------------- */

  /** The packets of a response: full ones, then the rest; a response that is shorter than
      what was asked for has to end in a packet that is not full, if need be an empty one. */
  function Stage(d: seq<Byte>, short: bool): (ps: seq<seq<Byte>>)
    ensures ps != []
    decreases |d|
  {
    if |d| < EP0_MPS || (|d| == EP0_MPS && !short) then [d]
    else [d[..EP0_MPS]] + Stage(d[EP0_MPS..], short)
  }

  /** A host knows that the stage is over: it has as much as it asked for, or a packet
      that is not full. */
  predicate Over(ps: seq<seq<Byte>>, asked: nat) {
    ps != [] && (|Flatten(ps)| == asked || |ps[|ps| - 1]| < EP0_MPS)
  }

  lemma {:induction false} StageCarries(d: seq<Byte>, short: bool)
    ensures Flatten(Stage(d, short)) == d
    ensures forall i :: 0 <= i < |Stage(d, short)| - 1 ==> |Stage(d, short)[i]| == EP0_MPS
    decreases |d|
  {
    var ps := Stage(d, short);
    if |d| < EP0_MPS || (|d| == EP0_MPS && !short) {
      assert ps == [] + [d];
      FlattenMore([], d);
    } else {
      StageCarries(d[EP0_MPS..], short);
      FlattenFirst(d[..EP0_MPS], Stage(d[EP0_MPS..], short));
    }
  }

  /** k full packets hold 64 k bytes. */
  lemma {:induction false} FullPackets(ps: seq<seq<Byte>>)
    requires forall i :: 0 <= i < |ps| ==> |ps[i]| == EP0_MPS
    ensures |Flatten(ps)| == EP0_MPS * |ps|
    decreases |ps|
  {
    if ps != [] {
      FullPackets(ps[..|ps| - 1]);
    }
  }

  /** How long the stage is: the last packet is the first that is not full, or completes
      what was asked for. */
  lemma {:induction false} StageLength(d: seq<Byte>, short: bool)
    ensures var n := |Stage(d, short)|;
            && EP0_MPS * (n - 1) <= |d| <= EP0_MPS * n
            && (short ==> |d| < EP0_MPS * n)
            && (!short && d != [] ==> EP0_MPS * (n - 1) < |d|)
            && |Stage(d, short)[n - 1]| == |d| - EP0_MPS * (n - 1)
    decreases |d|
  {
    if !(|d| < EP0_MPS || (|d| == EP0_MPS && !short)) {
      StageLength(d[EP0_MPS..], short);
    }
  }

  /** A response cut to what was asked for: the stage is over after its last packet, and
      not before. */
  lemma StageEndsExactly(response: seq<Byte>, asked: nat, k: nat)
    requires var n := Min(|response|, asked); k <= |Stage(response[..n], n < asked)|
    ensures var n := Min(|response|, asked);
            var ps := Stage(response[..n], n < asked);
            && (Over(ps[..k], asked) <==> k == |ps|)
            && Flatten(ps) == response[..n]
  {
    var n := Min(|response|, asked);
    var ps := Stage(response[..n], n < asked);
    StageCarries(response[..n], n < asked);
    StageLength(response[..n], n < asked);
    assert ps[..|ps|] == ps;
    if k < |ps| {
      FullPackets(ps[..k]);
    }
  }

  /* ---- What the events amount to -------------------------------------------------------- */

  /** The request being made: that of the last Setup packet. */
  function Asked(events: seq<Event>): (r: seq<Request>)
    ensures |r| <= 1
  {
    if events == [] then []
    else
      match events[|events| - 1]
      case Setup(r) => [r]
      case _ => Asked(events[..|events| - 1])
  }

  /** The data that has come since. */
  function DataOf(events: seq<Event>): seq<Byte> {
    if events == [] then []
    else
      var before := DataOf(events[..|events| - 1]);
      match events[|events| - 1]
      case Setup(_) => []
      case Out(packet) => before + packet
      case Completed => before
  }

  /** After its last event a request is complete, and was not before. */
  predicate Completes(events: seq<Event>) {
    events != [] &&
      var before := events[..|events| - 1];
      match events[|events| - 1]
      case Setup(r) => r.dataIn || r.wLength == 0
      case Out(packet) =>
        Asked(before) != [] && !Asked(before)[0].dataIn
        && |DataOf(before)| < Asked(before)[0].wLength <= |DataOf(before + [Out(packet)])|
      case Completed => false
  }

  /** The request that has become complete. */
  function CallOf(events: seq<Event>): Call
    requires Completes(events)
  {
    match events[|events| - 1]
    case Setup(r) => Call(r, [])
    case Out(packet) =>
      var r := Asked(events[..|events| - 1])[0];
      Call(r, DataOf(events[..|events| - 1] + [Out(packet)])[..r.wLength])
  }

  /** The requests there are to act on. */
  function Calls(events: seq<Event>): seq<Call> {
    if events == [] then []
    else
      Calls(events[..|events| - 1])
      + if Completes(events) && Acceptable(CallOf(events).req) then [CallOf(events)] else []
  }

  /** A transfer is under way: a request that sends data to the host and was not refused,
      until the host's status packet; one that brings data, until it is complete. */
  predicate Open(events: seq<Event>, handler: Call -> Answer) {
    if events == [] then false
    else
      var before := events[..|events| - 1];
      match events[|events| - 1]
      case Setup(r) => if r.dataIn then handler(Call(r, [])).Handled? else r.wLength > 0
      case Out(_) => Open(before, handler) && Asked(before) != [] && !Asked(before)[0].dataIn && !Completes(events)
      case Completed => Open(before, handler)
  }

  predicate Refused(c: Call, handler: Call -> Answer) {
    !Acceptable(c.req) || handler(c).Unhandled?
  }

  /** The last event gives rise to a stall: it completes a request that is refused, or is
      data with no transfer under way. */
  predicate StallsAt(events: seq<Event>, handler: Call -> Answer) {
    events != [] &&
      ((Completes(events) && Refused(CallOf(events), handler))
       || (events[|events| - 1].Out? && !Open(events[..|events| - 1], handler)))
  }

  /** How many do. */
  function Stalls(events: seq<Event>, handler: Call -> Answer): nat {
    if events == [] then 0
    else Stalls(events[..|events| - 1], handler) + if StallsAt(events, handler) then 1 else 0
  }

  lemma StallsNext(events: seq<Event>, n: nat, handler: Call -> Answer)
    requires n < |events|
    ensures var before, now := events[..n], events[..n + 1];
            && Stalls(now, handler) == Stalls(before, handler) + (if StallsAt(now, handler) then 1 else 0)
            && (StallsAt(now, handler) <==>
                  (Completes(now) && Refused(CallOf(now), handler)) || (events[n].Out? && !Open(before, handler)))
            && (Open(now, handler) <==>
                  match events[n]
                  case Setup(r) => if r.dataIn then handler(Call(r, [])).Handled? else r.wLength > 0
                  case Out(_) => Open(before, handler) && Asked(before) != [] && !Asked(before)[0].dataIn && !Completes(now)
                  case Completed => Open(before, handler))
  {
    assert events[..n + 1][..n] == events[..n];
  }

  /** The events up to the last that was not a completion. */
  function LastReceived(events: seq<Event>): (n: nat)
    ensures n <= |events|
  {
    if events == [] || !events[|events| - 1].Completed? then |events|
    else LastReceived(events[..|events| - 1])
  }

  /** What is to be sent for an answer: the response, as far as it was asked for, or the
      empty packet of a status stage. */
  function ToSend(c: Call, a: Answer): seq<seq<Byte>> {
    match a
    case Unhandled => []
    case Handled(response) =>
      if c.req.dataIn then
        var n := Min(|response|, c.req.wLength);
        Stage(response[..n], n < c.req.wLength)
      else [[]]
  }

  /** What one more event adds. */
  lemma OneMore(events: seq<Event>, n: nat)
    requires n < |events|
    ensures var before, now := events[..n], events[..n + 1];
            && Asked(now) == (match events[n] case Setup(r) => [r] case _ => Asked(before))
            && DataOf(now) == (match events[n] case Setup(_) => [] case Out(p) => DataOf(before) + p case Completed => DataOf(before))
            && Calls(now) == Calls(before) + (if Completes(now) && Acceptable(CallOf(now).req) then [CallOf(now)] else [])
            && LastReceived(now) == (if events[n].Completed? then LastReceived(before) else n + 1)
    ensures Completes(events[..n + 1]) <==>
        match events[n]
        case Setup(r) => r.dataIn || r.wLength == 0
        case Out(p) =>
          Asked(events[..n]) != [] && !Asked(events[..n])[0].dataIn
          && |DataOf(events[..n])| < Asked(events[..n])[0].wLength <= |DataOf(events[..n]) + p|
        case Completed => false
    ensures Completes(events[..n + 1]) ==>
        match events[n]
        case Setup(r) => CallOf(events[..n + 1]) == Call(r, [])
        case Out(p) =>
          var r := Asked(events[..n])[0];
          CallOf(events[..n + 1]) == Call(r, (DataOf(events[..n]) + p)[..r.wLength])
  {
    assert events[..n + 1][..n] == events[..n];
    if events[n].Out? {
      assert (events[..n] + [events[n]])[..n] == events[..n];
    }
  }

  /* ---- The engine ------------------------------------------------------------------------- */

  class ControlEndpoint {
    const data: array<Byte>
    var req: Request
    var dataLen: int
    var p: nat                  // tx.p, as an offset into data
    var todo: int
    var trunc: bool
    var txReady: bool
    var stalls: nat             // how often usb_stall was called

    ghost var stage: seq<Byte>          // what the data or status stage to the host carries
    ghost var queued: seq<seq<Byte>>    // its packets given to usb_write so far
    ghost var arrived: seq<Byte>        // data received from the host in this transfer

    /** What has been queued and what is left make up the stage. */
    ghost predicate Sending()
      reads this`p, this`todo, this`trunc, this`queued, this`stage, data
    {
      && todo >= 0 && p + todo <= data.Length
      && queued + Stage(data[p..p + todo], trunc) == Stage(stage, trunc)
    }

    /** What has been received, as far as there is room for it. */
    ghost predicate Receiving()
      reads this`dataLen, this`arrived, data
    {
      && dataLen == |arrived|
      && forall i :: 0 <= i < dataLen && i < data.Length ==> data[i] == arrived[i]
    }

    ghost predicate Valid()
      reads this, data
    {
      && data.Length == DATA_SIZE && dataLen >= -1
      && (todo == -1 || Sending())
      && (dataLen >= 0 && !req.dataIn ==> Receiving() && dataLen < req.wLength && todo == -1 && queued == [])
    }

    /** After handle_reset. */
    constructor ()
      ensures Valid() && dataLen == -1 && stalls == 0
    {
      data := new Byte[DATA_SIZE](_ => 0);
      req, dataLen, p, todo, trunc, txReady, stalls := Request(false, 0), -1, 0, -1, false, true, 0;
      stage, queued, arrived := [], [], [];
    }

    /** usb_write_ep0: the next packet, if one is due and the endpoint is free. */
    method UsbWriteEp0()
      requires data.Length == DATA_SIZE && (todo == -1 || Sending())
      modifies this`p, this`todo, this`txReady, this`queued
      ensures todo == -1 || Sending()
      ensures old(todo) >= 0 && old(txReady) ==> |queued| == |old(queued)| + 1 && old(queued) <= queued && !txReady
      ensures !(old(todo) >= 0 && old(txReady)) ==> queued == old(queued) && todo == old(todo) && txReady == old(txReady)
      ensures old(todo) >= 0 && todo == -1 ==> queued == Stage(stage, trunc)
    {
      if todo < 0 || !txReady {
        return;
      }
      var len := Min(todo, EP0_MPS);
      ghost var rest := data[p..p + todo];
      assert rest[..len] == data[p..p + len] && rest[len..] == data[p + len..p + todo];
      queued := queued + [data[p..p + len]];
      txReady := false;
      p := p + len;
      todo := todo - len;
      if todo == 0 {
        if !trunc || len < EP0_MPS {
          todo := -1;
        }
      }
    }

    /** handle_tx_ep0: the hardware has sent a packet. The stage ends only when all its
        packets have been queued. */
    method HandleTxEp0()
      requires Valid()
      modifies this`p, this`todo, this`txReady, this`queued
      ensures Valid() && old(queued) <= queued
      ensures old(todo) >= 0 ==> |queued| == |old(queued)| + 1
      ensures old(todo) == -1 ==> todo == -1 && queued == old(queued)
      ensures old(todo) >= 0 && todo == -1 ==> queued == Stage(stage, trunc)
    {
      hide Stage;
      txReady := true;
      UsbWriteEp0();
    }

    /** handle_tx_ep0, seen from the answer: one packet more, as long as there is one. */
    method HandleTx(ghost c: Call, ghost a: Answer, ghost n: nat)
      requires Valid()
      modifies this`p, this`todo, this`txReady, this`queued
      ensures Valid() && (old(Answered(c, a, n)) ==> Answered(c, a, n + 1))
    {
      hide Stage, ToSend;
      HandleTxEp0();
    }

    /** handle_rx_ep0, Data stage from the host: what fits is kept, all of it is counted. */
    method TakeData(packet: seq<Byte>)
      requires data.Length == DATA_SIZE && dataLen >= 0 && Receiving()
      modifies this`dataLen, this`arrived, data
      ensures Receiving() && arrived == old(arrived) + packet
    {
      var len, l := |packet|, 0;
      if dataLen < DATA_SIZE {
        l := Min(DATA_SIZE - dataLen, len);
      }
      forall i | 0 <= i < l {
        data[dataLen + i] := packet[i];
      }
      dataLen := dataLen + len;
      arrived := arrived + packet;
    }

    /** handle_rx_ep0, Data stage to the host: the response, cut to what was asked for. */
    method Respond(response: seq<Byte>)
      requires data.Length == DATA_SIZE && |response| <= DATA_SIZE
      modifies this`dataLen, this`p, this`todo, this`trunc, this`txReady, this`queued, this`stage, data
      ensures todo == -1 || Sending()
      ensures stage == response[..Min(|response|, req.wLength)] && trunc == (|stage| < req.wLength)
      ensures if old(txReady) then |queued| == 1 else queued == []
      ensures todo == -1 ==> queued == Stage(stage, trunc)
      ensures dataLen == |stage|
    {
      forall i | 0 <= i < |response| {
        data[i] := response[i];
      }
      dataLen := Min(|response|, req.wLength);
      p, todo, trunc := 0, dataLen, dataLen < req.wLength;
      stage, queued := response[..dataLen], [];
      assert data[0..0 + todo] == stage;
      hide Stage;
      UsbWriteEp0();
    }

    /** What has been sent for an answer: the first packets, and at least `n`. */
    ghost predicate Answered(c: Call, a: Answer, n: nat)
      reads this`todo, this`stage, this`trunc, this`queued
    {
      && (a.Unhandled? ==> queued == [] && todo == -1)
      && (a.Handled? ==> ToSend(c, a) == Stage(stage, trunc) && queued <= ToSend(c, a))
      && (a.Handled? ==> |queued| >= Min(n, |ToSend(c, a)|))
      && (todo == -1 && a.Handled? ==> queued == ToSend(c, a))
    }

    lemma AnsweredLess(c: Call, a: Answer, n: nat)
      requires Answered(c, a, n)
      ensures Answered(c, a, 0)
    {
    }

    /** handle_rx_ep0: a Setup packet carrying `setup`, or a data packet. `handler` is what
        handle_control_request does with a request that it gets to see, which is when
        `called` comes back true, with the data of an OUT request as `payload`. */
    method HandleRxEp0(isSetup: bool, setup: Request, packet: seq<Byte>, handler: Call -> Answer)
        returns (called: bool, payload: seq<Byte>)
      requires Valid() && forall c :: handler(c).Handled? ==> |handler(c).response| <= DATA_SIZE
      modifies this, data
      ensures Valid()
      ensures isSetup ==> req == setup && called == (setup.dataIn || setup.wLength == 0) && (called ==> payload == [])
      ensures isSetup && !called ==> dataLen == 0 && arrived == []
      ensures !isSetup && old(dataLen) < 0 ==> !called && dataLen == -1 && req == old(req)
      ensures !isSetup && old(dataLen) >= 0 && old(req).dataIn ==>
          !called && todo == -1 && dataLen == -1 && req == old(req)
      ensures !isSetup && old(dataLen) >= 0 && !old(req).dataIn ==>
          && req == old(req) && arrived == old(arrived) + packet
          && called == (|arrived| >= req.wLength) && (!called ==> dataLen == |arrived|)
      ensures !isSetup && called && Acceptable(req) ==> |arrived| >= req.wLength && payload == arrived[..req.wLength]
      ensures called ==> (dataLen >= 0 <==> req.dataIn && handler(Call(req, payload)).Handled?)
      ensures stalls == old(stalls) +
          if (!isSetup && old(dataLen) < 0) || (called && Refused(Call(req, payload), handler)) then 1 else 0
      ensures called && Acceptable(req) ==>
          var c := Call(req, payload); Answered(c, handler(c), if old(txReady) then 1 else 0)
    {
      hide Stage, Answered;
      called, payload := false, [];
      if isSetup {
        dataLen, todo, req := 0, -1, setup;
        stage, queued, arrived := [], [], [];
        called := req.dataIn || req.wLength == 0;
      } else if dataLen < 0 {
        stalls := stalls + 1;
      } else if !req.dataIn {
        TakeData(packet);
        if dataLen >= req.wLength {
          dataLen := req.wLength;
          called := true;
        }
      } else {
        todo, dataLen := -1, -1;
      }
      if called {
        if !req.dataIn && req.wLength <= DATA_SIZE {
          payload := data[..dataLen];
          assert payload == arrived[..req.wLength];
        }
        var c := Call(req, payload);
        Conclude(c, handler(c));
      }
    }

    /** Any run from a fresh start: exactly the requests that the events complete are acted
        on, each with its own data, and their answers reach the host packet by packet. */
    method Run(events: seq<Event>, handler: Call -> Answer) returns (calls: seq<Call>)
      requires Valid() && dataLen == -1
      requires forall c :: handler(c).Handled? ==> |handler(c).response| <= DATA_SIZE
      modifies this, data
      ensures Valid() && calls == Calls(events) && stalls == old(stalls) + Stalls(events, handler)
      ensures var k := LastReceived(events);
          Completes(events[..k]) && Acceptable(CallOf(events[..k]).req) ==>
            Answered(CallOf(events[..k]), handler(CallOf(events[..k])), |events| - k)
    {
      hide Stage, Answered, Asked, DataOf, Completes, CallOf, Calls, LastReceived, ToSend, Receiving, Sending, Open, Stalls, StallsAt;
      calls := [];
      NoEvents(events, handler);
      ghost var k, answering, c := 0, false, Call(req, []);
      for n := 0 to |events|
        invariant Valid() && calls == Calls(events[..n]) && k == LastReceived(events[..n]) <= n
        invariant Standing(events[..n]) && (dataLen >= 0 <==> Open(events[..n], handler))
        invariant stalls == old(stalls) + Stalls(events[..n], handler)
        invariant answering <==> Completes(events[..k]) && Acceptable(CallOf(events[..k]).req)
        invariant answering ==> c == CallOf(events[..k]) && Answered(c, handler(c), n - k)
      {
        OneMore(events, n);
        StallsNext(events, n, handler);
        ghost var now := events[..n + 1];
        if events[n].Completed? {
          HandleTx(c, handler(c), n - k);
        } else {
          var called, payload;
          ghost var free := if txReady then 1 else 0;
          match events[n] {
            case Setup(r) => called, payload := HandleRxEp0(true, r, [], handler);
            case Out(packet) => called, payload := HandleRxEp0(false, req, packet, handler);
          }
          assert called <==> Completes(now);
          answering := called && Acceptable(req);
          k := n + 1;
          if called && Acceptable(req) {
            c := Call(req, payload);
            assert c == CallOf(now);
            AnsweredLess(c, handler(c), free);
            calls := calls + [Call(req, payload)];
          }
        }
      }
      assert events[..|events|] == events;
    }

    /** What the variables say of the request that the events have begun. */
    ghost predicate Standing(events: seq<Event>)
      reads this`req, this`dataLen, this`arrived
    {
      && (dataLen >= 0 ==> Asked(events) == [req])
      && (dataLen >= 0 && !req.dataIn ==> arrived == DataOf(events) && dataLen == |arrived| < req.wLength)
      && (dataLen < 0 && Asked(events) != [] && !Asked(events)[0].dataIn ==> |DataOf(events)| >= Asked(events)[0].wLength)
    }

    /** The end of handle_rx_ep0: the request is handled, or refused. */
    method Conclude(c: Call, answer: Answer)
      requires data.Length == DATA_SIZE && todo == -1 && (answer.Handled? ==> |answer.response| <= DATA_SIZE)
      requires c.req == req && queued == []
      modifies this`dataLen, this`p, this`todo, this`trunc, this`txReady, this`queued, this`stage, this`stalls, data
      ensures Valid() && (dataLen >= 0 <==> req.dataIn && answer.Handled?)
      ensures stalls == old(stalls) + if answer.Unhandled? || !Acceptable(req) then 1 else 0
      ensures Acceptable(req) ==> Answered(c, answer, if old(txReady) then 1 else 0)
    {
      hide Stage;
      if answer.Unhandled? || !Acceptable(req) {
        stalls := stalls + 1;
        dataLen := -1;
      } else if req.dataIn {
        Respond(answer.response);
      } else {
        p, todo, trunc := 0, 0, false;
        stage, queued := [], [];
        assert data[0..0] == [];
        StatusStage();
        UsbWriteEp0();
        dataLen := -1;
      }
    }
  }

  lemma StatusStage()
    ensures Stage([], false) == [[]]
  {
  }

  lemma NoEvents(events: seq<Event>, handler: Call -> Answer)
    ensures Asked(events[..0]) == [] && DataOf(events[..0]) == [] && Calls(events[..0]) == []
    ensures LastReceived(events[..0]) == 0 && !Completes(events[..0])
    ensures !Open(events[..0], handler) && Stalls(events[..0], handler) == 0
  {
  }
}
