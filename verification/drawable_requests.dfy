/** The pending-request table of RCanvasPainter (modules/gpad/RCanvasPainter.mjs
    lines 327-432): `submitDrawableRequest` numbers the requests that expect a
    reply and keeps them in `_submreq`; each painter holds at most one request
    per kind in flight and parks a newer one as `_nextreq`;
    `processDrawableReply` retires the request a reply names and resubmits the
    parked one.

    The clock is the parameter `now`, the websocket is the `outbox` of messages
    sent, and a reply callback is recorded in `calls` instead of being run. */
module DrawableRequests {
  import opened Results
  import opened Json

  type PainterId = nat
  type CallbackId = nat

  /** A painter and its `snapid`; `None` when it is missing or not a string. */
  datatype Painter = Painter(id: PainterId, snapid: Option<string>)

  /** A request object: its `_typename` ("" when missing) and its payload. */
  datatype Req = Req(typename: string, body: Json)

  /** A request in `_submreq`, with the `_kind`, `_painter`, `_method`, `_tm`
      and `_nextreq` the canvas attaches to it. */
  datatype Pending = Pending(kind: string, painter: Painter, callback: CallbackId, tm: int, req: Req, next: Option<Req>)

  /** `"REQ:" + JSON.stringify(req)` once `req.id` and `req.reqid` are set. */
  datatype Msg = Msg(req: Req, id: string, reqid: nat)

  /** One run of a reply callback. */
  datatype Call = Call(callback: CallbackId, reqid: nat)

  /** A painter's `_requests[kind]`, naming the request by its reqid. */
  datatype Slot = Slot(painter: PainterId, kind: string)

  /** `_websocket` present, `_nextreqid` (0 while unset), `_submreq`, the
      painters' `_requests`, and what has been sent and called. */
  datatype Canvas = Canvas(
    connected: bool,
    nextReqId: nat,
    submitted: map<nat, Pending>,
    slots: map<Slot, nat>,
    outbox: seq<Msg>,
    calls: seq<Call>)

  /** `null`, `false`, or the request object (with its reqid). */
  datatype Outcome = Refused | Deferred | Accepted(reqid: nat)

  datatype Submission = Submission(canvas: Canvas, outcome: Outcome)

  /** A request of the same kind younger than this (in ms) blocks a new one. */
  const StaleAfter := 5000

  function Initial(connected: bool): Canvas {
    Canvas(connected, 0, map[], map[], [], [])
  }

  /** `this._nextreqid` after `if (!this._nextreqid) this._nextreqid = 1`. */
  function FreshId(c: Canvas): nat {
    if c.nextReqId == 0 then 1 else c.nextReqId
  }

  /** Every stored reqid was handed out (it is below the next one, and not 0),
      and every painter slot is for a non-empty kind and names a stored
      request of that painter and kind. */
  predicate Valid(c: Canvas) {
    && (forall k | k in c.submitted :: 1 <= k < FreshId(c))
    && (forall s | s in c.slots ::
          && s.kind != ""
          && c.slots[s] in c.submitted
          && c.submitted[c.slots[s]].painter.id == s.painter
          && c.submitted[c.slots[s]].kind == s.kind)
  }

  predicate HasSnapId(p: Painter) {
    p.snapid.Some? && p.snapid.value != ""
  }

  /** The test of line 330. */
  predicate Refuses(c: Canvas, req: Option<Req>, painter: Painter) {
    !c.connected || req.None? || req.value.typename == "" || !HasSnapId(painter)
  }

  /** `!prevreq._tm || (tm - prevreq._tm < 5000)` */
  predicate Blocks(p: Pending, now: int) {
    p.tm == 0 || now - p.tm < StaleAfter
  }

  /** `submitDrawableRequest(kind, req, painter, method)` at time `now`.
      An empty `kind` and a `None` callback (`method`) are the falsy ones. */
  function Submit(c: Canvas, kind: string, req: Option<Req>, painter: Painter, callback: Option<CallbackId>, now: int): (r: Submission)
    requires Valid(c)
    ensures Valid(r.canvas)
    ensures r.outcome.Refused? <==> Refuses(c, req, painter)
    ensures r.outcome.Refused? ==> r.canvas == c
    ensures !r.outcome.Accepted? ==> r.canvas.outbox == c.outbox && r.canvas.nextReqId == c.nextReqId
    ensures r.outcome.Accepted? ==>
      r.canvas.outbox == c.outbox + [Msg(req.value, painter.snapid.value, r.outcome.reqid)]
    ensures r.outcome.Accepted? && callback.Some? ==>
      && r.outcome.reqid == FreshId(c)
      && r.canvas.nextReqId == r.outcome.reqid + 1
      && r.canvas.submitted == c.submitted[r.outcome.reqid := Pending(kind, painter, callback.value, now, req.value, None)]
    ensures r.outcome.Accepted? && callback.None? ==>
      r.outcome.reqid == 0 && r.canvas.submitted == c.submitted && r.canvas.nextReqId == c.nextReqId
    ensures r.outcome.Accepted? && kind != "" && callback.Some? ==>
      r.canvas.slots == c.slots[Slot(painter.id, kind) := r.outcome.reqid]
    ensures r.outcome.Accepted? && !(kind != "" && callback.Some?) ==> r.canvas.slots == c.slots
    ensures r.outcome.Deferred? <==>
      && !Refuses(c, req, painter) && kind != "" && callback.Some?
      && Slot(painter.id, kind) in c.slots && Blocks(c.submitted[c.slots[Slot(painter.id, kind)]], now)
    ensures r.outcome.Deferred? ==>
      var prev := c.slots[Slot(painter.id, kind)];
      r.canvas == c.(submitted := c.submitted[prev := c.submitted[prev].(next := req)])
    ensures r.canvas.calls == c.calls && r.canvas.connected == c.connected
  {
    if Refuses(c, req, painter) then Submission(c, Refused)
    else
      var key := Slot(painter.id, kind);
      if kind != "" && callback.Some? && key in c.slots && Blocks(c.submitted[c.slots[key]], now) then
        var prev := c.slots[key];
        var c' := c.(submitted := c.submitted[prev := c.submitted[prev].(next := req)]);
        Submission(c', Deferred)
      else
        var slots := if kind != "" && callback.Some? then c.slots - {key} else c.slots;
        Send(c.(slots := slots), kind, req.value, painter, callback, now)
  }

  /** Lines 349-376: number the request, remember it if it expects a reply,
      claim the painter's slot for its kind, and send it. */
  function Send(c: Canvas, kind: string, req: Req, painter: Painter, callback: Option<CallbackId>, now: int): (r: Submission)
    requires Valid(c) && HasSnapId(painter)
    requires kind != "" && callback.Some? ==> Slot(painter.id, kind) !in c.slots
    ensures Valid(r.canvas) && r.outcome.Accepted?
    ensures r.canvas.outbox == c.outbox + [Msg(req, painter.snapid.value, r.outcome.reqid)]
    ensures kind != "" && callback.Some? ==> r.canvas.slots == c.slots[Slot(painter.id, kind) := r.outcome.reqid]
    ensures !(kind != "" && callback.Some?) ==> r.canvas.slots == c.slots
  {
    var msg := Msg(req, painter.snapid.value, if callback.Some? then FreshId(c) else 0);
    if callback.None? then
      Submission(c.(outbox := c.outbox + [msg]), Accepted(0))
    else
      var id := FreshId(c);
      var slots := if kind != "" then c.slots[Slot(painter.id, kind) := id] else c.slots;
      var c' := c.(nextReqId := id + 1,
                   submitted := c.submitted[id := Pending(kind, painter, callback.value, now, req, None)],
                   slots := slots,
                   outbox := c.outbox + [msg]);
      Submission(c', Accepted(id))
  }

  /** `false` for a reply that names no waiting request, `undefined` once a
      request is retired. */
  datatype Processed = Processed(canvas: Canvas, retired: bool)

  /** `processDrawableReply(msg)` for a reply whose `reqid` is `reqid` (`None`
      when the message does not parse or has none). */
  function Process(c: Canvas, reqid: Option<nat>, now: int): (r: Processed)
    requires Valid(c)
    ensures Valid(r.canvas)
    ensures !r.retired <==> reqid.None? || reqid.value !in c.submitted
    ensures !r.retired ==> r.canvas == c
    ensures r.retired ==>
      var k := reqid.value;
      var p := c.submitted[k];
      && k !in r.canvas.submitted
      && |r.canvas.calls| == |c.calls| + 1
      && r.canvas.calls[|c.calls|] == Call(p.callback, k)
  {
    if reqid.None? || reqid.value !in c.submitted then Processed(c, false)
    else
      var k := reqid.value;
      var p := c.submitted[k];
      var c1 := Retire(c, k);
      if p.next.Some? && Slot(p.painter.id, p.kind) !in c1.slots then
        var s := Submit(c1, p.kind, p.next, p.painter, Some(p.callback), now);
        assert s.canvas.calls == c1.calls;
        FreshIdIsNew(c1);
        Processed(s.canvas, true)
      else Processed(c1, true)
  }

  /** Lines 419-428: drop the entry, free the painter's slot if it still
      holds this request, and run the callback. */
  function Retire(c: Canvas, k: nat): (r: Canvas)
    requires Valid(c) && k in c.submitted
    ensures Valid(r) && k !in r.submitted && r.nextReqId == c.nextReqId && r.outbox == c.outbox
    ensures r.submitted == c.submitted - {k}
    ensures r.calls == c.calls + [Call(c.submitted[k].callback, k)]
    ensures var s := Slot(c.submitted[k].painter.id, c.submitted[k].kind);
      && (c.submitted[k].kind != "" && s in c.slots && c.slots[s] == k ==> r.slots == c.slots - {s})
      && (!(c.submitted[k].kind != "" && s in c.slots && c.slots[s] == k) ==> r.slots == c.slots)
  {
    var p := c.submitted[k];
    var s := Slot(p.painter.id, p.kind);
    var slots := if p.kind != "" && s in c.slots && c.slots[s] == k then c.slots - {s} else c.slots;
    c.(submitted := c.submitted - {k}, slots := slots, calls := c.calls + [Call(p.callback, k)])
  }

  /** The next reqid is not in use. */
  lemma FreshIdIsNew(c: Canvas)
    requires Valid(c)
    ensures FreshId(c) !in c.submitted
  {
  }

  lemma InitialIsValid(connected: bool)
    ensures Valid(Initial(connected))
  {
  }

  /** A request of a kind whose previous request is still young (or has no
      time stamp) is parked as that request's `_nextreq`: nothing is sent, no
      reqid is used, and nothing else changes. */
  lemma YoungRequestBlocks(c: Canvas, kind: string, req: Req, painter: Painter, cb: CallbackId, now: int)
    requires Valid(c) && !Refuses(c, Some(req), painter) && kind != ""
    requires Slot(painter.id, kind) in c.slots && Blocks(c.submitted[c.slots[Slot(painter.id, kind)]], now)
    ensures var r := Submit(c, kind, Some(req), painter, Some(cb), now);
      var prev := c.slots[Slot(painter.id, kind)];
      && r.outcome == Deferred
      && r.canvas == c.(submitted := c.submitted[prev := c.submitted[prev].(next := Some(req))])
  {
  }

  /** Two requests of one kind from one painter, the second less than 5000 ms
      after the first was sent: the second is parked behind the first, and
      nothing more is sent. */
  lemma SecondRequestIsParked(c: Canvas, kind: string, req1: Req, req2: Req, painter: Painter, cb1: CallbackId, cb2: CallbackId, t: int, now: int)
    requires Valid(c) && kind != "" && req2.typename != ""
    requires Submit(c, kind, Some(req1), painter, Some(cb1), t).outcome.Accepted?
    requires now - t < StaleAfter
    ensures var s1 := Submit(c, kind, Some(req1), painter, Some(cb1), t);
      var s2 := Submit(s1.canvas, kind, Some(req2), painter, Some(cb2), now);
      && s2.outcome == Deferred
      && s2.canvas.outbox == s1.canvas.outbox
      && s2.canvas.submitted[s1.outcome.reqid].next == Some(req2)
  {
    var s1 := Submit(c, kind, Some(req1), painter, Some(cb1), t);
    var key := Slot(painter.id, kind);
    assert s1.canvas.slots[key] == s1.outcome.reqid;
    assert s1.canvas.submitted[s1.outcome.reqid].tm == t;
  }

  /** After 5000 ms the old request no longer blocks: the new one is sent
      under a fresh reqid and takes over the slot, while the old one stays
      in `_submreq` waiting for its reply. */
  lemma StaleRequestIsReplaced(c: Canvas, kind: string, req: Req, painter: Painter, cb: CallbackId, now: int)
    requires Valid(c) && !Refuses(c, Some(req), painter) && kind != ""
    requires Slot(painter.id, kind) in c.slots && !Blocks(c.submitted[c.slots[Slot(painter.id, kind)]], now)
    ensures var r := Submit(c, kind, Some(req), painter, Some(cb), now);
      && r.outcome == Accepted(FreshId(c))
      && r.canvas.slots == c.slots[Slot(painter.id, kind) := FreshId(c)]
      && c.slots[Slot(painter.id, kind)] in r.canvas.submitted
  {
  }

  /** Requests that expect a reply are numbered 1, 2, 3, ... in the order
      they are sent. */
  lemma RequestIdsCount(c: Canvas, k1: string, q1: Req, p1: Painter, f1: CallbackId,
                        k2: string, q2: Req, p2: Painter, f2: CallbackId, now: int)
    requires Valid(c)
    ensures var s1 := Submit(c, k1, Some(q1), p1, Some(f1), now);
      var s2 := Submit(s1.canvas, k2, Some(q2), p2, Some(f2), now);
      && (c == Initial(true) && s1.outcome.Accepted? ==> s1.outcome.reqid == 1)
      && (s1.outcome.Accepted? && s2.outcome.Accepted? ==> s2.outcome.reqid == s1.outcome.reqid + 1)
  {
  }

  /** A request without a callback is sent with reqid 0 and never stored. */
  lemma FireAndForget(c: Canvas, kind: string, req: Req, painter: Painter, now: int)
    requires Valid(c) && !Refuses(c, Some(req), painter)
    ensures var r := Submit(c, kind, Some(req), painter, None, now);
      && r.outcome == Accepted(0)
      && r.canvas == c.(outbox := c.outbox + [Msg(req, painter.snapid.value, 0)])
  {
  }

  /** The reply to a request retires it: its entry goes, its slot is freed
      if it still holds it, its callback runs once, and when the slot is free
      a parked request is sent next, with the same kind, painter and
      callback. */
  lemma ReplyRetires(c: Canvas, k: nat, now: int)
    requires Valid(c) && k in c.submitted
    ensures var p := c.submitted[k];
      var key := Slot(p.painter.id, p.kind);
      var c1 := Retire(c, k);
      var r := Process(c, Some(k), now);
      && r.retired
      && (key in c.slots && c.slots[key] == k ==> key !in c1.slots)
      && (p.next.None? || key in c1.slots ==> r.canvas == c1)
      && (p.next.Some? && key !in c1.slots ==>
            r.canvas == Submit(c1, p.kind, p.next, p.painter, Some(p.callback), now).canvas)
  {
  }

  /** A parked request is sent when the reply to the request it waited for
      arrives and no newer request holds the slot, provided the connection and
      the painter's snapid allow it. */
  lemma ParkedRequestIsSent(c: Canvas, k: nat, now: int)
    requires Valid(c) && k in c.submitted
    requires var p := c.submitted[k];
      var key := Slot(p.painter.id, p.kind);
      p.next.Some? && !Refuses(c, p.next, p.painter) && (key in c.slots ==> c.slots[key] == k)
    ensures var p := c.submitted[k];
      var r := Process(c, Some(k), now);
      r.canvas.outbox == c.outbox + [Msg(p.next.value, p.painter.snapid.value, FreshId(c))]
  {
  }

  /** Submitting a request with a callback and no kind, then processing its
      reply, leaves `_submreq` and the slots as they were. */
  lemma ReplyUndoesSubmit(c: Canvas, req: Req, painter: Painter, cb: CallbackId, now: int, later: int)
    requires Valid(c) && !Refuses(c, Some(req), painter)
    ensures var s := Submit(c, "", Some(req), painter, Some(cb), now);
      var r := Process(s.canvas, Some(s.outcome.reqid), later);
      && r.retired
      && r.canvas.submitted == c.submitted
      && r.canvas.slots == c.slots
      && r.canvas.calls == c.calls + [Call(cb, FreshId(c))]
  {
    var s := Submit(c, "", Some(req), painter, Some(cb), now);
    FreshIdIsNew(c);
    assert s.canvas.submitted - {FreshId(c)} == c.submitted;
  }
}
