/** The detection session: the `auth` success check, and the correlation-id bookkeeping of
    the bidirectional `Detect` stream in `process`. Frames leave as requests tagged with a
    uuid, their records wait in a pending map, and each response is matched back to its
    record by uuid; files that yielded no frame skip the stream and are exported at once. */
module Detect {
  import opened Types

  const I32_MODULUS: int := 0x1_0000_0000
  const U64_MODULUS: int := 0x1_0000_0000_0000_0000

  /** `x as i32` for an unsigned value: the low 32 bits read as two's complement. */
  function AsI32(x: nat): (r: int)
    ensures -0x8000_0000 <= r < 0x8000_0000
    ensures (x - r) % I32_MODULUS == 0
    ensures x < 0x8000_0000 ==> r == x
  {
    var low := x % I32_MODULUS;
    if low < 0x8000_0000 then low else low - I32_MODULUS
  }

  /** `c as usize` on a 64-bit target for a signed wire integer: two's complement on 64 bits. */
  function AsUsize(c: int): (r: nat)
    ensures r < U64_MODULUS
    ensures (c - r) % U64_MODULUS == 0
    ensures 0 <= c < U64_MODULUS ==> r == c
  {
    c % U64_MODULUS
  }

  // ------------------------------------------------------------------ authentication

  /** The reply of the `Auth` call. */
  datatype AuthResponse = AuthResponse(success: bool, token: string, quota: int)

  /** `auth`: a transport failure is passed on, a reply without `success` becomes
      "Auth failed", and a successful reply is returned as it came. */
  function Auth(reply: Result<AuthResponse>): (r: Result<AuthResponse>)
    ensures r.Ok? <==> reply.Ok? && reply.value.success
    ensures r.Ok? ==> r == reply
    ensures reply.Ok? && !reply.value.success ==> r == Err("Auth failed")
    ensures reply.Err? ==> r == reply
  {
    match reply
    case Err(e) => Err(e)
    case Ok(resp) => if resp.success then Ok(resp) else Err("Auth failed")
  }

  // ------------------------------------------------------------------ wire messages

  /** The thresholds every request carries, copied from the configuration. */
  datatype Thresholds = Thresholds(iou: real, score: real)

  datatype DetectRequest = DetectRequest(
    uuid: string, image: seq<byte>, width: int, height: int, iou: real, score: real, iframe: bool)

  /** A box as it arrives; its class is a signed wire integer. */
  datatype WireBbox = WireBbox(x1: real, y1: real, x2: real, y2: real, classId: int, score: real)

  datatype DetectResponse = DetectResponse(
    uuid: string, labels: seq<string>, bboxs: seq<WireBbox>, iframe: bool)

  /** The record a frame waits under until its response arrives. */
  function PendingRecord(frame: Frame): ExportFrame {
    ExportFrame(frame.file, frame.frameIndex, frame.shootTime, frame.totalFrames, frame.iframe,
                None, None, None)
  }

  /** The request a frame is sent as. */
  function RequestFor(frame: Frame, uuid: string, th: Thresholds): DetectRequest {
    DetectRequest(uuid, frame.webp, AsI32(frame.width), AsI32(frame.height), th.iou, th.score, frame.iframe)
  }

  /** The record exported for a file that yielded no frame. */
  function ErrorRecord(err: ErrFile): ExportFrame {
    ExportFrame(err.file, 0, None, 0, false, None, None, Some(err.error))
  }

  function ToBbox(b: WireBbox): Bbox {
    Bbox(b.x1, b.y1, b.x2, b.y2, AsUsize(b.classId), b.score)
  }

  /** A pending record completed by its response: the boxes and labels are filled in and
      nothing else about the record changes. */
  function Detected(rec: ExportFrame, resp: DetectResponse): (r: ExportFrame)
    ensures r.labels == Some(resp.labels)
    ensures r.bboxes.Some? && |r.bboxes.value| == |resp.bboxs|
    ensures forall i :: 0 <= i < |resp.bboxs| ==>
              var b, w := r.bboxes.value[i], resp.bboxs[i];
              b.x1 == w.x1 && b.y1 == w.y1 && b.x2 == w.x2 && b.y2 == w.y2 && b.score == w.score
              && (0 <= w.classId < U64_MODULUS ==> b.classId == w.classId)
    ensures r.file == rec.file && r.frameIndex == rec.frameIndex && r.shootTime == rec.shootTime
    ensures r.totalFrames == rec.totalFrames && r.iframe == rec.iframe && r.error == rec.error
  {
    rec.(bboxes := Some(seq(|resp.bboxs|, i requires 0 <= i < |resp.bboxs| => ToBbox(resp.bboxs[i]))),
         labels := Some(resp.labels))
  }

  // ------------------------------------------------------------------ the stream as state

  /** The bookkeeping of one stream: the pending map, the requests sent so far, and the
      records handed to the exporter so far. */
  datatype StreamState = StreamState(
    pending: map<string, ExportFrame>,
    requests: seq<DetectRequest>,
    exported: seq<ExportFrame>)

  /** What happens on the stream: a media item arrives (with the uuid drawn for it), or a
      response arrives. */
  datatype Event = Produce(item: WebpItem, uuid: string) | Respond(resp: DetectResponse)

  /** One event handled. */
  function Step(s: StreamState, e: Event, th: Thresholds): (r: StreamState)
    // a frame waits under its uuid with no boxes, labels or error, and is requested under
    // the same uuid with the configured thresholds; nothing is exported
    ensures e.Produce? && e.item.FrameItem? ==>
              var frame := e.item.frame;
              && r.pending == s.pending[e.uuid := PendingRecord(frame)]
              && r.pending[e.uuid].file == frame.file && r.pending[e.uuid].frameIndex == frame.frameIndex
              && r.pending[e.uuid].shootTime == frame.shootTime
              && r.pending[e.uuid].totalFrames == frame.totalFrames && r.pending[e.uuid].iframe == frame.iframe
              && r.pending[e.uuid].bboxes == None && r.pending[e.uuid].labels == None
              && r.pending[e.uuid].error == None
              && r.exported == s.exported
              && |r.requests| == |s.requests| + 1 && r.requests[..|s.requests|] == s.requests
              && var req := r.requests[|s.requests|];
                 && req.uuid == e.uuid && req.image == frame.webp
                 && req.width == AsI32(frame.width) && req.height == AsI32(frame.height)
                 && req.iou == th.iou && req.score == th.score && req.iframe == frame.iframe
    // a file without frames bypasses the map: one error record is exported at once
    ensures e.Produce? && e.item.ErrItem? ==>
              && r.pending == s.pending && r.requests == s.requests
              && |r.exported| == |s.exported| + 1 && r.exported[..|s.exported|] == s.exported
              && var rec := r.exported[|s.exported|];
                 && rec.file == e.item.err.file && rec.frameIndex == 0 && rec.shootTime == None
                 && rec.totalFrames == 0 && !rec.iframe && rec.bboxes == None && rec.labels == None
                 && rec.error == Some(e.item.err.error)
    // a response to a pending uuid takes its record out of the map and exports it completed
    ensures e.Respond? && e.resp.uuid in s.pending ==>
              && r.pending == s.pending - {e.resp.uuid} && r.requests == s.requests
              && r.exported == s.exported + [Detected(s.pending[e.resp.uuid], e.resp)]
    // a response to an unknown uuid changes nothing
    ensures e.Respond? && e.resp.uuid !in s.pending ==> r == s
  {
    match e
    case Produce(FrameItem(frame), uuid) =>
      s.(pending := s.pending[uuid := PendingRecord(frame)],
         requests := s.requests + [RequestFor(frame, uuid, th)])
    case Produce(ErrItem(err), _) =>
      s.(exported := s.exported + [ErrorRecord(err)])
    case Respond(resp) =>
      if resp.uuid in s.pending then
        s.(pending := s.pending - {resp.uuid},
           exported := s.exported + [Detected(s.pending[resp.uuid], resp)])
      else s
  }

  /** A sequence of events handled in order. */
  function Run(s: StreamState, es: seq<Event>, th: Thresholds): StreamState {
    if es == [] then s else Step(Run(s, es[..|es| - 1], th), es[|es| - 1], th)
  }

  /** A second response with the same uuid finds nothing: a pending record is exported at
      most once. */
  lemma SecondResponseIgnored(s: StreamState, a: DetectResponse, b: DetectResponse, th: Thresholds)
    requires a.uuid == b.uuid
    ensures var t := Step(s, Respond(a), th); Step(t, Respond(b), th) == t
  {
  }

  // ------------------------------------------------------------------ accounting

  /** The number of records carrying boxes, that is, completed by a response. */
  function Answered(rs: seq<ExportFrame>): nat {
    if rs == [] then 0 else Answered(rs[..|rs| - 1]) + (if rs[|rs| - 1].bboxes.Some? then 1 else 0)
  }

  function Ids(rs: seq<DetectRequest>): seq<string> {
    seq(|rs|, i requires 0 <= i < |rs| => rs[i].uuid)
  }

  /** The uuid an event sends a request under, if it sends one. */
  function FrameId(e: Event): seq<string> {
    if e.Produce? && e.item.FrameItem? then [e.uuid] else []
  }

  /** The uuids drawn for frames, in order. */
  function FrameIds(es: seq<Event>): seq<string> {
    if es == [] then [] else FrameIds(es[..|es| - 1]) + FrameId(es[|es| - 1])
  }

  predicate Distinct(xs: seq<string>) {
    forall i, j :: 0 <= i < j < |xs| ==> xs[i] != xs[j]
  }

  /** Every pending uuid is that of a request sent. */
  predicate Tracked(s: StreamState) {
    forall u :: u in s.pending ==> u in Ids(s.requests)
  }

  /** Records answered or still waiting. */
  function Weight(s: StreamState): nat {
    Answered(s.exported) + |s.pending.Keys|
  }

  /** Answered and pending records together never outnumber the requests sent. The
      uuid-by-uuid pairing is `FreshStreamPairing` and `FreshStreamRecords`. */
  predicate Balanced(s: StreamState) {
    Weight(s) <= |s.requests|
  }

  lemma AnsweredSnoc(rs: seq<ExportFrame>, x: ExportFrame)
    ensures Answered(rs + [x]) == Answered(rs) + (if x.bboxes.Some? then 1 else 0)
  {
    assert (rs + [x])[..|rs|] == rs;
  }

  lemma StepFrame(s: StreamState, frame: Frame, uuid: string, th: Thresholds)
    ensures var r := Step(s, Produce(FrameItem(frame), uuid), th);
            && Ids(r.requests) == Ids(s.requests) + [uuid]
            && r.exported == s.exported
            && |r.pending.Keys| == |s.pending.Keys| + (if uuid in s.pending then 0 else 1)
  {
    var r := Step(s, Produce(FrameItem(frame), uuid), th);
    assert Ids(r.requests) == Ids(s.requests) + [uuid];
    if uuid in s.pending {
      assert r.pending.Keys == s.pending.Keys;
    } else {
      assert r.pending.Keys == s.pending.Keys + {uuid};
    }
  }

  lemma StepErr(s: StreamState, err: ErrFile, uuid: string, th: Thresholds)
    ensures var r := Step(s, Produce(ErrItem(err), uuid), th);
            r.requests == s.requests && r.pending == s.pending && Weight(r) == Weight(s)
  {
    AnsweredSnoc(s.exported, ErrorRecord(err));
  }

  lemma StepRespond(s: StreamState, resp: DetectResponse, th: Thresholds)
    ensures var r := Step(s, Respond(resp), th);
            r.requests == s.requests && r.pending.Keys <= s.pending.Keys && Weight(r) == Weight(s)
  {
    if resp.uuid in s.pending {
      var r := Step(s, Respond(resp), th);
      AnsweredSnoc(s.exported, Detected(s.pending[resp.uuid], resp));
      assert s.pending.Keys == r.pending.Keys + {resp.uuid};
    }
  }

  /** How one event moves the records answered or waiting against the requests sent: a
      frame adds a request and a waiting record (none when its uuid is already waiting),
      anything else moves records between waiting and answered without adding any. */
  lemma StepAccounting(s: StreamState, e: Event, th: Thresholds)
    ensures var r := Step(s, e, th);
            && Ids(r.requests) == Ids(s.requests) + FrameId(e)
            && (Tracked(s) ==> Tracked(r))
            && Weight(r) == Weight(s) + (if e.Produce? && e.uuid in s.pending then 0 else |FrameId(e)|)
  {
    match e {
      case Produce(FrameItem(frame), uuid) => StepFrame(s, frame, uuid, th);
      case Produce(ErrItem(err), uuid) => StepErr(s, err, uuid, th);
      case Respond(resp) => StepRespond(s, resp, th);
    }
  }

  /** However responses and items interleave, and whatever uuids are drawn, the stream never
      holds or exports more completed-or-pending records than requests it sent; pending uuids
      are always ones that were requested, and the requests are exactly the frames' uuids. */
  lemma {:induction false} RunBalanced(s: StreamState, es: seq<Event>, th: Thresholds)
    requires Tracked(s) && Balanced(s)
    ensures var r := Run(s, es, th);
            Tracked(r) && Balanced(r) && Ids(r.requests) == Ids(s.requests) + FrameIds(es)
  {
    if es != [] {
      var p := es[..|es| - 1];
      RunBalanced(s, p, th);
      StepAccounting(Run(s, p, th), es[|es| - 1], th);
    }
  }

  lemma LastIsFresh(xs: seq<string>, u: string)
    requires Distinct(xs + [u])
    ensures u !in xs
  {
    forall i | 0 <= i < |xs|
      ensures xs[i] != u
    {
      assert xs[i] == (xs + [u])[i] && u == (xs + [u])[|xs|];
    }
  }

  /** When the uuids drawn are all different from each other and from those already sent,
      answered and pending records together number exactly the requests sent. Which record
      answers which request is `FreshStreamPairing` and `FreshStreamRecords`. */
  lemma {:induction false} RunConserves(s: StreamState, es: seq<Event>, th: Thresholds)
    requires Tracked(s) && Weight(s) == |s.requests|
    requires Distinct(Ids(s.requests) + FrameIds(es))
    ensures var r := Run(s, es, th); Weight(r) == |r.requests|
  {
    if es != [] {
      var p := es[..|es| - 1];
      var e := es[|es| - 1];
      var all := Ids(s.requests) + FrameIds(es);
      var before := Ids(s.requests) + FrameIds(p);
      assert all == before + FrameId(e);
      assert Distinct(before) by {
        forall i, j | 0 <= i < j < |before| ensures before[i] != before[j] {
          assert before[i] == all[i] && before[j] == all[j];
        }
      }
      RunConserves(s, p, th);
      RunBalanced(s, p, th);
      var q := Run(s, p, th);
      if e.Produce? && e.item.FrameItem? {
        LastIsFresh(before, e.uuid);
      }
      StepAccounting(q, e, th);
    }
  }

  /** From a fresh stream with all frame uuids different: one request per frame, and each
      is either answered once or still pending. */
  lemma FreshStreamConserves(es: seq<Event>, th: Thresholds)
    requires Distinct(FrameIds(es))
    ensures var r := Run(StreamState(map[], [], []), es, th);
            |r.requests| == |FrameIds(es)| && Weight(r) == |r.requests|
  {
    var s := StreamState(map[], [], []);
    assert Ids([]) + FrameIds(es) == FrameIds(es);
    RunBalanced(s, es, th);
    RunConserves(s, es, th);
  }

  // ------------------------------------------------------------------ pairing by uuid

  /** The uuids whose pending record a response completed, in the order the responses
      arrived. */
  function AnsweredIds(s: StreamState, es: seq<Event>, th: Thresholds): seq<string> {
    if es == [] then []
    else
      var p, e := es[..|es| - 1], es[|es| - 1];
      AnsweredIds(s, p, th) +
      (if e.Respond? && e.resp.uuid in Run(s, p, th).pending then [e.resp.uuid] else [])
  }

  lemma DistinctPrefix(xs: seq<string>, ys: seq<string>)
    requires Distinct(xs + ys)
    ensures Distinct(xs)
  {
    forall i, j | 0 <= i < j < |xs|
      ensures xs[i] != xs[j]
    {
      assert xs[i] == (xs + ys)[i] && xs[j] == (xs + ys)[j];
    }
  }

  lemma DistinctSnoc(xs: seq<string>, u: string)
    requires Distinct(xs) && u !in xs
    ensures Distinct(xs + [u])
  {
    var ys := xs + [u];
    forall i, j | 0 <= i < j < |ys|
      ensures ys[i] != ys[j]
    {
      assert ys[i] == xs[i];
      if j < |xs| { assert ys[j] == xs[j]; }
    }
  }

  /** From a fresh stream with all frame uuids different, requests and responses pair up
      by uuid: every frame's uuid is either answered, exactly once, or still pending, never
      both; no other uuid is ever answered or pending; and as many exported records carry
      boxes as there are answered uuids (`FreshStreamRecords` says which records). */
  lemma {:induction false} FreshStreamPairing(es: seq<Event>, th: Thresholds)
    requires Distinct(FrameIds(es))
    ensures var s := StreamState(map[], [], []);
            var r, a := Run(s, es, th), AnsweredIds(s, es, th);
            && Distinct(a)
            && (forall u :: u in FrameIds(es) <==> u in a || u in r.pending)
            && (forall u :: u in a ==> u !in r.pending)
            && Answered(r.exported) == |a|
  {
    var s := StreamState(map[], [], []);
    if es != [] {
      var p, e := es[..|es| - 1], es[|es| - 1];
      DistinctPrefix(FrameIds(p), FrameId(e));
      FreshStreamPairing(p, th);
      var q, b := Run(s, p, th), AnsweredIds(s, p, th);
      var r, a := Run(s, es, th), AnsweredIds(s, es, th);
      match e {
        case Produce(FrameItem(frame), uuid) =>
          LastIsFresh(FrameIds(p), uuid);
          assert a == b;
        case Produce(ErrItem(err), _) =>
          AnsweredSnoc(q.exported, ErrorRecord(err));
          assert a == b;
        case Respond(resp) =>
          if resp.uuid in q.pending {
            AnsweredSnoc(q.exported, Detected(q.pending[resp.uuid], resp));
            DistinctSnoc(b, resp.uuid);
          } else {
            assert a == b;
          }
      }
    }
  }

  /** The frame most recently sent under `u`, if any. */
  function FrameOf(es: seq<Event>, u: string): Option<Frame> {
    if es == [] then None
    else
      var e := es[|es| - 1];
      if e.Produce? && e.item.FrameItem? && e.uuid == u then Some(e.item.frame)
      else FrameOf(es[..|es| - 1], u)
  }

  /** The records that carry boxes, in order. */
  function Boxed(rs: seq<ExportFrame>): seq<ExportFrame> {
    if rs == [] then []
    else Boxed(rs[..|rs| - 1]) + (if rs[|rs| - 1].bboxes.Some? then [rs[|rs| - 1]] else [])
  }

  /** For each response that finds its uuid pending on a fresh stream, the record of the
      frame sent under that uuid completed by that response. */
  function Completions(es: seq<Event>, th: Thresholds): seq<ExportFrame> {
    if es == [] then []
    else
      var p, e := es[..|es| - 1], es[|es| - 1];
      Completions(p, th) +
      (if e.Respond? && e.resp.uuid in Run(StreamState(map[], [], []), p, th).pending
          && FrameOf(p, e.resp.uuid).Some?
       then [Detected(PendingRecord(FrameOf(p, e.resp.uuid).value), e.resp)]
       else [])
  }

  lemma BoxedSnoc(rs: seq<ExportFrame>, x: ExportFrame)
    ensures Boxed(rs + [x]) == Boxed(rs) + (if x.bboxes.Some? then [x] else [])
  {
    assert (rs + [x])[..|rs|] == rs;
  }

  /** From a fresh stream, whatever the uuids: every pending record is that of the frame
      last sent under its uuid, and the exported records that carry boxes are, in order,
      exactly those records completed by the responses that answered them, one per
      answered uuid. */
  lemma {:induction false} FreshStreamRecords(es: seq<Event>, th: Thresholds)
    ensures var s := StreamState(map[], [], []);
            var r := Run(s, es, th);
            && (forall u :: u in r.pending ==>
                  FrameOf(es, u).Some? && r.pending[u] == PendingRecord(FrameOf(es, u).value))
            && Boxed(r.exported) == Completions(es, th)
            && |Completions(es, th)| == |AnsweredIds(s, es, th)|
  {
    var s := StreamState(map[], [], []);
    if es != [] {
      var p, e := es[..|es| - 1], es[|es| - 1];
      FreshStreamRecords(p, th);
      var q := Run(s, p, th);
      match e {
        case Produce(FrameItem(frame), uuid) =>
        case Produce(ErrItem(err), _) =>
          BoxedSnoc(q.exported, ErrorRecord(err));
        case Respond(resp) =>
          if resp.uuid in q.pending {
            BoxedSnoc(q.exported, Detected(q.pending[resp.uuid], resp));
          }
      }
    }
  }

  // ------------------------------------------------------------------ the stream as an object

  /** The shared state of the two halves of the stream in `process`: the outbound half
      submits items, the inbound half receives responses. */
  class DetectStream {
    const thresholds: Thresholds
    var pending: map<string, ExportFrame>
    var requests: seq<DetectRequest>
    var exported: seq<ExportFrame>

    function State(): StreamState
      reads this
    {
      StreamState(pending, requests, exported)
    }

    constructor(th: Thresholds)
      ensures thresholds == th && pending == map[] && requests == [] && exported == []
    {
      thresholds := th;
      pending := map[];
      requests := [];
      exported := [];
    }

    /** A frame from the media workers: record it as pending under `uuid` and send it. */
    method Submit(frame: Frame, uuid: string) returns (req: DetectRequest)
      modifies this
      ensures State() == Step(old(State()), Produce(FrameItem(frame), uuid), thresholds)
      ensures req == requests[|requests| - 1] && req.uuid == uuid
      ensures req.image == frame.webp && req.iframe == frame.iframe
    {
      pending := pending[uuid := PendingRecord(frame)];
      req := RequestFor(frame, uuid, thresholds);
      requests := requests + [req];
    }

    /** A file without frames: export its error record at once. */
    method SubmitErr(err: ErrFile)
      modifies this
      ensures State() == Step(old(State()), Produce(ErrItem(err), ""), thresholds)
    {
      exported := exported + [ErrorRecord(err)];
    }

    /** A response: complete and forward its record when its uuid is pending. */
    method Receive(resp: DetectResponse) returns (forwarded: Option<ExportFrame>)
      modifies this
      ensures State() == Step(old(State()), Respond(resp), thresholds)
      ensures forwarded.Some? <==> resp.uuid in old(pending)
      ensures forwarded.Some? ==> exported == old(exported) + [forwarded.value]
    {
      if resp.uuid in pending {
        var frame := Detected(pending[resp.uuid], resp);
        pending := pending - {resp.uuid};
        exported := exported + [frame];
        forwarded := Some(frame);
      } else {
        forwarded := None;
      }
    }

    /** Handle events as they arrive, in order. */
    method Serve(es: seq<Event>)
      modifies this
      ensures State() == Run(old(State()), es, thresholds)
    {
      var i := 0;
      while i < |es|
        invariant 0 <= i <= |es|
        invariant State() == Run(old(State()), es[..i], thresholds)
      {
        assert es[..i + 1][..i] == es[..i];
        match es[i] {
          case Produce(FrameItem(frame), uuid) =>
            var _ := Submit(frame, uuid);
          case Produce(ErrItem(err), _) =>
            SubmitErr(err);
          case Respond(resp) =>
            var _ := Receive(resp);
        }
        i := i + 1;
      }
      assert es[..|es|] == es;
    }
  }
}
