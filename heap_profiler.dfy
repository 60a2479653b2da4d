/**
 * The HeapProfiler domain agent of API/hermes/cdp/HeapProfilerDomainAgent.cpp:
 * heap snapshots streamed to the client in chunks, object-id lookups, forced
 * collection, and a tracking session gated by one flag, during which the
 * runtime reports heap statistics through a callback.
 *
 * The runtime is reached through the calls listed in RuntimeCall, recorded
 * in the agent's trace in the order they are made; what the runtime answers
 * (lookups, the chunks a snapshot is cut into) comes in as parameters.
 */
module HeapProfiler {
  import opened Protocol

  /** The runtime instrumentation calls the agent makes. */
  datatype RuntimeCall =
    | StartTrackingHeapObjectStackTraces
    | StopTrackingHeapObjectStackTraces
    | CreateSnapshotToStream
    | CollectGarbage(cause: string)

  type Trace = seq<Effect<RuntimeCall>>

  type UInt64 = x: nat | x < 0x1_0000_0000_0000_0000

  /** A runtime value, known to the agent only through the runtime. */
  datatype JsValue = JsValue(handle: nat)

  // The requests of the domain, with the fields the agent reads.
  datatype TakeHeapSnapshotRequest = TakeHeapSnapshotRequest(id: int, reportProgress: Option<bool>)
  datatype GetObjectByHeapObjectIdRequest =
    GetObjectByHeapObjectIdRequest(id: int, objectId: string, objectGroup: Option<string>)
  datatype GetHeapObjectIdRequest = GetHeapObjectIdRequest(id: int, objectId: string)
  datatype CollectGarbageRequest = CollectGarbageRequest(id: int)
  datatype StartTrackingHeapObjectsRequest = StartTrackingHeapObjectsRequest(id: int)
  datatype StopTrackingHeapObjectsRequest = StopTrackingHeapObjectsRequest(id: int, reportProgress: Option<bool>)

  const AlreadyTrackingMessage: string := "Already tracking heap objects"
  const NotTrackingMessage: string := "Not tracking heap objects"
  const UnknownObjectMessage: string := "Unknown object"
  const RemoteObjectUnavailableMessage: string := "Remote object is not available"
  const ObjectUnavailableMessage: string := "Object is not available"
  /** The cause the agent gives the collector. */
  const GarbageCollectionCause: string := "inspector"

  /** An optional boolean flag counts only when it is present and true. */
  function ReportProgress(flag: Option<bool>): (b: bool)
    ensures b <==> flag.Some? && flag.value
  {
    flag == Some(true)
  }

  // ---------------------------------------------------------------------
  // Snapshot emission.
  // ---------------------------------------------------------------------

  /** The progress notification that announces a finished capture. */
  const FinishedProgress: Message := ReportHeapSnapshotProgress(1, 1, true)

  /** One chunk notification per chunk, in order. */
  function ChunkNotes(chunks: seq<string>): (t: Trace)
    ensures |t| == |chunks|
    ensures forall i :: 0 <= i < |t| ==> t[i] == Send(AddHeapSnapshotChunk(chunks[i]))
  {
    if chunks == [] then [] else ChunkNotes(chunks[..|chunks| - 1]) + [Send(AddHeapSnapshotChunk(chunks[|chunks| - 1]))]
  }

  /** Everything a snapshot for request reqId produces: the optional progress
      notification, the capture call, one notification per chunk the capture
      delivers, and the OK response. */
  function SnapshotEffects(reqId: int, reportProgress: bool, chunks: seq<string>): (effects: Trace)
  {
    (if reportProgress then [Send(FinishedProgress)] else [])
      + [Invoke(CreateSnapshotToStream)] + ChunkNotes(chunks) + [Send(OkResponse(reqId))]
  }

  /** The chunk payloads of a trace, in the order they were sent. */
  function ChunksOf(t: Trace): seq<string>
  {
    if t == [] then []
    else
      var last := t[|t| - 1];
      ChunksOf(t[..|t| - 1]) + (if last.Send? && last.msg.AddHeapSnapshotChunk? then [last.msg.chunk] else [])
  }

  lemma {:induction false} ChunksOfConcat(a: Trace, b: Trace)
    ensures ChunksOf(a + b) == ChunksOf(a) + ChunksOf(b)
    decreases |b|
  {
    if b == [] {
      assert a + b == a;
    } else {
      var b' := b[..|b| - 1];
      assert (a + b)[..|a + b| - 1] == a + b';
      ChunksOfConcat(a, b');
    }
  }

  lemma {:induction false} ChunksOfChunkNotes(chunks: seq<string>)
    ensures ChunksOf(ChunkNotes(chunks)) == chunks
    decreases |chunks|
  {
    if chunks != [] {
      var t := ChunkNotes(chunks);
      assert t[..|t| - 1] == ChunkNotes(chunks[..|chunks| - 1]);
      ChunksOfChunkNotes(chunks[..|chunks| - 1]);
    }
  }

  /** The client receives the chunks exactly as the capture delivered them,
      in order, so their concatenation is the whole serialised snapshot. */
  lemma SnapshotDeliversChunks(reqId: int, reportProgress: bool, chunks: seq<string>)
    ensures ChunksOf(SnapshotEffects(reqId, reportProgress, chunks)) == chunks
  {
    var p: Trace := if reportProgress then [Send(FinishedProgress)] else [];
    var c: Trace := [Invoke(CreateSnapshotToStream)];
    var n := ChunkNotes(chunks);
    var ok: Trace := [Send(OkResponse(reqId))];
    assert SnapshotEffects(reqId, reportProgress, chunks) == p + c + n + ok;
    ChunksOfConcat(p + c + n, ok);
    ChunksOfConcat(p + c, n);
    ChunksOfConcat(p, c);
    ChunksOfChunkNotes(chunks);
    ChunksOfSingle(Send(OkResponse(reqId)));
    ChunksOfSingle(Invoke(CreateSnapshotToStream));
    ChunksOfSingle(Send(FinishedProgress));
  }

  lemma ChunksOfSingle(e: Effect<RuntimeCall>)
    ensures ChunksOf([e]) == if e.Send? && e.msg.AddHeapSnapshotChunk? then [e.msg.chunk] else []
  {
    assert [e][..0] == [];
  }

  /** A snapshot holds exactly one response, the OK for reqId, and it is the
      last thing sent; the progress notification, when asked for, is the
      first. */
  lemma SnapshotOrder(reqId: int, reportProgress: bool, chunks: seq<string>)
    ensures var t := SnapshotEffects(reqId, reportProgress, chunks);
      && t[|t| - 1] == Send(OkResponse(reqId))
      && ResponseCount(t) == 1
      && (t[0] == Send(FinishedProgress) <==> reportProgress)
  {
    var p: Trace := if reportProgress then [Send(FinishedProgress)] else [];
    var body := p + [Invoke(CreateSnapshotToStream)] + ChunkNotes(chunks);
    var t := SnapshotEffects(reqId, reportProgress, chunks);
    assert t == body + [Send(OkResponse(reqId))];
    assert NoResponse(body) by {
      forall i | 0 <= i < |body|
        ensures !(body[i].Send? && IsResponse(body[i].msg))
      {
        if i < |p| {
          assert body[i] == Send(FinishedProgress);
        } else if i == |p| {
          assert body[i] == Invoke(CreateSnapshotToStream);
        } else {
          assert body[i] == ChunkNotes(chunks)[i - |p| - 1];
        }
      }
    }
    var ok: Trace := [Send(OkResponse(reqId))];
    ResponseCountConcat(body, ok);
    assert ResponseCount(ok) == 1 by {
      assert ok[..0] == [];
    }
  }

  // ---------------------------------------------------------------------
  // Heap statistics from the tracking callback.
  // ---------------------------------------------------------------------

  /** A fragment of a heap-stats update: fragment number, number of live
      objects and their total size, each a 64-bit unsigned value. */
  datatype Fragment = Fragment(index: UInt64, count: UInt64, size: UInt64)

  /** Conversion of a 64-bit unsigned value to a 32-bit signed int: the low
      32 bits, read in two's complement. */
  function ToInt32(x: UInt64): (r: int)
    ensures -0x8000_0000 <= r < 0x8000_0000
    ensures (x - r) % 0x1_0000_0000 == 0
    ensures x < 0x8000_0000 ==> r == x
  {
    var low := x % 0x1_0000_0000;
    if low < 0x8000_0000 then low else low - 0x1_0000_0000
  }

  /** The three entries a fragment contributes. */
  function Triple(f: Fragment): seq<int>
  {
    [ToInt32(f.index), ToInt32(f.count), ToInt32(f.size)]
  }

  /** The flat statistics list: each fragment's triple, in input order. */
  function Flatten(stats: seq<Fragment>): (flat: seq<int>)
  {
    if stats == [] then [] else Flatten(stats[..|stats| - 1]) + Triple(stats[|stats| - 1])
  }

  /** The flat list is three times as long as the fragment list, and entries
      3k, 3k+1 and 3k+2 are fragment k's number, count and size. */
  lemma {:induction false} FlattenLayout(stats: seq<Fragment>)
    ensures |Flatten(stats)| == 3 * |stats|
    ensures forall k :: 0 <= k < |stats| ==> Flatten(stats)[3 * k..3 * k + 3] == Triple(stats[k])
    decreases |stats|
  {
    if stats != [] {
      var init := stats[..|stats| - 1];
      FlattenLayout(init);
      var r := Flatten(stats);
      assert r == Flatten(init) + Triple(stats[|stats| - 1]);
      forall k | 0 <= k < |stats|
        ensures r[3 * k..3 * k + 3] == Triple(stats[k])
      {
        if k < |init| {
          assert r[3 * k..3 * k + 3] == Flatten(init)[3 * k..3 * k + 3];
          assert init[k] == stats[k];
        } else {
          assert r[3 * k..3 * k + 3] == Triple(stats[|stats| - 1]);
        }
      }
    }
  }

  /** The loop of the tracking callback that fills the statistics list, three
      pushes per fragment. */
  method FlattenStats(stats: seq<Fragment>) returns (statsUpdate: seq<int>)
    ensures statsUpdate == Flatten(stats)
    ensures |statsUpdate| == 3 * |stats|
    ensures forall k :: 0 <= k < |stats| ==> statsUpdate[3 * k..3 * k + 3] == Triple(stats[k])
  {
    statsUpdate := [];
    for k := 0 to |stats|
      invariant statsUpdate == Flatten(stats[..k])
    {
      var fragment := stats[k];
      statsUpdate := statsUpdate + [ToInt32(fragment.index)];
      statsUpdate := statsUpdate + [ToInt32(fragment.count)];
      statsUpdate := statsUpdate + [ToInt32(fragment.size)];
      assert stats[..k + 1][..k] == stats[..k];
    }
    assert stats[..|stats|] == stats;
    FlattenLayout(stats);
  }

  // ---------------------------------------------------------------------
  // The tracking registration, read off the trace.
  // ---------------------------------------------------------------------

  /** Whether the runtime holds a tracking registration after the calls of t:
      the last start or stop call decides. */
  function Registered(t: Trace): (b: bool)
  {
    if t == [] then false
    else if t[|t| - 1] == Invoke(StartTrackingHeapObjectStackTraces) then true
    else if t[|t| - 1] == Invoke(StopTrackingHeapObjectStackTraces) then false
    else Registered(t[..|t| - 1])
  }

  /** Neither starts nor stops tracking. */
  predicate KeepsRegistration(u: Trace)
  {
    forall i :: 0 <= i < |u| ==>
      u[i] != Invoke(StartTrackingHeapObjectStackTraces) && u[i] != Invoke(StopTrackingHeapObjectStackTraces)
  }

  lemma {:induction false} RegisteredUnchanged(t: Trace, u: Trace)
    requires KeepsRegistration(u)
    ensures Registered(t + u) == Registered(t)
    decreases |u|
  {
    if u == [] {
      assert t + u == t;
    } else {
      var u' := u[..|u| - 1];
      assert (t + u)[..|t + u| - 1] == t + u';
      RegisteredUnchanged(t, u');
    }
  }

  lemma RegisteredAfterCall(t: Trace, c: RuntimeCall)
    ensures c == StartTrackingHeapObjectStackTraces ==> Registered(t + [Invoke(c)])
    ensures c == StopTrackingHeapObjectStackTraces ==> !Registered(t + [Invoke(c)])
  {
    assert (t + [Invoke(c)])[|t|] == Invoke(c);
  }

  /** Appending the parts of a snapshot one after the other appends the
      snapshot. */
  lemma SnapshotTrace(t: Trace, p: Trace, c: Trace, n: Trace, k: Trace)
    ensures t + p + c + n + k == t + (p + c + n + k)
  {
  }

  /** A snapshot neither starts nor stops tracking. */
  lemma SnapshotKeepsRegistration(reqId: int, reportProgress: bool, chunks: seq<string>)
    ensures KeepsRegistration(SnapshotEffects(reqId, reportProgress, chunks))
  {
    var p: Trace := if reportProgress then [Send(FinishedProgress)] else [];
    var t := SnapshotEffects(reqId, reportProgress, chunks);
    forall i | 0 <= i < |t|
      ensures t[i] != Invoke(StartTrackingHeapObjectStackTraces) && t[i] != Invoke(StopTrackingHeapObjectStackTraces)
    {
      if i < |p| {
        assert t[i] == Send(FinishedProgress);
      } else if i == |p| {
        assert t[i] == Invoke(CreateSnapshotToStream);
      } else if i < |t| - 1 {
        assert t[i] == ChunkNotes(chunks)[i - |p| - 1];
      } else {
        assert t[i] == Send(OkResponse(reqId));
      }
    }
  }

  /** The reply to a heap-object-id lookup whose unique id came out as
      snapshotId (0 standing for "none"). */
  function HeapObjectIdReply(id: int, snapshotId: nat): Message
  {
    if snapshotId != 0 then GetHeapObjectIdResponse(id, Decimal(snapshotId))
    else ErrorResponse(id, ServerError, ObjectUnavailableMessage)
  }

  /** An id is sent exactly when there is a non-zero one, as its decimal
      text, which reads back as the id and is never "0". */
  lemma HeapObjectIdReplyMeaning(id: int, snapshotId: nat)
    ensures var m := HeapObjectIdReply(id, snapshotId);
      && IsResponse(m) && m.id == id
      && (m.GetHeapObjectIdResponse? <==> snapshotId != 0)
      && (m.GetHeapObjectIdResponse? ==>
            DecimalValue(m.heapSnapshotObjectId) == snapshotId && m.heapSnapshotObjectId != "0")
      && (m.ErrorResponse? ==> m.code == ServerError && m.message == ObjectUnavailableMessage)
  {
    if snapshotId != 0 {
      DecimalRoundTrip(snapshotId);
      DecimalNoLeadingZero(snapshotId);
    }
  }

  /** The agent. The runtime registration it holds is the last start or stop
      call in its trace, and the flag always agrees with it. */
  class HeapProfilerDomainAgent {
    const executionContextId: int
    var trackingHeapObjectStackTraces: bool
    var trace: Trace

    ghost predicate Valid()
      reads this
    {
      trackingHeapObjectStackTraces == Registered(trace)
    }

    constructor (executionContextId: int)
      ensures Valid()
      ensures this.executionContextId == executionContextId
      ensures !trackingHeapObjectStackTraces && trace == []
    {
      this.executionContextId := executionContextId;
      trackingHeapObjectStackTraces := false;
      trace := [];
    }

    /** Destruction stops the runtime's tracking when a session is active;
        nothing is sent. */
    method Destroy()
      requires Valid()
      modifies this
      ensures trackingHeapObjectStackTraces == old(trackingHeapObjectStackTraces)
      ensures trace == old(trace)
        + (if old(trackingHeapObjectStackTraces) then [Invoke(StopTrackingHeapObjectStackTraces)] else [])
      ensures !Registered(trace)
    {
      if trackingHeapObjectStackTraces {
        RegisteredAfterCall(trace, StopTrackingHeapObjectStackTraces);
        trace := trace + [Invoke(StopTrackingHeapObjectStackTraces)];
      }
    }

    method TakeHeapSnapshot(req: TakeHeapSnapshotRequest, chunks: seq<string>)
      requires Valid()
      modifies this
      ensures Valid()
      ensures trackingHeapObjectStackTraces == old(trackingHeapObjectStackTraces)
      ensures trace == old(trace) + SnapshotEffects(req.id, ReportProgress(req.reportProgress), chunks)
    {
      SendSnapshot(req.id, ReportProgress(req.reportProgress), chunks);
    }

    /** Streams a snapshot to the client: the optional progress notification,
        the capture, then the OK response once the last chunk is out. */
    method SendSnapshot(reqId: int, reportProgress: bool, chunks: seq<string>)
      requires Valid()
      modifies this
      ensures Valid()
      ensures trackingHeapObjectStackTraces == old(trackingHeapObjectStackTraces)
      ensures trace == old(trace) + SnapshotEffects(reqId, reportProgress, chunks)
    {
      ghost var progress: Trace := if reportProgress then [Send(FinishedProgress)] else [];
      if reportProgress {
        trace := trace + [Send(FinishedProgress)];
      }
      assert trace == old(trace) + progress;
      CaptureSnapshot(chunks);
      trace := trace + [Send(OkResponse(reqId))];
      SnapshotTrace(old(trace), progress, [Invoke(CreateSnapshotToStream)], ChunkNotes(chunks), [Send(OkResponse(reqId))]);
      SnapshotKeepsRegistration(reqId, reportProgress, chunks);
      RegisteredUnchanged(old(trace), SnapshotEffects(reqId, reportProgress, chunks));
    }

    /** The runtime's capture into the chunking stream: it serialises the
        heap and the stream hands it to the agent's callback as `chunks`,
        one call per chunk, the last one when the stream is closed. */
    method CaptureSnapshot(chunks: seq<string>)
      modifies this
      ensures trackingHeapObjectStackTraces == old(trackingHeapObjectStackTraces)
      ensures trace == old(trace) + [Invoke(CreateSnapshotToStream)] + ChunkNotes(chunks)
    {
      trace := trace + [Invoke(CreateSnapshotToStream)];
      ghost var start := trace;
      var k := 0;
      while k < |chunks|
        invariant 0 <= k <= |chunks|
        invariant trace == start + ChunkNotes(chunks[..k])
        invariant trackingHeapObjectStackTraces == old(trackingHeapObjectStackTraces)
      {
        var more := OnSnapshotChunk(chunks[k]);
        assert chunks[..k + 1][..k] == chunks[..k];
        k := k + 1;
      }
      assert chunks[..k] == chunks;
    }

    /** The stream's callback: one chunk notification; it always asks for
        more, so a capture is never cut short. */
    method OnSnapshotChunk(chunk: string) returns (more: bool)
      modifies this
      ensures trackingHeapObjectStackTraces == old(trackingHeapObjectStackTraces)
      ensures trace == old(trace) + [Send(AddHeapSnapshotChunk(chunk))]
      ensures more
    {
      trace := trace + [Send(AddHeapSnapshotChunk(chunk))];
      more := true;
    }

    /** Looks an object up by the number its heap-object id parses to
        (objID); getObjectForID and makeRemoteObject are the runtime's. */
    method GetObjectByHeapObjectId(req: GetObjectByHeapObjectIdRequest, objID: UInt64,
                                   getObjectForID: UInt64 -> Option<JsValue>,
                                   makeRemoteObject: (JsValue, string) -> RemoteObject)
      requires Valid()
      modifies this
      ensures Valid()
      ensures trackingHeapObjectStackTraces == old(trackingHeapObjectStackTraces)
      ensures getObjectForID(objID).None? ==>
        trace == old(trace) + [Send(ErrorResponse(req.id, ServerError, UnknownObjectMessage))]
      ensures getObjectForID(objID).Some? ==>
        var remote := makeRemoteObject(getObjectForID(objID).value,
                                       if req.objectGroup.Some? then req.objectGroup.value else "");
        trace == old(trace) + [Send(if remote.kind == "" then ErrorResponse(req.id, ServerError, RemoteObjectUnavailableMessage)
                                    else GetObjectByHeapObjectIdResponse(req.id, remote))]
    {
      var val := getObjectForID(objID);
      var m: Message;
      if val.None? {
        m := ErrorResponse(req.id, ServerError, UnknownObjectMessage);
      } else {
        var group := if req.objectGroup.Some? then req.objectGroup.value else "";
        var remoteObj := makeRemoteObject(val.value, group);
        if remoteObj.kind == "" {
          m := ErrorResponse(req.id, ServerError, RemoteObjectUnavailableMessage);
        } else {
          m := GetObjectByHeapObjectIdResponse(req.id, remoteObj);
        }
      }
      RegisteredUnchanged(trace, [Send(m)]);
      trace := trace + [Send(m)];
    }

    /** The unique id of an object the client holds a handle to: objTable is
        the remote-objects table, getUniqueID the runtime's (0 for none). */
    method GetHeapObjectId(req: GetHeapObjectIdRequest, objTable: map<string, JsValue>,
                           getUniqueID: JsValue -> UInt64)
      requires Valid()
      modifies this
      ensures Valid()
      ensures trackingHeapObjectStackTraces == old(trackingHeapObjectStackTraces)
      ensures trace == old(trace)
        + [Send(HeapObjectIdReply(req.id, if req.objectId in objTable then getUniqueID(objTable[req.objectId]) else 0))]
    {
      var snapshotID: UInt64 := 0;
      if req.objectId in objTable {
        snapshotID := getUniqueID(objTable[req.objectId]);
      }
      var m: Message;
      if snapshotID != 0 {
        m := GetHeapObjectIdResponse(req.id, Decimal(snapshotID));
      } else {
        m := ErrorResponse(req.id, ServerError, ObjectUnavailableMessage);
      }
      RegisteredUnchanged(trace, [Send(m)]);
      trace := trace + [Send(m)];
    }

    method CollectGarbage(req: CollectGarbageRequest)
      requires Valid()
      modifies this
      ensures Valid()
      ensures trackingHeapObjectStackTraces == old(trackingHeapObjectStackTraces)
      ensures trace == old(trace) + [Invoke(RuntimeCall.CollectGarbage(GarbageCollectionCause)), Send(OkResponse(req.id))]
    {
      var u: Trace := [Invoke(RuntimeCall.CollectGarbage(GarbageCollectionCause)), Send(OkResponse(req.id))];
      RegisteredUnchanged(trace, u);
      trace := trace + u;
    }

    /** Starts a tracking session: the flag is set and the OK sent before the
        callback is registered, since the runtime may call it at once. */
    method StartTrackingHeapObjects(req: StartTrackingHeapObjectsRequest)
      requires Valid()
      modifies this
      ensures Valid() && trackingHeapObjectStackTraces
      ensures old(trackingHeapObjectStackTraces) ==>
        trace == old(trace) + [Send(ErrorResponse(req.id, InvalidRequest, AlreadyTrackingMessage))]
      ensures !old(trackingHeapObjectStackTraces) ==>
        trace == old(trace) + [Send(OkResponse(req.id)), Invoke(StartTrackingHeapObjectStackTraces)]
    {
      if trackingHeapObjectStackTraces {
        RegisteredUnchanged(trace, [Send(ErrorResponse(req.id, InvalidRequest, AlreadyTrackingMessage))]);
        trace := trace + [Send(ErrorResponse(req.id, InvalidRequest, AlreadyTrackingMessage))];
        return;
      }
      trackingHeapObjectStackTraces := true;
      trace := trace + [Send(OkResponse(req.id))];
      RegisteredAfterCall(trace, StartTrackingHeapObjectStackTraces);
      trace := trace + [Invoke(StartTrackingHeapObjectStackTraces)];
    }

    /** The tracking callback, which the runtime calls only while the
        registration is held: the last-seen id first, then the statistics. */
    method OnHeapStatsUpdate(lastSeenObjectId: UInt64, timestampMicros: int, stats: seq<Fragment>)
      requires Valid() && trackingHeapObjectStackTraces
      modifies this
      ensures Valid() && trackingHeapObjectStackTraces
      ensures trace == old(trace)
        + [Send(LastSeenObjectId(lastSeenObjectId, timestampMicros)), Send(HeapStatsUpdate(Flatten(stats)))]
    {
      RegisteredUnchanged(trace, [Send(LastSeenObjectId(lastSeenObjectId, timestampMicros))]);
      trace := trace + [Send(LastSeenObjectId(lastSeenObjectId, timestampMicros))];
      var statsUpdate := FlattenStats(stats);
      RegisteredUnchanged(trace, [Send(HeapStatsUpdate(statsUpdate))]);
      trace := trace + [Send(HeapStatsUpdate(statsUpdate))];
    }

    /** Ends the session: the callback is unregistered and the flag cleared
        before the final snapshot, whose OK answers the request. */
    method StopTrackingHeapObjects(req: StopTrackingHeapObjectsRequest, chunks: seq<string>)
      requires Valid()
      modifies this
      ensures Valid() && !trackingHeapObjectStackTraces
      ensures !old(trackingHeapObjectStackTraces) ==>
        trace == old(trace) + [Send(ErrorResponse(req.id, InvalidRequest, NotTrackingMessage))]
      ensures old(trackingHeapObjectStackTraces) ==>
        trace == old(trace) + [Invoke(StopTrackingHeapObjectStackTraces)]
                 + SnapshotEffects(req.id, ReportProgress(req.reportProgress), chunks)
    {
      if !trackingHeapObjectStackTraces {
        RegisteredUnchanged(trace, [Send(ErrorResponse(req.id, InvalidRequest, NotTrackingMessage))]);
        trace := trace + [Send(ErrorResponse(req.id, InvalidRequest, NotTrackingMessage))];
        return;
      }
      RegisteredAfterCall(trace, StopTrackingHeapObjectStackTraces);
      trace := trace + [Invoke(StopTrackingHeapObjectStackTraces)];
      trackingHeapObjectStackTraces := false;
      SendSnapshot(req.id, ReportProgress(req.reportProgress), chunks);
    }
  }
}
