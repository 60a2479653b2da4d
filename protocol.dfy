/**
 * What the two debugger-protocol (CDP) domain agents exchange with their
 * client and their runtime. A request is handled to completion by one call
 * of an agent method; everything the method does that is observable is one
 * entry of an ordered trace: a message sent to the client (a response to a
 * request id, or a notification) or a call into the runtime. Serialising a
 * message to JSON is not part of this model: a message is its fields.
 */
module Protocol {

  datatype Option<T> = None | Some(value: T)

  /** The error codes the agents use in error responses. */
  datatype ErrorCode = InvalidRequest | ServerError

  /** A position in a script, as the runtime's debugger reports it. */
  datatype SourceLocation = SourceLocation(fileId: nat, fileName: string)

  /** The wire form of a runtime value handed to the client ("remote object");
      an empty type means the value could not be described. */
  datatype RemoteObject = RemoteObject(kind: string, objectId: string)

  datatype Message =
    // Responses: each answers the request with the same id.
    | OkResponse(id: int)
    | ErrorResponse(id: int, code: ErrorCode, message: string)
    | GetObjectByHeapObjectIdResponse(id: int, result: RemoteObject)
    | GetHeapObjectIdResponse(id: int, heapSnapshotObjectId: string)
    // HeapProfiler notifications.
    | ReportHeapSnapshotProgress(done: nat, total: nat, finished: bool)
    | AddHeapSnapshotChunk(chunk: string)
    | LastSeenObjectId(lastSeenObjectId: nat, timestampMicros: int)
    | HeapStatsUpdate(statsUpdate: seq<int>)
    // Debugger notifications.
    | PausedNotification(reason: string, callFrames: seq<SourceLocation>)
    | ResumedNotification
    | ScriptParsedNotification(scriptId: string, url: string, executionContextId: int, sourceMapURL: Option<string>)

  /** A response, as opposed to a notification. */
  predicate IsResponse(m: Message)
  {
    m.OkResponse? || m.ErrorResponse? || m.GetObjectByHeapObjectIdResponse? || m.GetHeapObjectIdResponse?
  }

  /** One observable step of an agent: a message to the client, or a call
      into the runtime (whose calls each agent lists in its own datatype). */
  datatype Effect<Call> = Send(msg: Message) | Invoke(call: Call)

  /** The number of responses in a trace: none exactly when the trace
      holds only notifications and runtime calls. */
  function ResponseCount<C>(t: seq<Effect<C>>): (n: nat)
    ensures n <= |t|
    ensures n == 0 <==> NoResponse(t)
  {
    if t == [] then 0
    else
      var front := t[..|t| - 1];
      assert forall i :: 0 <= i < |front| ==> front[i] == t[i];
      ResponseCount(front) + (if t[|t| - 1].Send? && IsResponse(t[|t| - 1].msg) then 1 else 0)
  }

  /** Counting responses is additive over concatenation of traces. */
  lemma {:induction false} ResponseCountConcat<C>(a: seq<Effect<C>>, b: seq<Effect<C>>)
    ensures ResponseCount(a + b) == ResponseCount(a) + ResponseCount(b)
    decreases |b|
  {
    if b == [] {
      assert a + b == a;
    } else {
      var b' := b[..|b| - 1];
      assert (a + b)[..|a + b| - 1] == a + b';
      ResponseCountConcat(a, b');
    }
  }

  /** A trace with no response in it: only notifications and runtime calls. */
  predicate NoResponse<C>(t: seq<Effect<C>>)
  {
    forall i :: 0 <= i < |t| ==> !(t[i].Send? && IsResponse(t[i].msg))
  }

  // ---------------------------------------------------------------------
  // Decimal text of a non-negative integer, as an output stream or
  // std::to_string writes it: no sign, no leading zero.
  // ---------------------------------------------------------------------

  predicate IsDigit(c: char)
  {
    '0' <= c <= '9'
  }

  function DigitChar(d: nat): (c: char)
    requires d < 10
    ensures IsDigit(c)
  {
    ('0' as int + d) as char
  }

  function Decimal(n: nat): (s: string)
    ensures |s| >= 1 && forall i :: 0 <= i < |s| ==> IsDigit(s[i])
    decreases n
  {
    if n < 10 then [DigitChar(n)] else Decimal(n / 10) + [DigitChar(n % 10)]
  }

  /** The reading of a string of digits, the reference the text is checked
      against. */
  function DecimalValue(s: string): nat
    requires forall i :: 0 <= i < |s| ==> IsDigit(s[i])
  {
    if s == [] then 0
    else
      assert IsDigit(s[|s| - 1]);
      DecimalValue(s[..|s| - 1]) * 10 + (s[|s| - 1] as int - '0' as int)
  }

  /** The text reads back as the number: distinct numbers have distinct
      texts. */
  lemma {:induction false} DecimalRoundTrip(n: nat)
    ensures DecimalValue(Decimal(n)) == n
    decreases n
  {
    if n >= 10 {
      DecimalRoundTrip(n / 10);
      var s := Decimal(n);
      assert s[..|s| - 1] == Decimal(n / 10);
    }
  }

  /** The text starts with '0' only for zero itself. */
  lemma DecimalNoLeadingZero(n: nat)
    ensures Decimal(n)[0] == '0' <==> n == 0
    ensures n == 0 <==> Decimal(n) == "0"
  {
    if n >= 10 {
      DecimalLeadingDigit(n);
    }
  }

  lemma {:induction false} DecimalLeadingDigit(n: nat)
    requires n >= 1
    ensures Decimal(n)[0] != '0'
    decreases n
  {
    if n >= 10 {
      DecimalLeadingDigit(n / 10);
    }
  }
}
