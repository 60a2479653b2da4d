# Hermes: base64 encoding, `btoa`, and two CDP domain agents

This project models four parts of the Hermes JavaScript engine and proves properties of the models:

- The base64 encoder `base64Encode` (`lib/VM/JSLib/Base64Util.cpp`). It turns 8-bit or 16-bit code units into the characters of section 4 of RFC 4648, appending them to a string builder of fixed capacity, and fails on a code unit above 0xFF.
- The global function `btoa` (`lib/VM/JSLib/Base64.cpp`). It works out the output length, refuses lengths that do not fit in 32 bits, creates the builder and runs the encoder.
- The HeapProfiler domain agent (`API/hermes/cdp/HeapProfilerDomainAgent.cpp`). It handles heap snapshots streamed to the client in chunks, object-id lookups, forced collection, and a heap-tracking session whose runtime callback reports statistics.
- The Debugger domain agent (`API/hermes/cdp/DebuggerDomainAgent.cpp`). It handles enable, disable, pause and resume requests, scriptParsed and paused notifications, and the events the runtime's debugger delivers through a registered callback.

Each agent is a class with the source's fields (`trackingHeapObjectStackTraces`; `enabled`, `paused`, `debuggerEventCallbackId`). It also has a `trace`: the ordered sequence of what the agent does that can be observed. An entry is either a message sent to the client (`Send`) or a call into the runtime (`Invoke`). Every request method states the exact entries it appends.

What the runtime answers the agent comes in as parameters:

- the chunks a snapshot is cut into;
- object lookups;
- the loaded scripts;
- whether the runtime waits for a command;
- the stack.

The encoder is specified against a reference function `Encoding`. That function is proved to round-trip through a reference decoder and to have the RFC 4648 shape: alphabet characters, then exactly the padding the leftover units need. The encoder's own loop is proved to append `Encoding` on success. On failure, it is proved to append exactly what the source leaves in the builder.

Files:

- `base64_util.dfy` (module `Base64Util`): the alphabet, the reference encoding and decoding, and the string builder and encoder.
- `base64_vectors.dfy` (module `Base64Vectors`): the unit-test vectors.
- `base64.dfy` (module `Base64`): `btoa`.
- `protocol.dfy` (module `Protocol`): messages, traces, response counting, and the decimal text of ids.
- `heap_profiler.dfy` (module `HeapProfiler`).
- `debugger.dfy` (module `Debugger`).

## Model

| member | source | states |
|---|---|---|
| Base64Util.TableIsAlphabet | lib/VM/JSLib/Base64Util.cpp:16-21 | table entry k is the RFC 4648 character for value k: 'A'+k, 'a'+(k-26), '0'+(k-52), '+', '/' |
| Base64Util.TableParts | lib/VM/JSLib/Base64Util.cpp:16-21 | the table has 64 entries: the upper-case letters, then the lower-case letters, then the digits, then '+' and '/' |
| Base64Util.CharInverse | lib/VM/JSLib/Base64Util.cpp:16-21 | every table character reads back as its own index, and no table character is the pad '=' |
| Base64Util.AlphabetChars | lib/VM/JSLib/Base64Util.cpp:16-21 | a character is in the table exactly when it is a letter, a digit, '+' or '/' |
| Base64Util.EncodedLength | lib/VM/JSLib/Base64.cpp:30 | the output length for n units, ceil(n/3)*4, is a multiple of 4 |
| Base64Util.Encoding | lib/VM/JSLib/Base64Util.cpp:25-85 | the reference encoding of a byte sequence has length EncodedLength of the input length |
| Base64Util.FullGroupFields | lib/VM/JSLib/Base64Util.cpp:37-49 | the four characters of a full group are the table entries at a>>2, ((a<<4)\|(b>>4))&0x3f, ((b<<2)\|(c>>6))&0x3f and c&0x3f, written as arithmetic |
| Base64Util.TwoUnitFields | lib/VM/JSLib/Base64Util.cpp:61-84 | two leftover units give the characters at a>>2, ((a<<4)\|(b>>4))&0x3f and (b<<2)&0x3f, then one '=' |
| Base64Util.OneUnitFields | lib/VM/JSLib/Base64Util.cpp:61-71 | one leftover unit gives the characters at a>>2 and (a<<4)&0x3f, then two '=' |
| Base64Util.EncodingConcat | lib/VM/JSLib/Base64Util.cpp:32-52 | encoding is a homomorphism on inputs split at a multiple of 3: Encoding(p+q) == Encoding(p)+Encoding(q) |
| Base64Util.EncodingFront | lib/VM/JSLib/Base64Util.cpp:32-52 | the encoding of at least 3 units is the first group's quantum followed by the encoding of the rest |
| Base64Util.EncodingShape | lib/VM/JSLib/Base64Util.cpp:25-85 | every output character is a table character, except exactly the last PadCount(n) characters, which are '=' (2 for n%3==1, 1 for n%3==2, else 0) |
| Base64Util.FullQuantumShape | lib/VM/JSLib/Base64Util.cpp:46-49 | a full group yields four table characters and no pad |
| Base64Util.TwoUnitShape | lib/VM/JSLib/Base64Util.cpp:82-84 | a two-unit tail yields three table characters and one pad |
| Base64Util.OneUnitShape | lib/VM/JSLib/Base64Util.cpp:63-70 | a one-unit tail yields two table characters and two pads |
| Base64Util.FullQuantumRoundTrip | lib/VM/JSLib/Base64Util.cpp:37-49 | decoding the four characters of a full group gives back its three bytes |
| Base64Util.TwoUnitRoundTrip | lib/VM/JSLib/Base64Util.cpp:79-84 | decoding a two-unit tail's quantum gives back its two bytes |
| Base64Util.OneUnitRoundTrip | lib/VM/JSLib/Base64Util.cpp:61-70 | decoding a one-unit tail's quantum gives back its byte |
| Base64Util.DecodeEncode | lib/VM/JSLib/Base64Util.cpp:25-85 | Decoding(Encoding(s)) == s for every byte sequence, so the encoder loses nothing and distinct inputs have distinct outputs |
| Base64Util.FirstNonByte | lib/VM/JSLib/Base64Util.cpp:33-76 | the position of the first unit above 0xFF: all units before it are bytes |
| Base64Util.EncodedBeforeFailureBound | lib/VM/JSLib/Base64Util.cpp:33-78 | what the encoder has written when it fails is shorter than a full encoding and contains no pad |
| Base64Util.StringBuilder.constructor | lib/VM/JSLib/Base64.cpp:35-37 | a builder created with a capacity is empty |
| Base64Util.StringBuilder.AppendCharacter | lib/VM/JSLib/Base64Util.cpp:46-49 | appending within capacity adds exactly that character at the end |
| Base64Util.Base64Encode | lib/VM/JSLib/Base64Util.cpp:24-56 | returns true exactly when every unit is at most 0xFF; then it appends Encoding(str); otherwise it appends the complete groups before the failing one, plus the first tail character when the failure is the second tail unit |
| Base64Util.EncodeTail | lib/VM/JSLib/Base64Util.cpp:54-85 | after the loop: with 0, 1 or 2 units left, appends the rest of Encoding(str) or fails exactly as the whole encoder promises |
| Base64Util.AppendGroup | lib/VM/JSLib/Base64Util.cpp:37-51 | one loop step extends the encoding of the prefix by the four characters the source computes |
| Base64Util.AppendOneUnit | lib/VM/JSLib/Base64Util.cpp:61-71 | the one-unit tail completes the encoding |
| Base64Util.AppendTwoUnits | lib/VM/JSLib/Base64Util.cpp:61-85 | the two-unit tail completes the encoding |
| Base64Util.EncodedLengthSplit | lib/VM/JSLib/Base64.cpp:30-37 | the capacity needed for the rest after i units (i a multiple of 3) is the total less what is written, so the builder never overflows |
| Base64Util.FailsInGroup | lib/VM/JSLib/Base64Util.cpp:33-35 | a non-byte in the group at i makes the whole input invalid, with the first non-byte inside that group |
| Base64Util.FailsBefore | lib/VM/JSLib/Base64Util.cpp:33-60 | failing at a group or tail start leaves exactly the encoding of the units before it |
| Base64Util.FailsAfterFirst | lib/VM/JSLib/Base64Util.cpp:58-78 | a non-byte second tail unit leaves the prefix's encoding plus the first unit's character |
| Base64Vectors.EncodesEmpty | unittests/VMRuntime/Base64UtilTest.cpp:50-52 | "" encodes to "" |
| Base64Vectors.EncodesOneUnit | unittests/VMRuntime/Base64UtilTest.cpp:55-64 | "a" encodes to "YQ==" and the unit 1 to "AQ==" |
| Base64Vectors.EncodesTwoUnits | unittests/VMRuntime/Base64UtilTest.cpp:56-66 | "ab" encodes to "YWI=" and the units 1,0 to "AQA=" |
| Base64Vectors.EncodesGroupThenOne | unittests/VMRuntime/Base64UtilTest.cpp:57 | "abcd" encodes to "YWJjZA==" |
| Base64Vectors.EncodesGroupThenTwoLetters | unittests/VMRuntime/Base64UtilTest.cpp:58 | "abcde" encodes to "YWJjZGU=" |
| Base64Vectors.EncodesGroupThenTwo | unittests/VMRuntime/Base64UtilTest.cpp:61 | "<>?su" encodes to "PD4/c3U=" |
| Base64Vectors.EncodesOneGroup | unittests/VMRuntime/Base64UtilTest.cpp:70 | "abc" encodes to "YWJj" |
| Base64Vectors.EncodesTwoGroups | unittests/VMRuntime/Base64UtilTest.cpp:71 | "abcdef" encodes to "YWJjZGVm" |
| Base64Vectors.EncodesZeros | unittests/VMRuntime/Base64UtilTest.cpp:73-74 | the units 0,0,0 encode to "AAAA" |
| Base64Vectors.EncodesOneThenZeros | unittests/VMRuntime/Base64UtilTest.cpp:75-76 | the units 1,0,0 encode to "AQAA" |
| Base64Vectors.FailsOnSurrogates | unittests/VMRuntime/Base64UtilTest.cpp:85 | U+1F600 as UTF-16 is rejected with nothing written |
| Base64Vectors.FailsInFirstGroup | unittests/VMRuntime/Base64UtilTest.cpp:86-89 | "a😀", "ab😀" and "😀xyz" are rejected with nothing written |
| Base64Vectors.FailsOnTail | unittests/VMRuntime/Base64UtilTest.cpp:88 | "abc😀" is rejected after "YWJj" is written |
| Base64Vectors.FailsAfterGroup | unittests/VMRuntime/Base64UtilTest.cpp:90 | "abc😀xyz" is rejected after "YWJj" is written |
| Base64Vectors.FailsOnSecondOfTail | lib/VM/JSLib/Base64Util.cpp:58-78 | the units 'a',0xD83D are rejected after "Y" is written: the tail's first character precedes the check of its second unit |
| Base64.Units | lib/VM/JSLib/Base64.cpp:42-44 | the encoder reads the 8-bit storage of an ASCII string, whose units are all bytes, and the 16-bit storage otherwise |
| Base64.ExpectedLengthAsWritten | lib/VM/JSLib/Base64.cpp:30 | the length as computed in 32-bit unsigned arithmetic never exceeds UINT32_MAX |
| Base64.AsWrittenNeverTooLong | lib/VM/JSLib/Base64.cpp:30-34 | with the as-written length, the "too long" error can never be raised |
| Base64.AsWrittenAgreesBelow | lib/VM/JSLib/Base64.cpp:30 | the as-written length is correct for lengths below 3*2^30-2 |
| Base64.AsWrittenWrapsAtLimit | lib/VM/JSLib/Base64.cpp:30-37 | at 3*2^30-2 units the as-written length is 0, while the encoding takes 2^32 characters |
| Base64.ExpectedLength | lib/VM/JSLib/Base64.cpp:30 | (corrected length, see ## Findings) the expected length, computed in 64 bits, is exactly EncodedLength of the string length |
| Base64.TooLongExactly | lib/VM/JSLib/Base64.cpp:30-34 | the "too long" error fires exactly for strings of at least 3*2^30-2 units |
| Base64.Btoa | lib/VM/JSLib/Base64.cpp:20-51 | (corrected length, see ## Findings) too long gives the "too long" error; otherwise all units being bytes gives Encoding(units), and any non-byte gives the "invalid character" error |
| Base64.AsciiNeverInvalid | lib/VM/JSLib/Base64.cpp:42-43 | an ASCII string below the limit is never rejected |
| Base64.BtoaOutput | lib/VM/JSLib/Base64.cpp:30-50 | a successful result has the expected length and RFC 4648 shape |
| Protocol.ResponseCount | API/hermes/cdp/DomainAgent.h:73-80 | the number of responses is zero exactly when the trace holds no response |
| Protocol.ResponseCountConcat | API/hermes/cdp/DomainAgent.h:73-80 | response counts add over concatenated traces |
| Protocol.Decimal | API/hermes/cdp/HeapProfilerDomainAgent.cpp:112-114 | the decimal text of a number is a non-empty string of digits |
| Protocol.DecimalRoundTrip | API/hermes/cdp/HeapProfilerDomainAgent.cpp:112-114 | the decimal text reads back as the number |
| Protocol.DecimalNoLeadingZero | API/hermes/cdp/DebuggerDomainAgent.cpp:152 | the text starts with '0' exactly for zero, which is "0" |
| HeapProfiler.ReportProgress | API/hermes/cdp/HeapProfilerDomainAgent.cpp:38-192 | progress is reported exactly when the optional flag is present and true |
| HeapProfiler.ChunkNotes | API/hermes/cdp/HeapProfilerDomainAgent.cpp:62-68 | one chunk notification per chunk, in stream order |
| HeapProfiler.ChunksOfChunkNotes | API/hermes/cdp/HeapProfilerDomainAgent.cpp:62-68 | the chunks read back from the notifications are the stream's chunks |
| HeapProfiler.SnapshotDeliversChunks | API/hermes/cdp/HeapProfilerDomainAgent.cpp:41-73 | a snapshot's trace carries exactly the stream's chunks, in order: concatenated, the client receives the whole snapshot |
| HeapProfiler.SnapshotOrder | API/hermes/cdp/HeapProfilerDomainAgent.cpp:41-73 | the OK response comes last, after every chunk, and is the only response; progress comes first exactly when requested |
| HeapProfiler.ToInt32 | API/hermes/cdp/HeapProfilerDomainAgent.cpp:165-170 | the int cast keeps the value modulo 2^32 in the signed 32-bit range, and unchanged below 2^31 |
| HeapProfiler.FlattenLayout | API/hermes/cdp/HeapProfilerDomainAgent.cpp:159-174 | the flattened list is 3 times as long as the stats, and triple k is fragment k's index, count and size |
| HeapProfiler.FlattenStats | API/hermes/cdp/HeapProfilerDomainAgent.cpp:159-174 | the loop builds exactly that flattening, of the length the source asserts |
| HeapProfiler.RegisteredUnchanged | API/hermes/cdp/HeapProfilerDomainAgent.cpp:145-190 | only start or stop calls change whether the tracking callback is registered |
| HeapProfiler.RegisteredAfterCall | API/hermes/cdp/HeapProfilerDomainAgent.cpp:145-190 | a start call registers the tracking callback and a stop call unregisters it |
| HeapProfiler.SnapshotKeepsRegistration | API/hermes/cdp/HeapProfilerDomainAgent.cpp:41-73 | taking a snapshot neither starts nor stops tracking |
| HeapProfiler.HeapObjectIdReplyMeaning | API/hermes/cdp/HeapProfilerDomainAgent.cpp:107-119 | an id is sent exactly when it is non-zero, as decimal text that reads back as the id and is never "0"; otherwise the "Object is not available" error is sent |
| HeapProfiler.HeapProfilerDomainAgent.constructor | API/hermes/cdp/HeapProfilerDomainAgent.cpp:21-27 | a new agent is not tracking and has done nothing |
| HeapProfiler.HeapProfilerDomainAgent.Destroy | API/hermes/cdp/HeapProfilerDomainAgent.cpp:29-33 | stops tracking exactly when a session is open, so no callback outlives the agent |
| HeapProfiler.HeapProfilerDomainAgent.TakeHeapSnapshot | API/hermes/cdp/HeapProfilerDomainAgent.cpp:36-39 | appends SnapshotEffects for the request's id and progress flag; tracking is unchanged |
| HeapProfiler.HeapProfilerDomainAgent.SendSnapshot | API/hermes/cdp/HeapProfilerDomainAgent.cpp:41-73 | appends the optional progress notification (1 of 1, finished), the capture, the chunks, then the OK |
| HeapProfiler.HeapProfilerDomainAgent.CaptureSnapshot | API/hermes/cdp/HeapProfilerDomainAgent.cpp:59-71 | appends the capture call followed by one notification per chunk |
| HeapProfiler.HeapProfilerDomainAgent.OnSnapshotChunk | API/hermes/cdp/HeapProfilerDomainAgent.cpp:63-68 | sends the chunk and asks the stream to continue |
| HeapProfiler.HeapProfilerDomainAgent.GetObjectByHeapObjectId | API/hermes/cdp/HeapProfilerDomainAgent.cpp:75-98 | "Unknown object" when the runtime has no object for the id; "Remote object is not available" when it cannot be described in the object group (default ""); the remote object otherwise |
| HeapProfiler.HeapProfilerDomainAgent.GetHeapObjectId | API/hermes/cdp/HeapProfilerDomainAgent.cpp:100-120 | replies with HeapObjectIdReply of the unique id of the table's value, 0 when the id is not in the table |
| HeapProfiler.HeapProfilerDomainAgent.CollectGarbage | API/hermes/cdp/HeapProfilerDomainAgent.cpp:122-126 | collects with cause "inspector", then answers OK |
| HeapProfiler.HeapProfilerDomainAgent.StartTrackingHeapObjects | API/hermes/cdp/HeapProfilerDomainAgent.cpp:128-145 | an error when already tracking; otherwise flag set, OK sent, then callback registered; afterwards tracking and registered agree |
| HeapProfiler.HeapProfilerDomainAgent.OnHeapStatsUpdate | API/hermes/cdp/HeapProfilerDomainAgent.cpp:146-179 | while tracking: the last-seen id first, then the flattened statistics |
| HeapProfiler.HeapProfilerDomainAgent.StopTrackingHeapObjects | API/hermes/cdp/HeapProfilerDomainAgent.cpp:182-193 | an error when not tracking; otherwise unregisters, clears the flag and sends a snapshot answering the request |
| Debugger.ScriptParsedNoteMeaning | API/hermes/cdp/DebuggerDomainAgent.cpp:149-161 | the script id reads back as the file id, the url is the file name, the context is 1, and a source-map URL is present exactly when non-empty |
| Debugger.ScriptNotes | API/hermes/cdp/DebuggerDomainAgent.cpp:78-81 | one scriptParsed notification per loaded script, in order |
| Debugger.EnableOrder | API/hermes/cdp/DebuggerDomainAgent.cpp:69-100 | a successful enable answers OK first and only once, then reports every loaded script in order; the paused notification comes last exactly when the runtime waits for a command |
| Debugger.NewScriptEffectsMeaning | API/hermes/cdp/DebuggerDomainAgent.cpp:163-181 | a loaded script is reported, by one notification naming the innermost frame's file, exactly when there is a frame with a valid file id |
| Debugger.RegistrationsStep | API/hermes/cdp/DebuggerDomainAgent.cpp:32-112 | each add registers its id, each remove unregisters its id, and a remove with the invalid id does nothing |
| Debugger.RegistrationsUnchanged | API/hermes/cdp/DebuggerDomainAgent.cpp:32-112 | effects other than adds and removes leave the registered callbacks unchanged |
| Debugger.EnableRegisters | API/hermes/cdp/DebuggerDomainAgent.cpp:69-100 | a successful enable registers its callback and nothing else |
| Debugger.DebuggerDomainAgent.constructor | API/hermes/cdp/DebuggerDomainAgent.cpp:18-27 | a new agent is disabled, not paused, and holds the invalid callback id |
| Debugger.DebuggerDomainAgent.Destroy | API/hermes/cdp/DebuggerDomainAgent.cpp:29-33 | removes the stored callback; with the corrected enable (the agent's invariant held before), no callback is left registered |
| Debugger.DebuggerDomainAgent.HandleDebuggerEvent | API/hermes/cdp/DebuggerDomainAgent.cpp:35-67 | requires an enabled agent, the source's assertion at line 39; script load: report it and continue; resumed: notify and clear paused if paused; explicit pause: set paused and notify; others: nothing |
| Debugger.DebuggerDomainAgent.Enable | API/hermes/cdp/DebuggerDomainAgent.cpp:69-100 | an error if already enabled; otherwise appends EnableEffects, pauses if the runtime waits, and keeps the callback id (corrected), so an agent whose invariant held still satisfies it |
| Debugger.DebuggerDomainAgent.EnableAsWritten | API/hermes/cdp/DebuggerDomainAgent.cpp:69-100 | the same effects, but the stored callback id is left unchanged |
| Debugger.DebuggerDomainAgent.SendLoadedScripts | API/hermes/cdp/DebuggerDomainAgent.cpp:78-81 | the loop appends ScriptNotes of the loaded scripts |
| Debugger.DebuggerDomainAgent.Disable | API/hermes/cdp/DebuggerDomainAgent.cpp:102-121 | an error if not enabled; otherwise deletes breakpoints, removes the stored callback, stops pausing on script load, disables and answers OK |
| Debugger.DebuggerDomainAgent.Pause | API/hermes/cdp/DebuggerDomainAgent.cpp:123-130 | on any agent: an error if not enabled; otherwise triggers an explicit async pause and answers OK; the invariant is kept |
| Debugger.DebuggerDomainAgent.Resume | API/hermes/cdp/DebuggerDomainAgent.cpp:132-139 | on any agent, paused or not: "Debugger is not paused" unless the runtime waits for a command; otherwise continues execution and answers OK; the invariant is kept |
| Debugger.DebuggerDomainAgent.SendPausedNotification | API/hermes/cdp/DebuggerDomainAgent.cpp:141-147 | sends a paused notification, reason "other", with the current stack |
| Debugger.DebuggerDomainAgent.SendScriptParsedNotification | API/hermes/cdp/DebuggerDomainAgent.cpp:149-161 | sends ScriptParsedNote of the location |
| Debugger.DebuggerDomainAgent.ProcessNewLoadedScript | API/hermes/cdp/DebuggerDomainAgent.cpp:163-181 | appends NewScriptEffects |
| Debugger.DebuggerDomainAgent.CheckDebuggerEnabled | API/hermes/cdp/DebuggerDomainAgent.cpp:183-190 | true exactly when enabled; otherwise sends "Debugger domain not enabled" |
| Debugger.DebuggerDomainAgent.CheckDebuggerPaused | API/hermes/cdp/DebuggerDomainAgent.cpp:192-202 | true exactly when the runtime waits for a command; otherwise sends "Debugger is not paused" |
| Debugger.EnableDisableAsWritten | API/hermes/cdp/DebuggerDomainAgent.cpp:86-112 | as written, enable then disable leaves the agent disabled with its callback still registered |
| Debugger.EnableThenDisable | API/hermes/cdp/DebuggerDomainAgent.cpp:69-121 | with the id kept, enable then disable leaves no callback registered |
| Debugger.EnableDestroyAsWritten | API/hermes/cdp/DebuggerDomainAgent.cpp:29-92 | as written, enable then destroy leaves the agent's callback registered, because the stored id is still the invalid one |
| Debugger.RegisteredMeansEnabled | API/hermes/cdp/DebuggerDomainAgent.cpp:35-40 | under the invariant, a registered callback belongs to an enabled agent that stores its id, so the assertion at line 39 holds for every delivered event |
| Debugger.ResumeWhileRunningAsWritten | API/hermes/cdp/DebuggerDomainAgent.cpp:192-196 | after an ordinary enable, resume while the runtime runs finds `paused_` false, so the assertion as written fails while the intended one holds; the request is answered "Debugger is not paused" |

## Left out

- Converting `btoa`'s argument to a string (`toString_RJS`) and its exception are not modelled: the argument arrives as a string. The builder-allocation failure and the GC scope are not modelled either.
- `StringBuilder` is modelled as a capacity and a character sequence. The runtime's string storage, and the final `getStringPrimitive`, are not part of this model.
- Base64Util.Base64Encode: requires the builder to have room for the whole encoding, so the 32-bit loop index `i` never wraps and is modelled as a natural number. The tests, and `btoa` with the corrected 64-bit length, always give it that room. As written, from 3*2^30-2 code units the wrapped length would allocate a builder that is too small (see ## Findings).
- `uint8_t` shifts are written as division, multiplication and `% 64` on values at most 0xFF. The C++ `char` is treated as unsigned for the 8-bit storage, since ASCII strings only hold values below 0x80.
- The decoder `Decoding` is a reference used only to prove that the encoding loses nothing. Hermes has no such decoder in the modelled files.
- The test vector "less is more than more" (unittests/VMRuntime/Base64UtilTest.cpp:59-60) is not stated: a 22-character literal is too costly for the verifier as a single equation. The per-group lemmas cover each of its steps.
- The tests apply each vector to both 8-bit and 16-bit storage. The model has a single unit sequence for both, so each vector is stated once.
- JSON serialisation of messages, the outbound message callback and its synchronisation are not modelled. A message is its fields, and sending is appending to the trace.
- HeapProfiler: the `CallbackOStream` buffering into 100 KiB chunks is not modelled. The chunks arrive as a parameter, and the model proves the client receives exactly those chunks, in order, before the OK.
- HeapProfiler.HeapProfilerDomainAgent.GetObjectByHeapObjectId: `atoi` on the object id is not modelled. The parsed number arrives as a parameter, and `getObjectForID` and `makeRemoteObject` (with the remote-objects table) are functions passed in.
- HeapProfiler.HeapProfilerDomainAgent.OnHeapStatsUpdate: the timestamp is kept in microseconds. The conversion to a floating-point millisecond value is left out because floating point is outside the model.
- The tracking callback and the debugger event callback run when the runtime calls them. The model has them as methods whose requires state when the runtime may call them: while tracking, and while the callback is registered. Threads and re-entrancy are left out.
- Debugger.DebuggerDomainAgent.HandleDebuggerEvent: requires `enabled`, the assertion at DebuggerDomainAgent.cpp:39; Debugger.RegisteredMeansEnabled shows it holds whenever the callback is registered under the corrected enable. A script-loaded event also requires the runtime to wait for a command, the assertion in `processNewLoadedScript`.
- Debugger.DebuggerDomainAgent.CheckDebuggerPaused: the assertion `paused_` at DebuggerDomainAgent.cpp:193-195 is not a requires (see ## Findings). Even the intended assertion is not kept by the agent: a breakpoint or `debugger` statement stops the runtime without setting `paused_`, so the model states it only in Debugger.ResumeWhileRunningAsWritten.
- The paused notification's call frames are the stack's source locations. `makeCallFrames`, scopes and the remote-objects table of the Debugger agent are not part of this model.
- The value of `kInvalidLocation` (0xFFFFFFFF) comes from the debugger API, which is not part of this model. `kInvalidDebuggerEventCallbackID` is a separate `InvalidCallbackId` constructor rather than a number.
- Which breakpoints exist, and whether the runtime pauses on script load, are recorded only as calls in the trace.

## Findings

| source | as written | input that shows it | evidently intended | confidence | as-written member | corrected member |
|---|---|---|---|---|---|---|
| lib/VM/JSLib/Base64.cpp:30-34 | `getStringLength() + 2`, `/ 3` and `* 4` are evaluated on the 32-bit unsigned length before the result is widened to 64 bits, so `expectedLength > UINT32_MAX` can never hold | a string of 3*2^30-2 code units: the expected length wraps to 0, while the encoding needs 2^32 characters | compute in 64 bits, so that the "too long" error fires exactly from 3*2^30-2 units | low; not executed. It relies on `getStringLength` returning a 32-bit value and on the runtime admitting strings that long, and neither is part of this model | Base64.AsWrittenWrapsAtLimit | Base64.TooLongExactly, Base64.Btoa |
| API/hermes/cdp/DebuggerDomainAgent.cpp:86-92 | `enable` drops the id that `addDebuggerEventCallback_TS` returns, so `debuggerEventCallbackId_` stays invalid, and `disable` (line 112) and the destructor (line 32) remove nothing | enable, then disable: the agent is disabled but its callback stays registered, so the next runtime event reaches `handleDebuggerEvent` with `enabled_` false; a second enable registers a second callback | store the returned id in `debuggerEventCallbackId_` | medium; not executed | Debugger.EnableDisableAsWritten | Debugger.EnableThenDisable |
| API/hermes/cdp/DebuggerDomainAgent.cpp:192-196 | `checkDebuggerPaused` asserts `paused_` before asking the runtime, although its message says only that waiting for a command should imply `paused_` | enable while the runtime runs, then resume: `paused_` is false, so a debug build aborts instead of answering "Debugger is not paused" | assert `!isWaitingForCommand() \|\| paused_` | medium; not executed | Debugger.ResumeWhileRunningAsWritten | Debugger.DebuggerDomainAgent.Resume |
