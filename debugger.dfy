/**
 * The Debugger domain agent of API/hermes/cdp/DebuggerDomainAgent.cpp: a
 * small state machine over `enabled` and `paused` that answers enable,
 * disable, pause and resume requests, reports scripts to the client and
 * reacts to the events the runtime's debugger delivers through a callback.
 *
 * What the agent asks the runtime (the loaded scripts, whether it waits for
 * a command, the current stack, source-map URLs) is a RuntimeView parameter;
 * the calls it makes into the runtime are recorded in its trace.
 */
module Debugger {
  import opened Protocol

  /** The id under which the runtime keeps an event callback. */
  datatype CallbackId = InvalidCallbackId | CallbackId(n: nat)

  /** The only command the agent gives the paused runtime. */
  datatype Command = ContinueExecution

  /** The debugger calls the agent makes. AddDebuggerEventCallback records
      the id the runtime assigns to the new callback. */
  datatype RuntimeCall =
    | SetShouldPauseOnScriptLoad(flag: bool)
    | AddDebuggerEventCallback(newId: nat)
    | RemoveDebuggerEventCallback(id: CallbackId)
    | DeleteAllBreakpoints
    | TriggerExplicitAsyncPause
    | SetNextCommand(command: Command)

  type Trace = seq<Effect<RuntimeCall>>

  datatype DebuggerEventType =
    | ScriptLoaded | Exception | EvalComplete | Resumed
    | DebuggerStatement | Breakpoint | StepFinish | ExplicitPause

  /** What the runtime answers when the agent asks it: the scripts loaded so
      far, whether execution is stopped waiting for a command, the call
      stack (innermost frame first) and the source-map URL of each file
      ("" when there is none). */
  datatype RuntimeView = RuntimeView(
    loadedScripts: seq<SourceLocation>,
    isWaitingForCommand: bool,
    stackTrace: seq<SourceLocation>,
    sourceMappingUrl: nat -> string)

  datatype EnableRequest = EnableRequest(id: int)
  datatype DisableRequest = DisableRequest(id: int)
  datatype PauseRequest = PauseRequest(id: int)
  datatype ResumeRequest = ResumeRequest(id: int)

  /** Hermes has one execution context. */
  const HermesExecutionContextId: int := 1
  /** The file id of a location without debug information. */
  const InvalidLocation: nat := 0xFFFF_FFFF
  const PauseReason: string := "other"

  const AlreadyEnabledMessage: string := "Debugger domain already enabled"
  const NotEnabledMessage: string := "Debugger domain not enabled"
  const NotPausedMessage: string := "Debugger is not paused"

  // ---------------------------------------------------------------------
  // Notifications.
  // ---------------------------------------------------------------------

  /** The scriptParsed notification for a script location. */
  function ScriptParsedNote(loc: SourceLocation, sourceMappingUrl: nat -> string): Message
  {
    var url := sourceMappingUrl(loc.fileId);
    ScriptParsedNotification(Decimal(loc.fileId), loc.fileName, HermesExecutionContextId,
                             if url != "" then Some(url) else None)
  }

  /** The script id reads back as the file id, and a source-map URL is
      attached exactly when the runtime has a non-empty one. */
  lemma ScriptParsedNoteMeaning(loc: SourceLocation, sourceMappingUrl: nat -> string)
    ensures var m := ScriptParsedNote(loc, sourceMappingUrl);
      && !IsResponse(m)
      && DecimalValue(m.scriptId) == loc.fileId && m.url == loc.fileName
      && m.executionContextId == HermesExecutionContextId
      && (m.sourceMapURL.Some? <==> sourceMappingUrl(loc.fileId) != "")
      && (m.sourceMapURL.Some? ==> m.sourceMapURL.value == sourceMappingUrl(loc.fileId))
  {
    DecimalRoundTrip(loc.fileId);
  }

  /** One scriptParsed notification per script, in list order. */
  function ScriptNotes(scripts: seq<SourceLocation>, sourceMappingUrl: nat -> string): (t: Trace)
    ensures |t| == |scripts|
    ensures forall i :: 0 <= i < |t| ==> t[i] == Send(ScriptParsedNote(scripts[i], sourceMappingUrl))
  {
    if scripts == [] then []
    else
      var last := scripts[|scripts| - 1];
      ScriptNotes(scripts[..|scripts| - 1], sourceMappingUrl) + [Send(ScriptParsedNote(last, sourceMappingUrl))]
  }

  function PausedNote(view: RuntimeView): Message
  {
    PausedNotification(PauseReason, view.stackTrace)
  }

  /** What a successful enable produces: the OK response, the scripts
      already loaded, pausing on script load, the event callback, and a
      paused notification when the runtime is already stopped. */
  function EnableEffects(id: int, view: RuntimeView, newId: nat): (effects: Trace)
  {
    [Send(OkResponse(id))]
      + ScriptNotes(view.loadedScripts, view.sourceMappingUrl)
      + [Invoke(SetShouldPauseOnScriptLoad(true)), Invoke(AddDebuggerEventCallback(newId))]
      + (if view.isWaitingForCommand then [Send(PausedNote(view))] else [])
  }

  /** A successful enable answers first and only once; then come the
      scripts, in list order, and the paused notification comes last and
      only when the runtime waits for a command. */
  lemma EnableOrder(id: int, view: RuntimeView, newId: nat)
    ensures var t := EnableEffects(id, view, newId);
      var n := |view.loadedScripts|;
      && t[0] == Send(OkResponse(id))
      && ResponseCount(t) == 1
      && t[1..n + 1] == ScriptNotes(view.loadedScripts, view.sourceMappingUrl)
      && (t[|t| - 1] == Send(PausedNote(view)) <==> view.isWaitingForCommand)
  {
    var notes := ScriptNotes(view.loadedScripts, view.sourceMappingUrl);
    var tail: Trace := [Invoke(SetShouldPauseOnScriptLoad(true)), Invoke(AddDebuggerEventCallback(newId))]
      + (if view.isWaitingForCommand then [Send(PausedNote(view))] else []);
    var ok: Trace := [Send(OkResponse(id))];
    var t := EnableEffects(id, view, newId);
    assert t == ok + (notes + tail);
    assert t[1..|notes| + 1] == notes;
    assert NoResponse(notes + tail) by {
      forall i | 0 <= i < |notes + tail|
        ensures !((notes + tail)[i].Send? && IsResponse((notes + tail)[i].msg))
      {
        if i < |notes| {
          assert (notes + tail)[i] == notes[i];
        } else {
          assert (notes + tail)[i] == tail[i - |notes|];
        }
      }
    }
    ResponseCountConcat(ok, notes + tail);
    assert ResponseCount(ok) == 1 by {
      assert ok[..0] == [];
    }
  }

  /** What a newly loaded script produces: a scriptParsed notification for
      the script of the innermost frame, when there is a frame and its
      location carries debug information. */
  function NewScriptEffects(view: RuntimeView): (effects: Trace)
  {
    if |view.stackTrace| > 0 && view.stackTrace[0].fileId != InvalidLocation
    then [Send(ScriptParsedNote(view.stackTrace[0], view.sourceMappingUrl))]
    else []
  }

  /** A script load is reported exactly when the innermost frame has debug
      information, and then by a single notification naming that frame's
      file; no response is sent. */
  lemma NewScriptEffectsMeaning(view: RuntimeView)
    ensures var t := NewScriptEffects(view);
      && ResponseCount(t) == 0
      && (|t| == 1 <==> |view.stackTrace| > 0 && view.stackTrace[0].fileId != InvalidLocation)
      && (|t| != 1 ==> t == [])
      && (|t| == 1 ==> t[0].Send? && DecimalValue(t[0].msg.scriptId) == view.stackTrace[0].fileId
                       && t[0].msg.url == view.stackTrace[0].fileName)
  {
    var t := NewScriptEffects(view);
    if |t| == 1 {
      ScriptParsedNoteMeaning(view.stackTrace[0], view.sourceMappingUrl);
      assert t[..0] == [];
    }
  }

  // ---------------------------------------------------------------------
  // The event callbacks the runtime holds for this agent.
  // ---------------------------------------------------------------------

  /** The callbacks registered after one more effect. Removing with the
      invalid id removes nothing. */
  function Step(r: set<nat>, e: Effect<RuntimeCall>): (ids: set<nat>)
  {
    if e.Invoke? && e.call.AddDebuggerEventCallback? then r + {e.call.newId}
    else if e.Invoke? && e.call.RemoveDebuggerEventCallback? && e.call.id.CallbackId? then r - {e.call.id.n}
    else r
  }

  /** The ids of the agent's callbacks still registered after the calls of
      t. */
  function Registrations(t: Trace): (ids: set<nat>)
  {
    if t == [] then {} else Step(Registrations(t[..|t| - 1]), t[|t| - 1])
  }

  lemma RegistrationsStep(t: Trace, e: Effect<RuntimeCall>)
    ensures Registrations(t + [e]) == Step(Registrations(t), e)
  {
    assert (t + [e])[..|t|] == t;
  }

  /** Neither adds nor removes a callback. */
  predicate KeepsRegistrations(u: Trace)
  {
    forall i :: 0 <= i < |u| ==>
      !(u[i].Invoke? && (u[i].call.AddDebuggerEventCallback? || u[i].call.RemoveDebuggerEventCallback?))
  }

  lemma {:induction false} RegistrationsUnchanged(t: Trace, u: Trace)
    requires KeepsRegistrations(u)
    ensures Registrations(t + u) == Registrations(t)
    decreases |u|
  {
    if u == [] {
      assert t + u == t;
    } else {
      var u' := u[..|u| - 1];
      assert (t + u)[..|t + u| - 1] == t + u';
      RegistrationsUnchanged(t, u');
    }
  }

  lemma ScriptNotesKeepRegistrations(scripts: seq<SourceLocation>, sourceMappingUrl: nat -> string)
    ensures KeepsRegistrations(ScriptNotes(scripts, sourceMappingUrl))
  {
  }

  /** The agent. With the callback id kept, the callbacks the runtime holds
      for it are exactly the one of the current enable while enabled, and
      none while disabled. */
  class DebuggerDomainAgent {
    var debuggerEventCallbackId: CallbackId
    var enabled: bool
    var paused: bool
    var trace: Trace

    ghost predicate Valid()
      reads this
    {
      && (enabled ==> debuggerEventCallbackId.CallbackId? && Registrations(trace) == {debuggerEventCallbackId.n})
      && (!enabled ==> Registrations(trace) == {})
    }

    constructor ()
      ensures Valid()
      ensures debuggerEventCallbackId == InvalidCallbackId && !enabled && !paused && trace == []
    {
      debuggerEventCallbackId := InvalidCallbackId;
      enabled := false;
      paused := false;
      trace := [];
    }

    /** Destruction removes the callback under the stored id. With the
        corrected enable (Valid) no callback is left; as written, the removal
        under the invalid id changes nothing. */
    method Destroy()
      modifies this
      ensures enabled == old(enabled) && paused == old(paused) && debuggerEventCallbackId == old(debuggerEventCallbackId)
      ensures trace == old(trace) + [Invoke(RemoveDebuggerEventCallback(debuggerEventCallbackId))]
      ensures Registrations(trace) == Step(Registrations(old(trace)), Invoke(RemoveDebuggerEventCallback(debuggerEventCallbackId)))
      ensures old(Valid()) ==> Registrations(trace) == {}
    {
      Call(RemoveDebuggerEventCallback(debuggerEventCallbackId));
    }

    /** An event from the runtime, delivered through the registered
        callback. The source asserts that the agent is enabled; with the
        corrected enable, RegisteredMeansEnabled proves that a registered
        callback implies it. */
    method HandleDebuggerEvent(event: DebuggerEventType, view: RuntimeView)
      requires enabled
      requires event == ScriptLoaded ==> view.isWaitingForCommand
      modifies this
      ensures old(Valid()) ==> Valid()
      ensures enabled == old(enabled) && debuggerEventCallbackId == old(debuggerEventCallbackId)
      ensures event == ScriptLoaded ==>
        paused == old(paused) && trace == old(trace) + NewScriptEffects(view) + [Invoke(SetNextCommand(ContinueExecution))]
      ensures event == Resumed ==>
        !paused && trace == old(trace) + (if old(paused) then [Send(ResumedNotification)] else [])
      ensures event == ExplicitPause ==>
        paused && trace == old(trace) + [Send(PausedNote(view))]
      ensures event !in {ScriptLoaded, Resumed, ExplicitPause} ==>
        paused == old(paused) && trace == old(trace)
    {
      match event {
        case ScriptLoaded =>
          ProcessNewLoadedScript(view);
          Call(SetNextCommand(ContinueExecution));
        case Exception =>
        case EvalComplete =>
        case Resumed =>
          if paused {
            SendNotification(ResumedNotification);
            paused := false;
          }
        case DebuggerStatement =>
        case Breakpoint =>
        case StepFinish =>
        case ExplicitPause =>
          paused := true;
          SendPausedNotification(view);
      }
    }

    /** Enables the domain and keeps the id the runtime gives the new event
        callback (newId). */
    method Enable(req: EnableRequest, view: RuntimeView, newId: nat)
      modifies this
      ensures enabled
      ensures old(Valid()) ==> Valid()
      ensures old(enabled) ==>
        && paused == old(paused) && debuggerEventCallbackId == old(debuggerEventCallbackId)
        && trace == old(trace) + [Send(ErrorResponse(req.id, InvalidRequest, AlreadyEnabledMessage))]
      ensures !old(enabled) ==>
        && paused == (old(paused) || view.isWaitingForCommand)
        && debuggerEventCallbackId == CallbackId(newId)
        && trace == old(trace) + EnableEffects(req.id, view, newId)
    {
      if enabled {
        SendResponse(ErrorResponse(req.id, InvalidRequest, AlreadyEnabledMessage));
        return;
      }
      enabled := true;
      SendResponse(OkResponse(req.id));
      SendLoadedScripts(view);
      Call(SetShouldPauseOnScriptLoad(true));
      Call(AddDebuggerEventCallback(newId));
      debuggerEventCallbackId := CallbackId(newId);
      if view.isWaitingForCommand {
        paused := true;
        SendPausedNotification(view);
      }
      EnableTrace(old(trace), req.id, view, newId);
    }

    /** Enable as the source writes it: the id the runtime returns for the
        new callback is dropped, so the stored id stays invalid. */
    method EnableAsWritten(req: EnableRequest, view: RuntimeView, newId: nat)
      modifies this
      ensures enabled && debuggerEventCallbackId == old(debuggerEventCallbackId)
      ensures old(enabled) ==>
        && paused == old(paused)
        && trace == old(trace) + [Send(ErrorResponse(req.id, InvalidRequest, AlreadyEnabledMessage))]
      ensures !old(enabled) ==>
        && paused == (old(paused) || view.isWaitingForCommand)
        && trace == old(trace) + EnableEffects(req.id, view, newId)
    {
      if enabled {
        SendResponse(ErrorResponse(req.id, InvalidRequest, AlreadyEnabledMessage));
        return;
      }
      enabled := true;
      SendResponse(OkResponse(req.id));
      SendLoadedScripts(view);
      Call(SetShouldPauseOnScriptLoad(true));
      Call(AddDebuggerEventCallback(newId));
      if view.isWaitingForCommand {
        paused := true;
        SendPausedNotification(view);
      }
      EnableTrace(old(trace), req.id, view, newId);
    }

    /** The loop of enable over the scripts loaded so far. */
    method SendLoadedScripts(view: RuntimeView)
      modifies this
      ensures enabled == old(enabled) && paused == old(paused) && debuggerEventCallbackId == old(debuggerEventCallbackId)
      ensures trace == old(trace) + ScriptNotes(view.loadedScripts, view.sourceMappingUrl)
      ensures Registrations(trace) == Registrations(old(trace))
    {
      var scripts := view.loadedScripts;
      var k := 0;
      while k < |scripts|
        invariant 0 <= k <= |scripts|
        invariant enabled == old(enabled) && paused == old(paused) && debuggerEventCallbackId == old(debuggerEventCallbackId)
        invariant trace == old(trace) + ScriptNotes(scripts[..k], view.sourceMappingUrl)
      {
        SendScriptParsedNotification(scripts[k], view);
        assert scripts[..k + 1][..k] == scripts[..k];
        k := k + 1;
      }
      assert scripts[..k] == scripts;
      ScriptNotesKeepRegistrations(scripts, view.sourceMappingUrl);
      RegistrationsUnchanged(old(trace), ScriptNotes(scripts, view.sourceMappingUrl));
    }

    method Disable(req: DisableRequest)
      modifies this
      ensures !enabled && paused == old(paused) && debuggerEventCallbackId == old(debuggerEventCallbackId)
      ensures !old(enabled) ==>
        trace == old(trace) + [Send(ErrorResponse(req.id, InvalidRequest, NotEnabledMessage))]
      ensures old(enabled) ==>
        trace == old(trace) + [Invoke(DeleteAllBreakpoints), Invoke(RemoveDebuggerEventCallback(debuggerEventCallbackId)),
                               Invoke(SetShouldPauseOnScriptLoad(false)), Send(OkResponse(req.id))]
      ensures old(enabled) ==>
        Registrations(trace) == Step(Registrations(old(trace)), Invoke(RemoveDebuggerEventCallback(debuggerEventCallbackId)))
      ensures old(Valid()) ==> Valid()
    {
      var ok := CheckDebuggerEnabled(req.id);
      if !ok {
        return;
      }
      Call(DeleteAllBreakpoints);
      Call(RemoveDebuggerEventCallback(debuggerEventCallbackId));
      Call(SetShouldPauseOnScriptLoad(false));
      enabled := false;
      SendResponse(OkResponse(req.id));
    }

    method Pause(req: PauseRequest)
      modifies this
      ensures old(Valid()) ==> Valid()
      ensures enabled == old(enabled) && paused == old(paused) && debuggerEventCallbackId == old(debuggerEventCallbackId)
      ensures !enabled ==> trace == old(trace) + [Send(ErrorResponse(req.id, InvalidRequest, NotEnabledMessage))]
      ensures enabled ==> trace == old(trace) + [Invoke(TriggerExplicitAsyncPause), Send(OkResponse(req.id))]
    {
      var ok := CheckDebuggerEnabled(req.id);
      if !ok {
        return;
      }
      Call(TriggerExplicitAsyncPause);
      SendResponse(OkResponse(req.id));
    }

    /** Resumes a paused runtime. Neither the enabled flag nor the paused
        flag is consulted: only whether the runtime waits for a command. */
    method Resume(req: ResumeRequest, view: RuntimeView)
      modifies this
      ensures old(Valid()) ==> Valid()
      ensures enabled == old(enabled) && paused == old(paused) && debuggerEventCallbackId == old(debuggerEventCallbackId)
      ensures !view.isWaitingForCommand ==>
        trace == old(trace) + [Send(ErrorResponse(req.id, InvalidRequest, NotPausedMessage))]
      ensures view.isWaitingForCommand ==>
        trace == old(trace) + [Invoke(SetNextCommand(ContinueExecution)), Send(OkResponse(req.id))]
    {
      var ok := CheckDebuggerPaused(req.id, view);
      if !ok {
        return;
      }
      Call(SetNextCommand(ContinueExecution));
      SendResponse(OkResponse(req.id));
    }

    method SendPausedNotification(view: RuntimeView)
      modifies this
      ensures enabled == old(enabled) && paused == old(paused) && debuggerEventCallbackId == old(debuggerEventCallbackId)
      ensures trace == old(trace) + [Send(PausedNote(view))]
      ensures Registrations(trace) == Registrations(old(trace))
    {
      SendNotification(PausedNote(view));
    }

    method SendScriptParsedNotification(loc: SourceLocation, view: RuntimeView)
      modifies this
      ensures enabled == old(enabled) && paused == old(paused) && debuggerEventCallbackId == old(debuggerEventCallbackId)
      ensures trace == old(trace) + [Send(ScriptParsedNote(loc, view.sourceMappingUrl))]
      ensures Registrations(trace) == Registrations(old(trace))
    {
      var sourceMappingUrl := view.sourceMappingUrl(loc.fileId);
      var note := ScriptParsedNotification(Decimal(loc.fileId), loc.fileName, HermesExecutionContextId, None);
      if sourceMappingUrl != "" {
        note := note.(sourceMapURL := Some(sourceMappingUrl));
      }
      SendNotification(note);
    }

    /** Called on a script-loaded event, while the runtime is stopped. */
    method ProcessNewLoadedScript(view: RuntimeView)
      requires view.isWaitingForCommand
      modifies this
      ensures enabled == old(enabled) && paused == old(paused) && debuggerEventCallbackId == old(debuggerEventCallbackId)
      ensures trace == old(trace) + NewScriptEffects(view)
      ensures Registrations(trace) == Registrations(old(trace))
    {
      var stackTrace := view.stackTrace;
      if |stackTrace| > 0 {
        var loc := stackTrace[0];
        if loc.fileId == InvalidLocation {
          return;
        }
        SendScriptParsedNotification(loc, view);
      }
    }

    method CheckDebuggerEnabled(id: int) returns (ok: bool)
      modifies this
      ensures ok == enabled
      ensures enabled == old(enabled) && paused == old(paused) && debuggerEventCallbackId == old(debuggerEventCallbackId)
      ensures trace == old(trace) + (if ok then [] else [Send(ErrorResponse(id, InvalidRequest, NotEnabledMessage))])
      ensures Registrations(trace) == Registrations(old(trace))
    {
      if !enabled {
        SendResponse(ErrorResponse(id, InvalidRequest, NotEnabledMessage));
        return false;
      }
      assert trace == old(trace) + [];
      return true;
    }

    /** The check without its leading assertion, which as written demands
        `paused` (see ResumeWhileRunningAsWritten). */
    method CheckDebuggerPaused(id: int, view: RuntimeView) returns (ok: bool)
      modifies this
      ensures ok == view.isWaitingForCommand
      ensures enabled == old(enabled) && paused == old(paused) && debuggerEventCallbackId == old(debuggerEventCallbackId)
      ensures trace == old(trace) + (if ok then [] else [Send(ErrorResponse(id, InvalidRequest, NotPausedMessage))])
      ensures Registrations(trace) == Registrations(old(trace))
    {
      if !view.isWaitingForCommand {
        SendResponse(ErrorResponse(id, InvalidRequest, NotPausedMessage));
        return false;
      }
      assert trace == old(trace) + [];
      return true;
    }

    method SendResponse(m: Message)
      requires IsResponse(m)
      modifies this
      ensures enabled == old(enabled) && paused == old(paused) && debuggerEventCallbackId == old(debuggerEventCallbackId)
      ensures trace == old(trace) + [Send(m)]
      ensures Registrations(trace) == Registrations(old(trace))
    {
      RegistrationsStep(trace, Send(m));
      trace := trace + [Send(m)];
    }

    method SendNotification(m: Message)
      requires !IsResponse(m)
      modifies this
      ensures enabled == old(enabled) && paused == old(paused) && debuggerEventCallbackId == old(debuggerEventCallbackId)
      ensures trace == old(trace) + [Send(m)]
      ensures Registrations(trace) == Registrations(old(trace))
    {
      RegistrationsStep(trace, Send(m));
      trace := trace + [Send(m)];
    }

    /** A call into the runtime that is not about event callbacks, or the
        add and remove calls, whose effect the caller accounts for. */
    method Call(c: RuntimeCall)
      modifies this
      ensures enabled == old(enabled) && paused == old(paused) && debuggerEventCallbackId == old(debuggerEventCallbackId)
      ensures trace == old(trace) + [Invoke(c)]
      ensures Registrations(trace) == Step(Registrations(old(trace)), Invoke(c))
    {
      RegistrationsStep(trace, Invoke(c));
      trace := trace + [Invoke(c)];
    }
  }

  /** The steps of enable, appended one after the other, append its
      effects. */
  lemma EnableTrace(t: Trace, id: int, view: RuntimeView, newId: nat)
    ensures var paused: Trace := if view.isWaitingForCommand then [Send(PausedNote(view))] else [];
      t + [Send(OkResponse(id))] + ScriptNotes(view.loadedScripts, view.sourceMappingUrl)
        + [Invoke(SetShouldPauseOnScriptLoad(true))] + [Invoke(AddDebuggerEventCallback(newId))] + paused
      == t + EnableEffects(id, view, newId)
  {
  }

  /** As written, enable then disable leaves the enable's callback with the
      runtime: disable removes under the invalid id. The callback then
      delivers events to a disabled agent, whose handler asserts it is
      enabled, and a second enable registers a second callback. */
  method EnableDisableAsWritten(view: RuntimeView, newId: nat) returns (agent: DebuggerDomainAgent)
    ensures !agent.enabled && agent.debuggerEventCallbackId == InvalidCallbackId
    ensures Registrations(agent.trace) == {newId}
  {
    agent := new DebuggerDomainAgent();
    agent.EnableAsWritten(EnableRequest(1), view, newId);
    assert agent.trace == EnableEffects(1, view, newId);
    EnableRegisters([], 1, view, newId);
    agent.Disable(DisableRequest(2));
  }

  /** As written, enable then destruction also leaves the callback
      registered. */
  method EnableDestroyAsWritten(view: RuntimeView, newId: nat) returns (agent: DebuggerDomainAgent)
    ensures agent.debuggerEventCallbackId == InvalidCallbackId
    ensures Registrations(agent.trace) == {newId}
  {
    agent := new DebuggerDomainAgent();
    agent.EnableAsWritten(EnableRequest(1), view, newId);
    assert agent.trace == EnableEffects(1, view, newId);
    EnableRegisters([], 1, view, newId);
    agent.Destroy();
  }

  /** While the agent's invariant holds, a registered callback means the
      agent is enabled: the assertion at the head of the event handler. */
  lemma RegisteredMeansEnabled(agent: DebuggerDomainAgent, id: nat)
    requires agent.Valid() && id in Registrations(agent.trace)
    ensures agent.enabled && agent.debuggerEventCallbackId == CallbackId(id)
  {
  }

  /** The assertion at the head of the paused check, as written. */
  predicate PausedAssertionAsWritten(paused: bool, isWaitingForCommand: bool)
  {
    paused
  }

  /** The assertion its message describes: a runtime that waits for a
      command has been seen to pause. */
  predicate PausedAssertionIntended(paused: bool, isWaitingForCommand: bool)
  {
    !isWaitingForCommand || paused
  }

  /** A resume request while the program runs, after an ordinary enable:
      the as-written assertion fails, although the intended one holds and
      the check answers with "Debugger is not paused". */
  method ResumeWhileRunningAsWritten(view: RuntimeView, newId: nat) returns (agent: DebuggerDomainAgent)
    requires !view.isWaitingForCommand
    ensures agent.enabled
    ensures !PausedAssertionAsWritten(agent.paused, view.isWaitingForCommand)
    ensures PausedAssertionIntended(agent.paused, view.isWaitingForCommand)
    ensures |agent.trace| > 0 && agent.trace[|agent.trace| - 1] == Send(ErrorResponse(2, InvalidRequest, NotPausedMessage))
  {
    agent := new DebuggerDomainAgent();
    agent.EnableAsWritten(EnableRequest(1), view, newId);
    agent.Resume(ResumeRequest(2), view);
  }

  /** With the id kept, enable then disable leaves no callback behind, and
      the agent's invariant holds throughout. */
  method EnableThenDisable(view: RuntimeView, newId: nat) returns (agent: DebuggerDomainAgent)
    ensures agent.Valid() && !agent.enabled && agent.debuggerEventCallbackId == CallbackId(newId)
    ensures Registrations(agent.trace) == {}
  {
    agent := new DebuggerDomainAgent();
    agent.Enable(EnableRequest(1), view, newId);
    agent.Disable(DisableRequest(2));
  }

  /** The effects of an enable register its callback and nothing else. */
  lemma EnableRegisters(t: Trace, id: int, view: RuntimeView, newId: nat)
    ensures Registrations(t + EnableEffects(id, view, newId)) == Registrations(t) + {newId}
  {
    var notes := ScriptNotes(view.loadedScripts, view.sourceMappingUrl);
    var paused: Trace := if view.isWaitingForCommand then [Send(PausedNote(view))] else [];
    var ok: Trace := [Send(OkResponse(id))];
    var pauseOnLoad: Trace := [Invoke(SetShouldPauseOnScriptLoad(true))];
    var add := Invoke(AddDebuggerEventCallback(newId));
    assert t + EnableEffects(id, view, newId) == (((t + ok) + notes) + pauseOnLoad) + [add] + paused;
    ScriptNotesKeepRegistrations(view.loadedScripts, view.sourceMappingUrl);
    RegistrationsUnchanged(t, ok);
    RegistrationsUnchanged(t + ok, notes);
    RegistrationsUnchanged((t + ok) + notes, pauseOnLoad);
    RegistrationsStep(((t + ok) + notes) + pauseOnLoad, add);
    RegistrationsUnchanged((((t + ok) + notes) + pauseOnLoad) + [add], paused);
  }
}
