/** The preview session: one state machine, its transitions and their announcements. */
module Session {
  import opened Wrappers

  datatype SessionState = Idle | Streaming | Paused
  datatype Command = Start | Pause | Resume | Stop
  datatype Refusal = NotIdle | NotStreaming | NotPaused | NoneActive

  /** The session as the manager holds it and as listeners see it. */
  datatype Snapshot = Snapshot(state: SessionState, sessionId: string, startedAt: int)

  const INITIAL := Snapshot(Idle, "", 0)

  predicate Allowed(state: SessionState, c: Command) {
    match c
    case Start => state.Idle?
    case Pause => state.Streaming?
    case Resume => state.Paused?
    case Stop => !state.Idle?
  }

  function RefusalOf(c: Command): Refusal {
    match c
    case Start => NotIdle
    case Pause => NotStreaming
    case Resume => NotPaused
    case Stop => NoneActive
  }

  function Target(c: Command): SessionState {
    match c
    case Start => Streaming
    case Pause => Paused
    case Resume => Streaming
    case Stop => Idle
  }

  /** An allowed command: the session after it, and what is announced. Stop announces the session that ended. */
  function Moved(s: Snapshot, c: Command, freshId: string, now: int): (Snapshot, Snapshot)
    requires Allowed(s.state, c)
  {
    var t := Snapshot(Target(c),
                      if c.Start? then freshId else if c.Stop? then "" else s.sessionId,
                      if c.Start? then now else s.startedAt);
    (t, if c.Stop? then t.(sessionId := s.sessionId) else t)
  }

  class Manager {
    var state: SessionState
    var sessionID: string
    var startedAt: int
    var announced: seq<Snapshot>   // what the listeners were called with

    function Abs(): Snapshot
      reads this
    {
      Snapshot(state, sessionID, startedAt)
    }

    constructor ()
      ensures Abs() == INITIAL && announced == []
    {
      state, sessionID, startedAt, announced := Idle, "", 0, [];
    }

    method Notify(snap: Snapshot)
      modifies this`announced
      ensures announced == old(announced) + [snap]
    {
      announced := announced + [snap];
    }

    /** Start; freshId is the new ULID. */
    method Start(freshId: string, now: int) returns (r: Result<Snapshot, Refusal>)
      modifies this
      ensures Outcome(old(Abs()), Command.Start, freshId, now, r, Abs(), old(announced), announced)
      ensures r.Ok? <==> old(state) == Idle
      ensures r.Ok? ==> state == Streaming && sessionID == freshId && startedAt == now
    {
      if state != Idle {
        return Err(NotIdle);
      }
      state, sessionID, startedAt := Streaming, freshId, now;
      var snap := Snapshot(state, sessionID, startedAt);
      Notify(snap);
      return Ok(snap);
    }

    method Pause() returns (r: Result<Snapshot, Refusal>)
      modifies this
      ensures Outcome(old(Abs()), Command.Pause, "", 0, r, Abs(), old(announced), announced)
      ensures r.Ok? <==> old(state) == Streaming
      ensures r.Ok? ==> state == SessionState.Paused && sessionID == old(sessionID) && startedAt == old(startedAt)
    {
      if state != Streaming {
        return Err(NotStreaming);
      }
      state := SessionState.Paused;
      var snap := Snapshot(state, sessionID, startedAt);
      Notify(snap);
      return Ok(snap);
    }

    method Resume() returns (r: Result<Snapshot, Refusal>)
      modifies this
      ensures Outcome(old(Abs()), Command.Resume, "", 0, r, Abs(), old(announced), announced)
      ensures r.Ok? <==> old(state) == SessionState.Paused
      ensures r.Ok? ==> state == Streaming && sessionID == old(sessionID) && startedAt == old(startedAt)
    {
      if state != SessionState.Paused {
        return Err(NotPaused);
      }
      state := Streaming;
      var snap := Snapshot(state, sessionID, startedAt);
      Notify(snap);
      return Ok(snap);
    }

    method Stop() returns (r: Result<Snapshot, Refusal>)
      modifies this
      ensures Outcome(old(Abs()), Command.Stop, "", 0, r, Abs(), old(announced), announced)
      ensures r.Ok? <==> old(state) != Idle
      ensures r.Ok? ==> state == Idle && sessionID == "" && r.value.sessionId == old(sessionID)
    {
      if state != Streaming && state != SessionState.Paused {
        return Err(NoneActive);
      }
      state := Idle;
      var id := sessionID;
      sessionID := "";
      var snap := Snapshot(state, sessionID, startedAt);
      snap := snap.(sessionId := id);
      Notify(snap);
      return Ok(snap);
    }
  }

  /** An allowed command moves the session and announces it once; a refused one changes and announces nothing. */
  predicate Outcome(s: Snapshot, c: Command, freshId: string, now: int, r: Result<Snapshot, Refusal>, t: Snapshot,
                    before: seq<Snapshot>, after: seq<Snapshot>)
  {
    if Allowed(s.state, c) then
      var (moved, told) := Moved(s, c, freshId, now);
      r == Ok(told) && t == moved && after == before + [told]
    else
      r == Err(RefusalOf(c)) && t == s && after == before
  }

  // ---- runs of commands ----

  datatype Request = Request(command: Command, freshId: string, now: int)

  function Next(s: Snapshot, q: Request): Snapshot {
    if Allowed(s.state, q.command) then Moved(s, q.command, q.freshId, q.now).0 else s
  }

  function After(s: Snapshot, qs: seq<Request>): Snapshot {
    if qs == [] then s else Next(After(s, qs[..|qs| - 1]), qs[|qs| - 1])
  }

  /** Where the running session was started; before the first start, nowhere. */
  function StartedBy(s: Snapshot, qs: seq<Request>): Option<Request> {
    if qs == [] then None
    else
      var last := qs[|qs| - 1];
      if Allowed(After(s, qs[..|qs| - 1]).state, last.command) && last.command.Start? then Some(last)
      else StartedBy(s, qs[..|qs| - 1])
  }

  /**
   * While a session runs or is paused, its id and start time are those of the latest successful Start,
   * whatever came since.
   */
  lemma {:induction false} SessionKeepsItsStart(qs: seq<Request>)
    ensures var s, q := After(INITIAL, qs), StartedBy(INITIAL, qs);
      if s.state.Idle? then s.sessionId == ""
      else q.Some? && s.sessionId == q.value.freshId && s.startedAt == q.value.now
  {
    if qs != [] {
      SessionKeepsItsStart(qs[..|qs| - 1]);
    }
  }

  /** Pausing a session that streams stops the stream, and resuming then gives back the very session that was paused. */
  lemma ResumeUndoesPause(s: Snapshot, p: Request, q: Request)
    requires s.state == Streaming && p.command == Pause && q.command == Resume
    ensures After(s, [p]) == s.(state := SessionState.Paused)
    ensures After(s, [p, q]) == s
  {
    assert [p][..0] == [] && [p, q][..1] == [p];
    assert After(s, [p]) == Next(s, p);
  }

  /** A refused request changes nothing: what a state accepts, written out. */
  lemma RefusedChangesNothing(s: Snapshot, q: Request)
    requires match q.command
      case Start => s.state != Idle
      case Pause => s.state != Streaming
      case Resume => s.state != SessionState.Paused
      case Stop => s.state == Idle
    ensures After(s, [q]) == s
  {
    assert [q][..0] == [];
  }

  /** A whole session: started, paused and resumed any number of times, and stopped, it leaves the manager idle. */
  lemma StopEndsTheSession(s: Snapshot, q: Request)
    requires s.state != Idle && q.command == Stop
    ensures After(s, [q]).state == Idle && After(s, [q]).sessionId == ""
  {
    assert [q][..0] == [];
  }
}
