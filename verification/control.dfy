/** Control messages: what the server makes of a session state, and what an exporter makes of the message. */
module Controls {
  import opened Session

  type ConnId = nat

  // ---- the exporter's end ----

  datatype Control = HelloAck | Ping | Pong | SessionPause | SessionStop | SessionResume | SessionStart | Unknown

  /** What a control message does to the paused flag. */
  function PausedAfter(paused: bool, msg: Control): bool {
    match msg
    case SessionPause => true
    case SessionStop => true
    case SessionResume => false
    case SessionStart => false
    case _ => paused
  }

  function PausedAfterAll(paused: bool, msgs: seq<Control>): bool {
    if msgs == [] then paused else PausedAfter(PausedAfterAll(paused, msgs[..|msgs| - 1]), msgs[|msgs| - 1])
  }

  lemma {:induction false} PausedAfterFirst(paused: bool, msgs: seq<Control>)
    requires msgs != []
    ensures PausedAfterAll(PausedAfter(paused, msgs[0]), msgs[1..]) == PausedAfterAll(paused, msgs)
  {
    var init := msgs[..|msgs| - 1];
    if init != [] {
      PausedAfterFirst(paused, init);
      assert msgs[1..][..|msgs| - 2] == init[1..];
    }
  }

  lemma PausedAfterLast(paused: bool, msgs: seq<Control>, msg: Control)
    ensures PausedAfterAll(paused, msgs + [msg]) == PausedAfter(PausedAfterAll(paused, msgs), msg)
  {
    assert (msgs + [msg])[..|msgs|] == msgs;
  }

  class ConnectionManager {
    var paused: bool
    var connected: bool

    constructor ()
      ensures !paused && !connected
    {
      paused, connected := false, false;
    }

    /** handleConnection, when a connection is up: the flag of an earlier connection is forgotten. */
    method Open()
      modifies this
      ensures connected && !paused
    {
      connected := true;
      paused := false;
    }

    /** handleConnection's deferred end: the flag stays as it was. */
    method Close()
      modifies this
      ensures !connected && paused == old(paused)
    {
      connected := false;
    }

    /** handleControlMessage, for its effect on this end. */
    method HandleControlMessage(msg: Control)
      modifies this
      ensures paused == PausedAfter(old(paused), msg) && connected == old(connected)
      ensures msg in {SessionPause, SessionStop} ==> paused
      ensures msg in {SessionResume, SessionStart} ==> !paused
      ensures msg !in {SessionPause, SessionStop, SessionResume, SessionStart} ==> paused == old(paused)
    {
      match msg
      case SessionPause => paused := true;
      case SessionStop => paused := true;
      case SessionResume => paused := false;
      case SessionStart => paused := false;
      case _ =>
    }

    /** readLoop over what arrived, in order. */
    method ReadAll(msgs: seq<Control>)
      modifies this
      ensures paused == PausedAfterAll(old(paused), msgs) && connected == old(connected)
    {
      for i := 0 to |msgs|
        invariant paused == PausedAfterAll(old(paused), msgs[..i]) && connected == old(connected)
      {
        assert msgs[..i + 1][..i] == msgs[..i];
        HandleControlMessage(msgs[i]);
      }
      assert msgs[..|msgs|] == msgs;
    }
  }

  // ---- the server's end ----

  /** sessionControlMessage. */
  function ControlFor(state: SessionState): Control {
    if state.Streaming? then SessionResume else SessionPause
  }
}
