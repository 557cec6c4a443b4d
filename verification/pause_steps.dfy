/**
 * The pause protocol message by message: transitions are announced after the lock is
 * released, and a joining exporter is told a state read earlier.
 */
module PauseSteps {
  import opened Session
  import opened Controls

  /** How far the server is with a connection's first messages. */
  datatype Phase = Connecting | Registered | Holding(version: nat) | Joined

  /**
   * sent lists, for each control message put on the connection, which version of the session it
   * was made from; since is the version at registration.
   */
  datatype Line = Line(phase: Phase, since: nat, sent: seq<nat>, delivered: nat, paused: bool)

  /** A transition's announcement: the listeners not yet called, or the connections still to be told. */
  datatype Notice = Uncollected | Sending(targets: set<ConnId>)

  /** states lists every state the session has been in; notices is by version. */
  datatype System = System(states: seq<SessionState>, lines: map<ConnId, Line>, notices: map<nat, Notice>)

  datatype Step =
    | Moves(c: Command)
    | Collects(version: nat)
    | SendsTo(version: nat, id: ConnId)
    | Finishes(version: nat)
    | Connects(id: ConnId)
    | Registers(id: ConnId)
    | Reads(id: ConnId)
    | SendsState(id: ConnId)
    | Delivers(id: ConnId)
    | Disconnects(id: ConnId)

  const INITIAL := System([Idle], map[], map[])

  predicate IsSending(s: System, v: nat) {
    v in s.notices && s.notices[v].Sending?
  }

  predicate Enabled(s: System, a: Step) {
    s.states != [] &&
    match a
    case Moves(c) => Allowed(s.states[|s.states| - 1], c)
    case Collects(v) => v in s.notices && s.notices[v].Uncollected?
    case SendsTo(v, id) => IsSending(s, v) && id in s.notices[v].targets
    case Finishes(v) => IsSending(s, v) && s.notices[v].targets == {}
    case Connects(id) =>
      id !in s.lines && forall v <- s.notices :: s.notices[v].Sending? ==> id !in s.notices[v].targets
    case Registers(id) => id in s.lines && s.lines[id].phase.Connecting?
    case Reads(id) => id in s.lines && s.lines[id].phase.Registered?
    case SendsState(id) => id in s.lines && s.lines[id].phase.Holding?
    case Delivers(id) =>
      id in s.lines && s.lines[id].delivered < |s.lines[id].sent| &&
        s.lines[id].sent[s.lines[id].delivered] < |s.states|
    case Disconnects(id) => id in s.lines
  }

  function Put(s: System, id: ConnId, l: Line): System {
    s.(lines := s.lines[id := l])
  }

  function Perform(s: System, a: Step): System
    requires Enabled(s, a)
  {
    var current := |s.states| - 1;
    match a
    case Moves(c) => s.(states := s.states + [Target(c)], notices := s.notices[current + 1 := Uncollected])
    case Collects(v) => s.(notices := s.notices[v := Sending(set id | id in s.lines && !s.lines[id].phase.Connecting?)])
    case SendsTo(v, id) =>
      var t := s.(notices := s.notices[v := Sending(s.notices[v].targets - {id})]);
      if id in s.lines then Put(t, id, s.lines[id].(sent := s.lines[id].sent + [v])) else t
    case Finishes(v) => s.(notices := s.notices - {v})
    case Connects(id) => Put(s, id, Line(Connecting, 0, [], 0, false))
    case Registers(id) => Put(s, id, s.lines[id].(phase := Registered, since := current))
    case Reads(id) => Put(s, id, s.lines[id].(phase := Holding(current)))
    case SendsState(id) =>
      Put(s, id, s.lines[id].(phase := Joined, sent := s.lines[id].sent + [s.lines[id].phase.version]))
    case Delivers(id) =>
      var l := s.lines[id];
      Put(s, id, l.(delivered := l.delivered + 1,
          paused := PausedAfter(l.paused, ControlFor(s.states[l.sent[l.delivered]]))))
    case Disconnects(id) => s.(lines := s.lines - {id})
  }

  // ---- what every interleaving keeps ----

  /** Version v is still to be put on the connection. */
  predicate Owed(s: System, v: nat, id: ConnId) {
    v in s.notices && (s.notices[v].Uncollected? || id in s.notices[v].targets)
  }

  /** Every transition since registration has been told or is owed. */
  predicate NoneMissed(s: System, id: ConnId, l: Line) {
    l.since < |s.states| && forall v: nat :: l.since < v < |s.states| ==> v in l.sent || Owed(s, v, id)
  }

  predicate PhaseRight(s: System, l: Line) {
    match l.phase
    case Connecting => true
    case Registered => true
    case Holding(v) => l.since <= v < |s.states|
    case Joined => exists i :: 0 <= i < |l.sent| && l.since <= l.sent[i]
  }

  predicate FlagRight(s: System, l: Line) {
    && l.delivered <= |l.sent|
    && (forall i :: 0 <= i < |l.sent| ==> l.sent[i] < |s.states|)
    && l.paused == (l.delivered > 0 && !s.states[l.sent[l.delivered - 1]].Streaming?)
  }

  predicate LineInv(s: System, id: ConnId, l: Line) {
    FlagRight(s, l) && PhaseRight(s, l) && (!l.phase.Connecting? ==> NoneMissed(s, id, l))
  }

  ghost predicate Inv(s: System) {
    && s.states != [] && (forall v :: v in s.notices ==> v < |s.states|)
    && forall id :: id in s.lines ==> LineInv(s, id, s.lines[id])
  }

  /** What one step can do to a line that stays. */
  predicate Follows(s: System, t: System, l: Line, m: Line) {
    s.states <= t.states &&
    if m.delivered == l.delivered then
      && m.paused == l.paused
      && (m.sent == l.sent || (m.sent != [] && m.sent[..|m.sent| - 1] == l.sent && m.sent[|l.sent|] < |s.states|))
    else
      && m.delivered == l.delivered + 1 && m.sent == l.sent && l.delivered < |l.sent|
      && l.sent[l.delivered] < |s.states| && m.paused == !s.states[l.sent[l.delivered]].Streaming?
  }

  lemma LineFollows(s: System, a: Step, id: ConnId)
    requires Inv(s) && Enabled(s, a) && id in s.lines && id in Perform(s, a).lines
    ensures Follows(s, Perform(s, a), s.lines[id], Perform(s, a).lines[id])
  {
    assert LineInv(s, id, s.lines[id]);
  }

  lemma FollowingIsRight(s: System, t: System, l: Line, m: Line)
    requires FlagRight(s, l) && Follows(s, t, l, m)
    ensures FlagRight(t, m)
  {
  }

  lemma FlagKept(s: System, a: Step, id: ConnId)
    requires Inv(s) && Enabled(s, a) && id in Perform(s, a).lines
    ensures FlagRight(Perform(s, a), Perform(s, a).lines[id])
  {
    if id in s.lines {
      assert LineInv(s, id, s.lines[id]);
      LineFollows(s, a, id);
      FollowingIsRight(s, Perform(s, a), s.lines[id], Perform(s, a).lines[id]);
    }
  }

  lemma PhaseKept(s: System, a: Step, id: ConnId)
    requires Inv(s) && Enabled(s, a) && id in Perform(s, a).lines
    ensures PhaseRight(Perform(s, a), Perform(s, a).lines[id])
  {
    if id in s.lines {
      var l, m := s.lines[id], Perform(s, a).lines[id];
      assert LineInv(s, id, l);
      if m.phase.Joined? {
        if l.phase.Joined? {
          var i :| 0 <= i < |l.sent| && l.since <= l.sent[i];
          assert m.sent[i] == l.sent[i];
        } else {
          assert m.sent[|l.sent|] == l.phase.version;
        }
      }
    }
  }

  lemma MissedKept(s: System, a: Step, id: ConnId)
    requires Inv(s) && Enabled(s, a) && id in Perform(s, a).lines && !Perform(s, a).lines[id].phase.Connecting?
    ensures NoneMissed(Perform(s, a), id, Perform(s, a).lines[id])
  {
    var t := Perform(s, a);
    var m := t.lines[id];
    if id in s.lines && !s.lines[id].phase.Connecting? {
      var l := s.lines[id];
      assert LineInv(s, id, l);
      forall v: nat | m.since < v < |t.states| ensures v in m.sent || Owed(t, v, id) {
        if v < |s.states| {
          assert v in l.sent || Owed(s, v, id);
          assert l.sent <= m.sent;
        }
      }
    }
  }

  lemma PerformKeeps(s: System, a: Step)
    requires Inv(s) && Enabled(s, a)
    ensures Inv(Perform(s, a))
  {
    forall id | id in Perform(s, a).lines ensures LineInv(Perform(s, a), id, Perform(s, a).lines[id]) {
      FlagKept(s, a, id);
      PhaseKept(s, a, id);
      if !Perform(s, a).lines[id].phase.Connecting? {
        MissedKept(s, a, id);
      }
    }
  }

  predicate Schedule(s: System, steps: seq<Step>)
    decreases |steps|, 0
  {
    steps == [] || (Schedule(s, steps[..|steps| - 1]) && Enabled(After(s, steps[..|steps| - 1]), steps[|steps| - 1]))
  }

  function After(s: System, steps: seq<Step>): System
    requires Schedule(s, steps)
    decreases |steps|, 1
  {
    if steps == [] then s else Perform(After(s, steps[..|steps| - 1]), steps[|steps| - 1])
  }

  lemma {:induction false} EveryRunKeeps(steps: seq<Step>)
    requires Schedule(INITIAL, steps)
    ensures Inv(After(INITIAL, steps))
  {
    if steps != [] {
      EveryRunKeeps(steps[..|steps| - 1]);
      PerformKeeps(After(INITIAL, steps[..|steps| - 1]), steps[|steps| - 1]);
    }
  }

  // ---- at rest ----

  /** Nothing is being announced, and the exporter has joined and read everything. */
  predicate AtRest(s: System, id: ConnId) {
    s.notices == map[] && id in s.lines && s.lines[id].phase.Joined? && s.lines[id].delivered == |s.lines[id].sent|
  }

  /** The messages were put on the connection in the order of the transitions they tell of. */
  predicate ToldInOrder(l: Line) {
    forall i, j :: 0 <= i < j < |l.sent| ==> l.sent[i] <= l.sent[j]
  }

  /** The version of the last step of the schedule that put a message on the connection. */
  ghost function LastTold(steps: seq<Step>, id: ConnId): nat
    requires Schedule(INITIAL, steps)
  {
    if steps == [] then 0
    else
      var init, a := steps[..|steps| - 1], steps[|steps| - 1];
      if a.SendsTo? && a.id == id then a.version
      else if a.SendsState? && a.id == id then After(INITIAL, init).lines[id].phase.version
      else LastTold(init, id)
  }

  lemma {:induction false} LastToldIsLast(steps: seq<Step>, id: ConnId)
    requires Schedule(INITIAL, steps) && id in After(INITIAL, steps).lines && After(INITIAL, steps).lines[id].sent != []
    ensures var sent := After(INITIAL, steps).lines[id].sent; sent[|sent| - 1] == LastTold(steps, id)
  {
    var init, a := steps[..|steps| - 1], steps[|steps| - 1];
    var s := After(INITIAL, init);
    if id in s.lines && !((a.SendsTo? || a.SendsState?) && a.id == id) {
      assert After(INITIAL, steps).lines[id].sent == s.lines[id].sent;
      LastToldIsLast(init, id);
    }
  }

  lemma RestingLine(s: System, id: ConnId)
    requires Inv(s) && AtRest(s, id)
    ensures var l, current := s.lines[id], |s.states| - 1;
      && current in l.sent && l.sent[|l.sent| - 1] <= current
      && l.paused == !s.states[l.sent[|l.sent| - 1]].Streaming?
  {
    assert LineInv(s, id, s.lines[id]);
  }

  lemma RestingInOrder(s: System, id: ConnId)
    requires Inv(s) && AtRest(s, id) && ToldInOrder(s.lines[id])
    ensures FlagIsRight(s, id)
  {
    RestingLine(s, id);
    var sent, current := s.lines[id].sent, |s.states| - 1;
    var i :| 0 <= i < |sent| && sent[i] == current;
    assert sent[i] <= sent[|sent| - 1];
  }

  /** The flag as the state of version v would have it, with v not after the current version. */
  predicate FlagOf(s: System, id: ConnId, v: nat) {
    id in s.lines && v < |s.states| && s.lines[id].paused == !s.states[v].Streaming?
  }

  /** At rest the flag is that of the state the last step sending to the exporter told it of. */
  lemma FlagOfLastTold(steps: seq<Step>, id: ConnId)
    requires Schedule(INITIAL, steps) && AtRest(After(INITIAL, steps), id)
    ensures FlagOf(After(INITIAL, steps), id, LastTold(steps, id))
  {
    EveryRunKeeps(steps);
    RestingLine(After(INITIAL, steps), id);
    LastToldIsLast(steps, id);
  }

  /** At rest no exporter has missed the current state: it was told of it, if perhaps not last. */
  lemma NothingMissed(steps: seq<Step>, id: ConnId)
    requires Schedule(INITIAL, steps) && AtRest(After(INITIAL, steps), id)
    ensures |After(INITIAL, steps).states| - 1 in After(INITIAL, steps).lines[id].sent
  {
    EveryRunKeeps(steps);
    RestingLine(After(INITIAL, steps), id);
  }

  /** The flag is right: the exporter is paused exactly when the session is not streaming. */
  predicate FlagIsRight(s: System, id: ConnId) {
    s.states != [] && FlagOf(s, id, |s.states| - 1)
  }

  /** It is right if and only if the last step that sent to the exporter told of a state as good as the current one. */
  lemma AtRestExactly(steps: seq<Step>, id: ConnId)
    requires Schedule(INITIAL, steps) && AtRest(After(INITIAL, steps), id)
    ensures var s, v := After(INITIAL, steps), LastTold(steps, id);
      && v < |s.states|
      && (FlagIsRight(s, id) <==> s.states[v].Streaming? == s.states[|s.states| - 1].Streaming?)
  {
    FlagOfLastTold(steps, id);
  }

  /** Told in order, the flag is right. */
  lemma InOrderIsRight(steps: seq<Step>, id: ConnId)
    requires Schedule(INITIAL, steps) && AtRest(After(INITIAL, steps), id) &&
      ToldInOrder(After(INITIAL, steps).lines[id])
    ensures FlagIsRight(After(INITIAL, steps), id)
  {
    EveryRunKeeps(steps);
    RestingInOrder(After(INITIAL, steps), id);
  }

  // ---- two schedules that go wrong ----

  ghost predicate Leads(steps: seq<Step>, t: System) {
    Schedule(INITIAL, steps) && After(INITIAL, steps) == t
  }

  lemma Then(steps: seq<Step>, t: System, a: Step) returns (more: seq<Step>)
    requires Leads(steps, t) && Enabled(t, a)
    ensures Leads(more, Perform(t, a))
  {
    more := steps + [a];
    assert more[..|steps|] == steps;
  }

  /** One exporter on connection 0. */
  function OneLine(states: seq<SessionState>, l: Line, notices: map<nat, Notice>): System {
    System(states, map[0 := l], notices)
  }

  lemma PutOne(states: seq<SessionState>, l: Line, notices: map<nat, Notice>, m: Line)
    ensures Put(OneLine(states, l, notices), 0, m) == OneLine(states, m, notices)
  {
    assert map[0 := l][0 := m] == map[0 := m];
  }

  /** The exporter has registered and its session state has been read, while the session was idle. */
  lemma HoldIdle() returns (steps: seq<Step>)
    ensures Leads(steps, OneLine([Idle], Line(Holding(0), 0, [], 0, false), map[]))
  {
    steps := [];
    assert Leads(steps, INITIAL);
    steps := Then(steps, INITIAL, Connects(0));
    assert Perform(INITIAL, Connects(0)) == OneLine([Idle], Line(Connecting, 0, [], 0, false), map[]);
    steps := Then(steps, OneLine([Idle], Line(Connecting, 0, [], 0, false), map[]), Registers(0));
    PutOne([Idle], Line(Connecting, 0, [], 0, false), map[], Line(Registered, 0, [], 0, false));
    steps := Then(steps, OneLine([Idle], Line(Registered, 0, [], 0, false), map[]), Reads(0));
    PutOne([Idle], Line(Registered, 0, [], 0, false), map[], Line(Holding(0), 0, [], 0, false));
  }

  /** The listeners of version v are called, the exporter is told and the announcement ends. */
  lemma Told(steps: seq<Step>, states: seq<SessionState>, l: Line, notices: map<nat, Notice>, v: nat)
    returns (more: seq<Step>)
    requires Leads(steps, OneLine(states, l, notices)) && states != [] && !l.phase.Connecting?
    requires v in notices && notices[v].Uncollected?
    ensures Leads(more, OneLine(states, l.(sent := l.sent + [v]), notices - {v}))
  {
    var t := OneLine(states, l, notices);
    more := Then(steps, t, Collects(v));
    var collected := Perform(t, Collects(v)).notices[v].targets;
    assert collected == {0};
    t := Perform(t, Collects(v));
    more := Then(more, t, SendsTo(v, 0));
    t := Perform(t, SendsTo(v, 0));
    assert t.notices[v].targets == {};
    more := Then(more, t, Finishes(v));
    t := Perform(t, Finishes(v));
    assert t.notices == notices - {v};
    assert t.lines == map[0 := l.(sent := l.sent + [v])];
  }

  /**
   * Start and Pause in quick succession, announced the other way round: a paused session with an
   * exporter that forwards.
   */
  lemma OvertakingExample() returns (steps: seq<Step>)
    ensures Schedule(INITIAL, steps) && AtRest(After(INITIAL, steps), 0)
    ensures var s := After(INITIAL, steps); s.states[|s.states| - 1] == Paused && !s.lines[0].paused
  {
    var states, l := [Idle, Streaming, Paused], Line(Joined, 0, [0], 0, false);
    steps := MovedTwice();
    steps := Told(steps, states, l, map[1 := Uncollected, 2 := Uncollected], 2);
    assert map[1 := Uncollected, 2 := Uncollected] - {2} == map[1 := Uncollected];
    steps := Told(steps, states, l.(sent := [0] + [2]), map[1 := Uncollected], 1);
    assert [0] + [2] + [1] == [0, 2, 1] && map[1 := Uncollected] - {1} == map[];
    steps := ReadAll(steps, states, l.(sent := [0, 2, 1]));
  }

  lemma MovedTwice() returns (steps: seq<Step>)
    ensures Leads(steps, OneLine([Idle, Streaming, Paused], Line(Joined, 0, [0], 0, false),
        map[1 := Uncollected, 2 := Uncollected]))
  {
    var l := Line(Joined, 0, [0], 0, false);
    steps := HoldIdle();
    steps := Then(steps, OneLine([Idle], Line(Holding(0), 0, [], 0, false), map[]), SendsState(0));
    assert [] + [0] == [0];
    PutOne([Idle], Line(Holding(0), 0, [], 0, false), map[], l);
    steps := Then(steps, OneLine([Idle], l, map[]), Moves(Start));
    assert [Idle] + [Streaming] == [Idle, Streaming] && map[][1 := Uncollected] == map[1 := Uncollected];
    steps := Then(steps, OneLine([Idle, Streaming], l, map[1 := Uncollected]), Moves(Pause));
    assert [Idle, Streaming] + [Paused] == [Idle, Streaming, Paused];
  }

  /** The exporter reads everything it was told. */
  lemma ReadAll(steps: seq<Step>, states: seq<SessionState>, l: Line) returns (more: seq<Step>)
    requires Leads(steps, OneLine(states, l, map[])) && states != []
    requires l.delivered <= |l.sent| && forall i :: 0 <= i < |l.sent| ==> l.sent[i] < |states|
    ensures |l.sent| == l.delivered ==> Leads(more, OneLine(states, l, map[]))
    ensures |l.sent| > l.delivered ==>
      Leads(more, OneLine(states, l.(delivered := |l.sent|, paused := !states[l.sent[|l.sent| - 1]].Streaming?), map[]))
    decreases |l.sent| - l.delivered
  {
    more := steps;
    if l.delivered < |l.sent| {
      var m;
      more, m := ReadNext(steps, states, l);
      more := ReadAll(more, states, m);
    }
  }

  lemma ReadNext(steps: seq<Step>, states: seq<SessionState>, l: Line) returns (more: seq<Step>, m: Line)
    requires Leads(steps, OneLine(states, l, map[])) && states != []
    requires l.delivered < |l.sent| && l.sent[l.delivered] < |states|
    ensures m == l.(delivered := l.delivered + 1, paused := !states[l.sent[l.delivered]].Streaming?)
    ensures Leads(more, OneLine(states, m, map[]))
  {
    more := Then(steps, OneLine(states, l, map[]), Delivers(0));
    m := l.(delivered := l.delivered + 1, paused := !states[l.sent[l.delivered]].Streaming?);
    PutOne(states, l, map[], m);
  }

  /**
   * A session that starts while an exporter joins: the state read before is sent after, and the
   * exporter drops what it should forward.
   */
  lemma JoinRaceExample() returns (steps: seq<Step>)
    ensures Schedule(INITIAL, steps) && AtRest(After(INITIAL, steps), 0)
    ensures var s := After(INITIAL, steps); s.states[|s.states| - 1] == Streaming && s.lines[0].paused
  {
    var states, l := [Idle, Streaming], Line(Holding(0), 0, [], 0, false);
    steps := HoldIdle();
    steps := Then(steps, OneLine([Idle], l, map[]), Moves(Start));
    assert [Idle] + [Streaming] == states && map[][1 := Uncollected] == map[1 := Uncollected];
    steps := Told(steps, states, l, map[1 := Uncollected], 1);
    assert [] + [1] == [1] && map[1 := Uncollected] - {1} == map[];
    steps := Then(steps, OneLine(states, l.(sent := [1]), map[]), SendsState(0));
    PutOne(states, l.(sent := [1]), map[], Line(Joined, 0, [1, 0], 0, false));
    assert [1] + [0] == [1, 0];
    steps := ReadAll(steps, states, Line(Joined, 0, [1, 0], 0, false));
  }
}
