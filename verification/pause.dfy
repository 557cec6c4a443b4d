/** Pause and resume from the session to the exporters, each transition and each join one step. */
module PauseProtocol {
  import opened Session
  import opened Controls

  /** One connection: whether the server has it among its collectors, what is under way, and the exporter's flag. */
  datatype Link = Link(joined: bool, channel: seq<Control>, paused: bool)

  datatype Serial = Serial(session: SessionState, links: map<ConnId, Link>)

  datatype SerialStep =
    | Moves(c: Command)
    | Connects(id: ConnId)
    | Joins(id: ConnId)
    | Answers(id: ConnId)       // a pong
    | Delivers(id: ConnId)
    | Disconnects(id: ConnId)

  predicate SerialEnabled(s: Serial, a: SerialStep) {
    match a
    case Moves(c) => Allowed(s.session, c)
    case Connects(id) => id !in s.links
    case Joins(id) => id in s.links && !s.links[id].joined
    case Answers(id) => id in s.links
    case Delivers(id) => id in s.links && s.links[id].channel != []
    case Disconnects(id) => id in s.links
  }

  function Told(l: Link, state: SessionState): Link {
    if l.joined then l.(channel := l.channel + [ControlFor(state)]) else l
  }

  function SerialNext(s: Serial, a: SerialStep): Serial
    requires SerialEnabled(s, a)
  {
    match a
    case Moves(c) => Serial(Target(c), map id | id in s.links :: Told(s.links[id], Target(c)))
    case Connects(id) => s.(links := s.links[id := Link(false, [], false)])
    case Joins(id) =>
      s.(links := s.links[id := Link(true, s.links[id].channel + [HelloAck] + [ControlFor(s.session)],
          s.links[id].paused)])
    case Answers(id) => s.(links := s.links[id := s.links[id].(channel := s.links[id].channel + [Pong])])
    case Delivers(id) =>
      var l := s.links[id];
      s.(links := s.links[id := l.(channel := l.channel[1..], paused := PausedAfter(l.paused, l.channel[0]))])
    case Disconnects(id) => s.(links := s.links - {id})
  }

  /**
   * What is under way leaves a joined exporter paused exactly when the session does not stream, and
   * any other not paused.
   */
  predicate LinkRight(session: SessionState, l: Link) {
    PausedAfterAll(l.paused, l.channel) == (l.joined && !session.Streaming?)
  }

  predicate SerialInv(s: Serial) {
    forall id :: id in s.links ==> LinkRight(s.session, s.links[id])
  }

  lemma ToldRight(before: SessionState, l: Link, state: SessionState)
    requires LinkRight(before, l)
    ensures LinkRight(state, Told(l, state))
  {
    PausedAfterLast(l.paused, l.channel, ControlFor(state));
  }

  lemma JoinedRight(l: Link, state: SessionState)
    ensures LinkRight(state, Link(true, l.channel + [HelloAck] + [ControlFor(state)], l.paused))
  {
    PausedAfterLast(l.paused, l.channel + [HelloAck], ControlFor(state));
  }

  lemma StepLinkRight(s: Serial, a: SerialStep, id: ConnId)
    requires SerialEnabled(s, a) && id in SerialNext(s, a).links &&
      (id in s.links ==> LinkRight(s.session, s.links[id]))
    ensures LinkRight(SerialNext(s, a).session, SerialNext(s, a).links[id])
  {
    if id in s.links {
      var l := s.links[id];
      if a.Moves? {
        ToldRight(s.session, l, Target(a.c));
      } else if a.Joins? {
        JoinedRight(l, s.session);
      } else if a.Answers? {
        PausedAfterLast(l.paused, l.channel, Pong);
      } else if a.Delivers? && a.id == id {
        PausedAfterFirst(l.paused, l.channel);
      }
    }
  }

  predicate SerialSchedule(s: Serial, steps: seq<SerialStep>)
    decreases |steps|, 0
  {
    steps == [] ||
      (SerialSchedule(s, steps[..|steps| - 1]) &&
          SerialEnabled(SerialAfter(s, steps[..|steps| - 1]), steps[|steps| - 1]))
  }

  function SerialAfter(s: Serial, steps: seq<SerialStep>): Serial
    requires SerialSchedule(s, steps)
    decreases |steps|, 1
  {
    if steps == [] then s else SerialNext(SerialAfter(s, steps[..|steps| - 1]), steps[|steps| - 1])
  }

  lemma {:induction false} SerialKeeps(steps: seq<SerialStep>)
    requires SerialSchedule(Serial(Idle, map[]), steps)
    ensures SerialInv(SerialAfter(Serial(Idle, map[]), steps))
  {
    if steps != [] {
      var init, a := steps[..|steps| - 1], steps[|steps| - 1];
      SerialKeeps(init);
      var s := SerialAfter(Serial(Idle, map[]), init);
      forall id | id in SerialNext(s, a).links ensures LinkRight(SerialNext(s, a).session, SerialNext(s, a).links[id]) {
        StepLinkRight(s, a, id);
      }
    }
  }

  /** Serialised, a joined exporter that has read everything is paused exactly when the session is not streaming. */
  lemma SerialPauseIsRight(steps: seq<SerialStep>, id: ConnId)
    requires SerialSchedule(Serial(Idle, map[]), steps)
    requires var s := SerialAfter(Serial(Idle, map[]), steps);
      id in s.links && s.links[id].joined && s.links[id].channel == []
    ensures var s := SerialAfter(Serial(Idle, map[]), steps); s.links[id].paused <==> !s.session.Streaming?
  {
    SerialKeeps(steps);
    assert LinkRight(SerialAfter(Serial(Idle, map[]), steps).session,
        SerialAfter(Serial(Idle, map[]), steps).links[id]);
  }

  /** After any such run, the exporter itself, reading on through what is under way, ends up with the right flag. */
  method ReadsOn(exporter: ConnectionManager, msgs: seq<Control>, ghost steps: seq<SerialStep>, ghost id: ConnId)
    requires SerialSchedule(Serial(Idle, map[]), steps)
    requires var s := SerialAfter(Serial(Idle, map[]), steps);
      && id in s.links && s.links[id].joined
      && msgs == s.links[id].channel && exporter.paused == s.links[id].paused
    modifies exporter
    ensures exporter.paused <==> !SerialAfter(Serial(Idle, map[]), steps).session.Streaming?
    ensures exporter.connected == old(exporter.connected)
  {
    SerialKeeps(steps);
    assert LinkRight(SerialAfter(Serial(Idle, map[]), steps).session,
        SerialAfter(Serial(Idle, map[]), steps).links[id]);
    exporter.ReadAll(msgs);
  }

  /**
   * After an allowed Start or Resume every joined exporter that has read everything forwards; after
   * Pause or Stop none does.
   */
  lemma CommandsReach(steps: seq<SerialStep>, c: Command, more: seq<SerialStep>, id: ConnId)
    requires SerialSchedule(Serial(Idle, map[]), steps + [Moves(c)] + more)
    requires forall a <- more :: !a.Moves?
    requires var s := SerialAfter(Serial(Idle, map[]), steps + [Moves(c)] + more);
      id in s.links && s.links[id].joined && s.links[id].channel == []
    ensures SerialAfter(Serial(Idle, map[]), steps + [Moves(c)] + more).links[id].paused <==> c in {Pause, Stop}
  {
    SerialPauseIsRight(steps + [Moves(c)] + more, id);
    SessionStays(steps, c, more);
  }

  /** Without another command the session stays where the last one took it. */
  lemma {:induction false} SessionStays(steps: seq<SerialStep>, c: Command, more: seq<SerialStep>)
    requires SerialSchedule(Serial(Idle, map[]), steps + [Moves(c)] + more) && forall a <- more :: !a.Moves?
    ensures SerialAfter(Serial(Idle, map[]), steps + [Moves(c)] + more).session.Streaming? <==> c in {Start, Resume}
  {
    var all := steps + [Moves(c)] + more;
    if more == [] {
      assert all[..|all| - 1] == steps;
    } else {
      assert all[..|all| - 1] == steps + [Moves(c)] + more[..|more| - 1];
      SessionStays(steps, c, more[..|more| - 1]);
    }
  }
}
