/** internal/uikit/ui_castplayer.go: playing a recording by timer ticks that may be outstanding, stale or duplicated. */
module CastPlayer {
  import opened Text

  datatype Event = Event(time: real, data: string)

  datatype Msg = Tick(index: int) | Space | Restart | Other

  /** A scheduled tick. */
  datatype Timer = Timer(index: nat, delay: real)

  const MAX_DELAY: real := 2.0

  /** The playback fields of the player. */
  datatype Player = Player(current: nat, output: string, paused: bool, finished: bool)

  // ---- Specification ----

  /** The wait before an event: its distance to the previous one, within 0 and MAX_DELAY. */
  function Delay(events: seq<Event>, k: nat): (d: real)
    requires k < |events|
    ensures 0.0 <= d <= MAX_DELAY
  {
    var gap := if k == 0 then events[0].time else events[k].time - events[k - 1].time;
    if gap > MAX_DELAY then MAX_DELAY else if gap < 0.0 then 0.0 else gap
  }

  function Schedule(events: seq<Event>, k: nat): Option<Timer> {
    if k >= |events| then None else Some(Timer(k, Delay(events, k)))
  }

  /** A tick can be handled: an empty recording has no event to show for tick 0. */
  predicate Handles(events: seq<Event>, p: Player, msg: Msg) {
    msg.Tick? && !p.paused && !p.finished && msg.index == p.current ==> p.current < |events|
  }

  function Step(events: seq<Event>, p: Player, msg: Msg): (Player, Option<Timer>)
    requires Handles(events, p, msg)
  {
    match msg
    case Tick(index) =>
      if p.paused || p.finished || index != p.current then (p, None)
      else
        var next := p.(output := p.output + events[p.current].data, current := p.current + 1);
        if next.current >= |events| then (next.(finished := true), None)
        else (next, Schedule(events, next.current))
    case Space =>
      var next := p.(paused := !p.paused);
      (next, if !next.paused && !next.finished then Schedule(events, next.current) else None)
    case Restart =>
      (Player(0, "", false, false), Schedule(events, 0))
    case Other =>
      (p, None)
  }

  class CastPlayer {
    const events: seq<Event>
    var current: nat
    var output: string
    var paused: bool
    var finished: bool

    function State(): Player
      reads this
    {
      Player(current, output, paused, finished)
    }

    constructor (events: seq<Event>)
      ensures this.events == events && State() == Player(0, "", false, false)
    {
      this.events := events;
      current, output, paused, finished := 0, "", false, false;
    }

    method ScheduleNext() returns (cmd: Option<Timer>)
      ensures cmd == Schedule(events, current)
    {
      if current >= |events| {
        return None;
      }
      var e := events[current];
      var delay: real;
      if current == 0 {
        delay := e.time;
      } else {
        delay := e.time - events[current - 1].time;
      }
      if delay > MAX_DELAY {
        delay := MAX_DELAY;
      }
      if delay < 0.0 {
        delay := 0.0;
      }
      return Some(Timer(current, delay));
    }

    method Init() returns (cmd: Option<Timer>)
      ensures cmd == Schedule(events, current)
    {
      cmd := ScheduleNext();
    }

    method Update(msg: Msg) returns (cmd: Option<Timer>)
      requires Handles(events, State(), msg)
      modifies this
      ensures (State(), cmd) == Step(events, old(State()), msg)
    {
      match msg
      case Tick(index) =>
        if paused || finished || index != current {
          return None;
        }
        output := output + events[current].data;
        current := current + 1;
        if current >= |events| {
          finished := true;
          return None;
        }
        cmd := ScheduleNext();
      case Space =>
        paused := !paused;
        if !paused && !finished {
          cmd := ScheduleNext();
          return;
        }
        return None;
      case Restart =>
        current := 0;
        output := "";
        finished := false;
        paused := false;
        cmd := ScheduleNext();
      case Other =>
        return None;
    }
  }

  // ---- Runs ----

  /** The player together with the ticks that are scheduled and not yet delivered. */
  datatype World = World(p: Player, ticks: multiset<int>)

  /** Deliver takes an outstanding tick; Stray is any tick at all, from nowhere. */
  datatype Action = Deliver(index: int) | Stray(index: int) | Press(key: Msg)

  function MsgOf(a: Action): Msg {
    match a case Deliver(i) => Tick(i) case Stray(i) => Tick(i) case Press(key) => if key.Tick? then Other else key
  }

  predicate Enabled(w: World, a: Action) { a.Deliver? ==> a.index in w.ticks }

  function Pending(cmd: Option<Timer>): multiset<int> {
    match cmd case None => multiset{} case Some(t) => multiset{t.index}
  }

  function Act(events: seq<Event>, w: World, a: Action): World
    requires Handles(events, w.p, MsgOf(a))
  {
    var (p, cmd) := Step(events, w.p, MsgOf(a));
    World(p, (if a.Deliver? then w.ticks - multiset{a.index} else w.ticks) + Pending(cmd))
  }

  function Launch(events: seq<Event>): World {
    World(Player(0, "", false, false), Pending(Schedule(events, 0)))
  }

  function Transcript(events: seq<Event>): string {
    if events == [] then "" else Transcript(events[..|events| - 1]) + events[|events| - 1].data
  }

  /** The output is the events before `current`, and the player has finished at the last one. */
  predicate InStep(events: seq<Event>, p: Player) {
    && p.current <= |events|
    && p.output == Transcript(events[..p.current])
    && (p.finished <==> p.current == |events|)
  }

  /** What every reachable world satisfies. */
  predicate Inv(events: seq<Event>, w: World) {
    && InStep(events, w.p)
    && (!w.p.paused && !w.p.finished ==> w.p.current in w.ticks)
    && (forall i :: i in w.ticks ==> i < |events|)
  }

  lemma LaunchKeepsInv(events: seq<Event>)
    requires events != []
    ensures Inv(events, Launch(events))
  {}

  lemma StepKeepsInStep(events: seq<Event>, p: Player, msg: Msg)
    requires events != [] && InStep(events, p)
    ensures Handles(events, p, msg)
    ensures var (next, cmd) := Step(events, p, msg);
            && InStep(events, next)
            && (cmd.Some? ==> cmd.value.index == next.current < |events|)
            && (cmd.None? && !next.paused && !next.finished ==> next == p && (msg.Tick? ==> msg.index != p.current))
            && (next == p || cmd.Some? || next.paused || next.finished)
  {
    if p.current < |events| {
      assert events[..p.current + 1][..p.current] == events[..p.current];
    }
  }

  /** No message, not even a stray tick, makes a reachable player fail. */
  lemma ActKeepsInv(events: seq<Event>, w: World, a: Action)
    requires events != [] && Inv(events, w)
    ensures Handles(events, w.p, MsgOf(a))
    ensures Enabled(w, a) ==> Inv(events, Act(events, w, a))
  {
    StepKeepsInStep(events, w.p, MsgOf(a));
    if Enabled(w, a) {
      var (next, cmd) := Step(events, w.p, MsgOf(a));
      var left := if a.Deliver? then w.ticks - multiset{a.index} else w.ticks;
      assert forall i :: i in left ==> i in w.ticks;
      if !next.paused && !next.finished && cmd.None? {
        assert left[next.current] == w.ticks[next.current];
      }
    }
  }

  /** acts can happen one after the other from w, and lead to last. */
  ghost predicate Run(events: seq<Event>, w: World, acts: seq<Action>, last: World)
    decreases |acts|
  {
    if acts == [] then last == w
    else Enabled(w, acts[0]) && Handles(events, w.p, MsgOf(acts[0]))
         && Run(events, Act(events, w, acts[0]), acts[1..], last)
  }

  lemma {:induction false} RunKeepsInv(events: seq<Event>, w: World, acts: seq<Action>, last: World)
    requires events != [] && Inv(events, w) && Run(events, w, acts, last)
    ensures Inv(events, last)
    decreases |acts|
  {
    if acts != [] {
      ActKeepsInv(events, w, acts[0]);
      RunKeepsInv(events, Act(events, w, acts[0]), acts[1..], last);
    }
  }

  /** Under any interleaving of deliveries, stray ticks, pauses and restarts, the output is the events before
      `current`, and a player that is neither paused nor finished has a tick for `current` on its way. */
  lemma EveryRunKeepsInv(events: seq<Event>, acts: seq<Action>, last: World)
    requires events != [] && Run(events, Launch(events), acts, last)
    ensures Inv(events, last)
  {
    LaunchKeepsInv(events);
    RunKeepsInv(events, Launch(events), acts, last);
  }

  /** Any actions can be carried out up to the first tick that is not outstanding: the player never fails. */
  lemma {:induction false} RunsGoOn(events: seq<Event>, w: World, acts: seq<Action>) returns (last: World, done: nat)
    requires events != [] && Inv(events, w)
    ensures done <= |acts| && Run(events, w, acts[..done], last)
    ensures done < |acts| ==> !Enabled(last, acts[done])
    decreases |acts|
  {
    if acts == [] || !Enabled(w, acts[0]) {
      last, done := w, 0;
    } else {
      ActKeepsInv(events, w, acts[0]);
      hide Inv, Act, Enabled;
      last, done := RunsGoOn(events, Act(events, w, acts[0]), acts[1..]);
      done := done + 1;
      assert acts[..done][0] == acts[0] && acts[..done][1..] == acts[1..][..done - 1];
    }
  }

  // ---- Playing out ----

  /** The ticks an undisturbed player still has to schedule. */
  function ToSchedule(events: seq<Event>, p: Player): int {
    if p.current < |events| then |events| - p.current - 1 else 0
  }

  function Deliveries(order: seq<int>): seq<Action> {
    seq(|order|, i requires 0 <= i < |order| => Deliver(order[i]))
  }

  /** The ticks of a delivery order that play an event. */
  function Played(order: seq<int>, current: int): seq<int> {
    if order == [] then []
    else if order[0] == current then [current] + Played(order[1..], current + 1)
    else Played(order[1..], current)
  }

  predicate Consecutive(played: seq<int>, from: int, to: int) {
    |played| == to - from && forall i :: 0 <= i < |played| ==> played[i] == from + i
  }

  /** One more delivery in front of an order. */
  lemma PlayedStep(order: seq<int>, current: int, next: int, to: int)
    requires order != [] && next == (if order[0] == current then current + 1 else current)
    requires Consecutive(Played(order[1..], next), next, to)
    ensures Consecutive(Played(order, current), current, to)
  {}

  lemma DeliveryCounts(events: seq<Event>, w: World, i: int)
    requires events != [] && Inv(events, w) && !w.p.paused && i in w.ticks
    ensures Handles(events, w.p, Tick(i))
    ensures var next := Act(events, w, Deliver(i));
            && |next.ticks| + ToSchedule(events, next.p) + 1 == |w.ticks| + ToSchedule(events, w.p)
            && next.p.current == (if i == w.p.current then w.p.current + 1 else w.p.current) && !next.p.paused
  {
    assert |w.ticks - multiset{i}| == |w.ticks| - 1;
  }

  /** Delivering outstanding ticks to an unpaused player, in any order: deliveries, outstanding ticks and ticks
      still to schedule add up to a constant, and the events played are the next ones, each once. */
  lemma {:induction false} DeliveriesAreConserved(events: seq<Event>, w: World, order: seq<int>, last: World)
    requires events != [] && Inv(events, w) && !w.p.paused && Run(events, w, Deliveries(order), last)
    ensures Inv(events, last) && !last.p.paused
    ensures |order| + |last.ticks| + ToSchedule(events, last.p) == |w.ticks| + ToSchedule(events, w.p)
    ensures Consecutive(Played(order, w.p.current), w.p.current, last.p.current)
    decreases |order|
  {
    if order != [] {
      var next := Act(events, w, Deliver(order[0]));
      assert Deliveries(order)[1..] == Deliveries(order[1..]);
      ActKeepsInv(events, w, Deliver(order[0]));
      DeliveryCounts(events, w, order[0]);
      DeliveriesAreConserved(events, next, order[1..], last);
      PlayedStep(order, w.p.current, next.p.current, last.p.current);
    }
  }

  /** Hence deliveries come to an end, and when no tick is left every event has been played, once each and in
      order since the last restart. */
  lemma DeliveringAllPlaysAll(events: seq<Event>, w: World, order: seq<int>, last: World)
    requires events != [] && Inv(events, w) && !w.p.paused && Run(events, w, Deliveries(order), last)
    ensures |order| <= |w.ticks| + ToSchedule(events, w.p)
    ensures |order| == |w.ticks| + ToSchedule(events, w.p) ==> last.ticks == multiset{}
    ensures last.ticks == multiset{} ==> last.p == Player(|events|, Transcript(events), false, true)
    ensures last.ticks == multiset{} ==> Consecutive(Played(order, w.p.current), w.p.current, |events|)
  {
    DeliveriesAreConserved(events, w, order, last);
    assert events[..|events|] == events;
  }

  lemma NoTickMeansEmpty(ticks: multiset<int>)
    ensures (forall i :: i !in ticks) ==> ticks == multiset{}
  {
    if forall i :: i !in ticks {
      assert forall i :: ticks[i] == 0;
    }
  }

  /** The same on the object: whatever outstanding tick comes next, the player ends with everything shown. */
  method PlayOut(player: CastPlayer, outstanding: multiset<int>)
    requires player.events != [] && Inv(player.events, World(player.State(), outstanding)) && !player.paused
    modifies player
    ensures player.State() == Player(|player.events|, Transcript(player.events), false, true)
  {
    var ticks := outstanding;
    while ticks != multiset{}
      invariant Inv(player.events, World(player.State(), ticks)) && !player.paused
      decreases |ticks| + ToSchedule(player.events, player.State())
    {
      NoTickMeansEmpty(ticks);
      var i :| i in ticks;
      ghost var w := World(player.State(), ticks);
      ActKeepsInv(player.events, w, Deliver(i));
      DeliveryCounts(player.events, w, i);
      var cmd := player.Update(Tick(i));
      ticks := ticks - multiset{i} + Pending(cmd);
      assert World(player.State(), ticks) == Act(player.events, w, Deliver(i));
    }
    assert player.events[..|player.events|] == player.events;
  }

  // ---- What the keys do ----

  predicate IsTick(a: Action) { a.Deliver? || a.Stray? }

  /** Space stops a running player and changes nothing else: what is shown, how far it is, and which ticks are out. */
  lemma SpacePauses(events: seq<Event>, w: World)
    requires !w.p.paused
    ensures var next := Act(events, w, Press(Space));
            next.p == w.p.(paused := true) && next.ticks == w.ticks
  {}

  /** Space lets a paused player go on where it was, with a tick for its event on the way unless it has finished. */
  lemma SpaceResumes(events: seq<Event>, w: World)
    requires w.p.paused && InStep(events, w.p)
    ensures var next := Act(events, w, Press(Space));
            && next.p == w.p.(paused := false)
            && next.ticks == if w.p.finished then w.ticks else w.ticks + multiset{w.p.current}
  {}

  /** While the player is paused, no tick moves it. */
  lemma {:induction false} PausedStands(events: seq<Event>, w: World, acts: seq<Action>, last: World)
    requires w.p.paused && Run(events, w, acts, last) && forall i :: 0 <= i < |acts| ==> IsTick(acts[i])
    ensures last.p == w.p
    decreases |acts|
  {
    if acts != [] {
      assert IsTick(acts[0]) && forall i :: 0 <= i < |acts[1..]| ==> acts[1..][i] == acts[i + 1];
      PausedStands(events, Act(events, w, acts[0]), acts[1..], last);
    }
  }

  /** Pausing, any ticks, and pausing again: the same player, which still goes on. */
  lemma PauseAndResume(events: seq<Event>, w: World, acts: seq<Action>, last: World)
    requires events != [] && Inv(events, w) && !w.p.paused
    requires Run(events, Act(events, w, Press(Space)), acts, last) && forall i :: 0 <= i < |acts| ==> IsTick(acts[i])
    ensures var end := Act(events, last, Press(Space));
            end.p == w.p && (!end.p.finished ==> end.p.current in end.ticks)
  {
    SpacePauses(events, w);
    PausedStands(events, Act(events, w, Press(Space)), acts, last);
    SpaceResumes(events, last);
  }

  /** Restart: from every world a new player, with its first tick on the way. */
  lemma RestartStartsOver(events: seq<Event>, w: World)
    requires events != []
    ensures var next := Act(events, w, Press(Restart));
            next.p == Player(0, "", false, false) && next.ticks == w.ticks + multiset{0}
  {}

  /** From a restart, delivering what is outstanding until nothing is plays every event again, from the first on. */
  lemma RestartPlaysAll(events: seq<Event>, w: World, order: seq<int>, last: World)
    requires events != [] && Inv(events, w)
    requires Run(events, Act(events, w, Press(Restart)), Deliveries(order), last) && last.ticks == multiset{}
    ensures last.p == Player(|events|, Transcript(events), false, true)
    ensures Played(order, 0) == seq(|events|, i => i)
  {
    hide Run, Transcript;
    RestartStartsOver(events, w);
    ActKeepsInv(events, w, Press(Restart));
    hide Act, Inv;
    DeliveringAllPlaysAll(events, Act(events, w, Press(Restart)), order, last);
  }

  /** Any other key changes nothing. */
  lemma OtherKeysDoNothing(events: seq<Event>, w: World)
    ensures Act(events, w, Press(Other)) == w
  {
    assert w.ticks + multiset{} == w.ticks;
  }

  /** A tick for the current event shows its data and sends the next tick, or finishes the player at the last one. */
  lemma CurrentTickPlays(events: seq<Event>, w: World)
    requires Inv(events, w) && !w.p.paused && !w.p.finished
    ensures var next, k := Act(events, w, Deliver(w.p.current)), w.p.current;
            && next.p == Player(k + 1, w.p.output + events[k].data, false, k + 1 == |events|)
            && next.ticks == w.ticks - multiset{k} + if k + 1 < |events| then multiset{k + 1} else multiset{}
  {}

  /** Any other tick is only used up. */
  lemma OtherTicksDoNothing(events: seq<Event>, w: World, i: int)
    requires w.p.paused || w.p.finished || i != w.p.current
    ensures Act(events, w, Stray(i)) == w && Act(events, w, Deliver(i)) == World(w.p, w.ticks - multiset{i})
  {
    assert w.ticks + multiset{} == w.ticks && w.ticks - multiset{i} + multiset{} == w.ticks - multiset{i};
  }

  // ---- How long it waits ----

  /** The wait is the recorded distance to the event before, or to the start, wherever that is within 0 and two
      seconds, and the nearer end of that range elsewhere. */
  lemma DelayIsNearest(events: seq<Event>, k: nat)
    requires k < |events|
    ensures var gap := events[k].time - if k == 0 then 0.0 else events[k - 1].time;
            && (0.0 <= gap <= 2.0 ==> Delay(events, k) == gap)
            && (gap < 0.0 ==> Delay(events, k) == 0.0)
            && (gap > 2.0 ==> Delay(events, k) == 2.0)
  {}
}
