/**
 * The agent's behaviour controller: a small state machine that waits in
 * IDLE for a random time, then either picks a random walkable destination
 * and follows a path to it waypoint by waypoint, or waits again.
 *
 * The random draws, the elapsed time, the character's position and the
 * answers of the navigation grid manager are supplied per tick (`Tick`);
 * the calls into the character's motion code are returned as a `Motion`.
 */
module AiControl {
  import opened Wrappers
  import opened Pathfinding

  /** `AI_STATE`: TURNING is declared but no code path ever enters it. */
  datatype AiState = Idle | Turning | FollowingPath

  /** `idleTime`: the mean idle wait, in seconds. */
  const IdleTime: real := 3.0

  /** The controller's fields as a value: `state`, `timer`, `path`, `currentPathIndex`. */
  datatype Agent = Agent(state: AiState, timer: real, path: Option<seq<Point>>, index: nat)

  /**
   * The controller's invariant: never TURNING; following a path means
   * holding one with the cursor in `1..|path|`; an idle agent still has a
   * positive wait ahead of it.
   */
  predicate Inv(a: Agent) {
    && a.state != Turning
    && (a.state == FollowingPath ==> a.path.Some? && 1 <= a.index <= |a.path.value|)
    && (a.state == Idle ==> a.timer > 0.0)
  }

  /** The state the constructor leaves: idle for `idleTime`, no path, cursor 0. */
  function Initial(): (a: Agent)
    ensures Inv(a) && a.state == Idle && a.timer == IdleTime && a.path == None && a.index == 0
  {
    Agent(Idle, IdleTime, None, 0)
  }

  /** A fresh idle wait, `idleTime * (0.5 + r)`: between half and one and a half `idleTime`. */
  function ResetTimer(r: Unit): (t: real)
    ensures 0.5 * IdleTime <= t < 1.5 * IdleTime
  {
    IdleTime * (0.5 + r)
  }

  /** What the outside world supplies on one frame. */
  datatype Tick = Tick(
    deltaTime: real,              // seconds since the previous frame
    position: Point,              // the character's current position
    choice: Unit,                 // the draw `decideNextAction` branches on
    destination: Option<Point>,   // what `getRandomWalkablePoint` returned
    found: Option<seq<Point>>,    // what `findPath` returned from `position` to `destination`
    reset: Unit)                  // the draw for a fresh idle wait

  /** The call the controller makes into the character this frame. */
  datatype Motion =
    | Stop                  // `stopMovement()`
    | Steer(target: Point)  // `rotateTowards` and `moveTo` towards the current waypoint
    | Hold                  // no call

  /** The decision that sets off along a path: move (choice below 0.5), a destination, and a path of at least two waypoints. */
  predicate Roams(choice: Unit, destination: Option<Point>, found: Option<seq<Point>>) {
    choice < 0.5 && destination.Some? && found.Some? && |found.value| > 1
  }

  /**
   * `decideNextAction`. Only a roaming decision enters FOLLOWING_PATH, at
   * waypoint 1 (waypoint 0 is the agent's own cell); every other outcome
   * (a choice of 0.5 or more, no destination, no path or a one-point path)
   * idles with a fresh wait and leaves the cursor alone. The `path` field
   * takes whatever the path request returned whenever one was made.
   */
  function Decide(a: Agent, choice: Unit, destination: Option<Point>, found: Option<seq<Point>>, reset: Unit): (b: Agent)
    ensures Inv(b)
    ensures b.state == FollowingPath <==> Roams(choice, destination, found)
    ensures Roams(choice, destination, found) ==> b.index == 1 && b.path == found && b.timer == a.timer
    ensures !Roams(choice, destination, found) ==>
      b.state == Idle && b.index == a.index && 0.5 * IdleTime <= b.timer < 1.5 * IdleTime
    ensures b.path == if choice < 0.5 && destination.Some? then found else a.path
  {
    var requested := if choice < 0.5 && destination.Some? then a.(path := found) else a;
    if Roams(choice, destination, found) then
      requested.(index := 1, state := FollowingPath)
    else
      requested.(state := Idle, timer := ResetTimer(reset))
  }

  /** The path is over: there is none, or the cursor has run past its end. */
  predicate Exhausted(a: Agent) {
    a.path.None? || a.index >= |a.path.value|
  }

  /** The waypoint is reached: horizontal distance below 0.5, compared squared. */
  predicate Near(position: Point, target: Point) {
    var dx := target.x - position.x;
    var dz := target.z - position.z;
    dx * dx + dz * dz < 0.25
  }

  /**
   * One `update(deltaTime)`. IDLE: the timer drops by `deltaTime` and a
   * decision is taken only once it is at or below 0. FOLLOWING_PATH: an
   * exhausted path returns to IDLE with a fresh wait, cursor unchanged;
   * otherwise the cursor advances by exactly one when the waypoint is
   * near and stays put when it is not. The invariant is preserved.
   */
  function Step(a: Agent, t: Tick): (b: Agent)
    ensures Inv(a) ==> Inv(b)
    ensures a.state == Idle && a.timer - t.deltaTime > 0.0 ==> b == a.(timer := a.timer - t.deltaTime)
    ensures a.state == Idle && a.timer - t.deltaTime <= 0.0 ==>
      b == Decide(a.(timer := a.timer - t.deltaTime), t.choice, t.destination, t.found, t.reset)
    ensures a.state == FollowingPath && Exhausted(a) ==>
      b.state == Idle && b.index == a.index && b.path == a.path && 0.5 * IdleTime <= b.timer < 1.5 * IdleTime
    ensures a.state == FollowingPath && !Exhausted(a) ==>
      b.state == FollowingPath && b.path == a.path && b.timer == a.timer &&
      b.index == (if Near(t.position, a.path.value[a.index]) then a.index + 1 else a.index)
    ensures a.state == Turning ==> b == a
  {
    match a.state
    case Idle =>
      var waited := a.(timer := a.timer - t.deltaTime);
      if waited.timer <= 0.0 then Decide(waited, t.choice, t.destination, t.found, t.reset) else waited
    case FollowingPath =>
      if Exhausted(a) then a.(state := Idle, timer := ResetTimer(t.reset))
      else if Near(t.position, a.path.value[a.index]) then a.(index := a.index + 1)
      else a
    case Turning => a
  }

  /** The motion call of one `update`: stop while idle, steer at the current waypoint while following one, nothing otherwise. */
  function Intent(a: Agent): (m: Motion)
    ensures m.Stop? <==> a.state == Idle
    ensures m.Steer? <==> a.state == FollowingPath && !Exhausted(a)
    ensures m.Steer? ==> a.path.Some? && a.index < |a.path.value| && m.target == a.path.value[a.index]
  {
    if a.state == Idle then Stop
    else if a.state == FollowingPath && !Exhausted(a) then Steer(a.path.value[a.index])
    else Hold
  }

  /** The agent after a sequence of frames. */
  function Run(a: Agent, ticks: seq<Tick>): Agent
    decreases |ticks|
  {
    if ticks == [] then a else Run(Step(a, ticks[0]), ticks[1..])
  }

  /** Every run from a valid state ends in a valid state. */
  lemma {:induction false} RunKeepsInv(a: Agent, ticks: seq<Tick>)
    requires Inv(a)
    ensures Inv(Run(a, ticks))
    decreases |ticks|
  {
    if ticks != [] {
      RunKeepsInv(Step(a, ticks[0]), ticks[1..]);
    }
  }

  /**
   * From construction, whatever the frames bring, the agent is IDLE or
   * FOLLOWING_PATH, and while following it holds a path with its cursor in
   * `1..|path|`.
   */
  lemma NeverTurning(ticks: seq<Tick>)
    ensures var a := Run(Initial(), ticks);
      a.state != Turning &&
      (a.state == FollowingPath ==> a.path.Some? && 1 <= a.index <= |a.path.value|)
  {
    RunKeepsInv(Initial(), ticks);
  }

  /** `AIController`: the character itself is not modelled, only what the controller keeps. */
  class AIController {
    var state: AiState
    var timer: real
    var path: Option<seq<Point>>
    var currentPathIndex: nat

    function Current(): Agent
      reads this
    {
      Agent(state, timer, path, currentPathIndex)
    }

    ghost predicate Valid()
      reads this
    {
      Inv(Current())
    }

    constructor()
      ensures Valid() && Current() == Initial()
    {
      state := Idle;
      timer := IdleTime;
      path := None;
      currentPathIndex := 0;
    }

    /** `decideNextAction`; a choice in [0.5, 0.75) is reserved for turning and idles like one of 0.75 or more. */
    method DecideNextAction(choice: Unit, destination: Option<Point>, found: Option<seq<Point>>, reset: Unit)
      modifies this
      ensures Valid()
      ensures Current() == Decide(old(Current()), choice, destination, found, reset)
    {
      if choice < 0.5 {
        if destination.Some? {
          path := found;
          if found.Some? && |found.value| > 1 {
            currentPathIndex := 1;
            state := FollowingPath;
            return;
          }
        }
      }
      state := Idle;
      timer := ResetTimer(reset);
    }

    /** `update(deltaTime)`. */
    method Update(t: Tick) returns (motion: Motion)
      requires Valid()
      modifies this
      ensures Valid()
      ensures Current() == Step(old(Current()), t)
      ensures motion == Intent(old(Current()))
    {
      motion := Hold;
      if state == Idle {
        motion := Stop;
        timer := timer - t.deltaTime;
        if timer <= 0.0 {
          DecideNextAction(t.choice, t.destination, t.found, t.reset);
        }
      } else if state == FollowingPath {
        if path.None? || currentPathIndex >= |path.value| {
          state := Idle;
          timer := ResetTimer(t.reset);
          return;
        }
        var target := path.value[currentPathIndex];
        motion := Steer(target);
        if Near(t.position, target) {
          currentPathIndex := currentPathIndex + 1;
        }
      }
    }
  }
}
