/** The collision-decision component on its own: its two pieces of state, the
    two event handlers as pure step functions, and the threshold setter. The
    bus it publishes through is added in module Wiring. */
module Brake {
  import opened Events
  import opened Results

  /** The collision threshold a new component starts with, in seconds. */
  const DefaultCollisionThreshS: real := 5.0

  /** The smallest threshold the setter accepts, in seconds. */
  const MinCollisionThreshS: real := 1.0

  /** The component's state: the collision threshold in seconds and the last
      observed own speed in metres per second. */
  datatype AutoBrake = AutoBrake(collisionThreshS: real, speedMps: real) {

    /** The configuration invariant: the threshold is never below the minimum. */
    predicate Valid() {
      collisionThreshS >= MinCollisionThreshS
    }

    function GetCollisionThresh(): real {
      collisionThreshS
    }

    function GetSpeedMps(): real {
      speedMps
    }
  }

  /** The one exception the component raises: a threshold below the minimum. */
  datatype Error = CollisionLessThanOne

  /** A newly constructed component: at rest, with the default threshold. */
  function Init(): (ab: AutoBrake)
    ensures ab.Valid()
    ensures ab.GetSpeedMps() == 0.0
    ensures ab.GetCollisionThresh() == DefaultCollisionThreshS
  {
    AutoBrake(DefaultCollisionThreshS, 0.0)
  }

  /** The speed-update handler: the new speed overwrites the old one. */
  function OnSpeedUpdate(ab: AutoBrake, su: SpeedUpdate): (ab': AutoBrake)
    ensures ab'.GetSpeedMps() == su.velocityMps
    ensures ab'.GetCollisionThresh() == ab.GetCollisionThresh()
  {
    ab.(speedMps := su.velocityMps)
  }

  /** Handles a series of speed updates, oldest first. */
  function OnSpeedUpdates(ab: AutoBrake, us: seq<SpeedUpdate>): AutoBrake
    decreases |us|
  {
    if us == [] then ab else OnSpeedUpdates(OnSpeedUpdate(ab, us[0]), us[1..])
  }

  /** Only the latest observation counts: after a non-empty series of updates
      the speed is the last one's and the threshold is what it was. */
  lemma {:induction false} LastSpeedWins(ab: AutoBrake, us: seq<SpeedUpdate>)
    requires us != []
    ensures OnSpeedUpdates(ab, us).GetSpeedMps() == us[|us| - 1].velocityMps
    ensures OnSpeedUpdates(ab, us).GetCollisionThresh() == ab.GetCollisionThresh()
    decreases |us|
  {
    if |us| > 1 {
      LastSpeedWins(OnSpeedUpdate(ab, us[0]), us[1..]);
    }
  }

  /** An update forgets every earlier one, and repeating it changes nothing. */
  lemma SpeedUpdateOverwrites(ab: AutoBrake, a: SpeedUpdate, b: SpeedUpdate)
    ensures OnSpeedUpdate(OnSpeedUpdate(ab, a), b) == OnSpeedUpdate(ab, b)
    ensures OnSpeedUpdate(OnSpeedUpdate(ab, b), b) == OnSpeedUpdate(ab, b)
  {
  }

  /** Own speed minus the obstacle's speed: positive when the gap is shrinking. */
  function RelativeVelocity(ab: AutoBrake, cd: CarDetected): real {
    ab.speedMps - cd.velocityMps
  }

  /** At the current relative velocity the gap to the obstacle is gone after
      `t` seconds. */
  ghost predicate ClosesAfter(ab: AutoBrake, cd: CarDetected, t: real) {
    RelativeVelocity(ab, cd) * t == cd.distanceM
  }

  /** Distance over relative velocity. With no relative motion the double
      quotient is an infinity or NaN, which no comparison in the decision
      accepts; here it is absent. */
  function TimeToCollision(ab: AutoBrake, cd: CarDetected): (ttc: Option<real>)
    ensures ttc.Some? <==> RelativeVelocity(ab, cd) != 0.0
    ensures ttc.Some? ==> ClosesAfter(ab, cd, ttc.value)
    ensures forall t :: ttc.Some? && ClosesAfter(ab, cd, t) ==> t == ttc.value
  {
    var rel := RelativeVelocity(ab, cd);
    if rel == 0.0 then None else Some(cd.distanceM / rel)
  }

  /** The reference condition for braking: the obstacle is approaching or
      receding at a non-zero rate and the gap closes after `t` seconds, with
      `t` positive and within the threshold. */
  ghost predicate Imminent(ab: AutoBrake, cd: CarDetected, t: real) {
    && RelativeVelocity(ab, cd) != 0.0
    && ClosesAfter(ab, cd, t)
    && 0.0 < t <= ab.collisionThreshS
  }

  /** The car-detected decision: the command to publish, if any. */
  function Decide(ab: AutoBrake, cd: CarDetected): (cmd: Option<BrakeCommand>)
    ensures cmd.Some? ==> Imminent(ab, cd, cmd.value.time2CollisionS)
  {
    match TimeToCollision(ab, cd)
    case None => None
    case Some(ttc) =>
      if 0.0 < ttc && ttc <= ab.collisionThreshS then Some(BrakeCommand(ttc)) else None
  }

  /** The decision brakes exactly when the gap closes within the threshold,
      and then the command carries that closing time. */
  lemma DecideIffImminent(ab: AutoBrake, cd: CarDetected)
    ensures Decide(ab, cd).Some? <==> exists t :: Imminent(ab, cd, t)
    ensures forall t :: Imminent(ab, cd, t) ==> Decide(ab, cd) == Some(BrakeCommand(t))
  {
  }

  /** An obstacle ahead that is not approaching never triggers a command. */
  lemma NonClosingNeverBrakes(ab: AutoBrake, cd: CarDetected)
    requires cd.distanceM > 0.0
    requires cd.velocityMps >= ab.speedMps
    ensures Decide(ab, cd) == None
  {
  }

  /** A command is only issued when distance and closing speed have the same
      sign, so for an obstacle ahead only while the gap is shrinking. */
  lemma BrakingMeansApproaching(ab: AutoBrake, cd: CarDetected)
    requires Decide(ab, cd).Some?
    ensures cd.distanceM > 0.0 <==> RelativeVelocity(ab, cd) > 0.0
    ensures cd.distanceM != 0.0
  {
  }

  /** The threshold setter. Below the minimum it raises and changes nothing;
      otherwise the threshold becomes exactly `x`. */
  function SetCollisionThresh(ab: AutoBrake, x: real): (r: Result<AutoBrake, Error>)
    ensures r.Err? <==> x < MinCollisionThreshS
    ensures r.Ok? ==> r.value.GetCollisionThresh() == x && r.value.GetSpeedMps() == ab.GetSpeedMps()
    ensures r.Ok? ==> r.value.Valid()
  {
    if x < MinCollisionThreshS then Err(CollisionLessThanOne) else Ok(ab.(collisionThreshS := x))
  }

  /** The setter with the caller catching its exception: a rejected value
      leaves the component exactly as it was. */
  function SetCollisionThreshCaught(ab: AutoBrake, x: real): (ab': AutoBrake)
    ensures x < MinCollisionThreshS ==> ab' == ab
    ensures x >= MinCollisionThreshS ==> ab'.GetCollisionThresh() == x
    ensures ab'.GetSpeedMps() == ab.GetSpeedMps()
    ensures ab.Valid() ==> ab'.Valid()
  {
    match SetCollisionThresh(ab, x)
    case Ok(next) => next
    case Err(_) => ab
  }

  /** Setting a threshold twice is the same as setting it once, and the
      boundary value is accepted. */
  lemma SetCollisionThreshIdempotent(ab: AutoBrake, x: real)
    ensures SetCollisionThreshCaught(SetCollisionThreshCaught(ab, x), x) == SetCollisionThreshCaught(ab, x)
    ensures SetCollisionThresh(ab, MinCollisionThreshS).Ok?
  {
  }
}
