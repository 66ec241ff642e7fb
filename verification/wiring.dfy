/** The component bound to the recording bus. Construction registers the
    component's two handlers in the bus's slots; delivering an event invokes
    the handler in its slot, and the car-detected handler publishes back
    through the same bus. */
module Wiring {
  import opened Events
  import opened Results
  import opened ServiceBus
  import opened Brake

  /** The handler the component registers for speed updates. */
  datatype SpeedHandler = AutoBrakeSpeedHandler

  /** The handler the component registers for obstacle detections. */
  datatype CarDetectedHandler = AutoBrakeCarDetectedHandler

  type Bus = MockServiceBus<SpeedHandler, CarDetectedHandler>

  /** Invoking a slot that holds no handler throws. */
  datatype DeliveryError = NoHandlerSubscribed

  /** A component together with the bus it is bound to. */
  datatype System = System(brake: AutoBrake, bus: Bus) {

    /** Both of the component's handlers are in the bus's slots. */
    predicate Wired() {
      bus.speedUpdateCallback == Some(AutoBrakeSpeedHandler)
      && bus.carDetectedCallback == Some(AutoBrakeCarDetectedHandler)
    }

    predicate Valid() {
      brake.Valid() && Wired()
    }
  }

  /** Builds the component on `bus`: it starts at rest with the default
      threshold, both handlers are registered, and nothing is published. */
  function Construct(bus: Bus): (s: System)
    ensures s.Valid()
    ensures s.brake.GetSpeedMps() == 0.0 && s.brake.GetCollisionThresh() == DefaultCollisionThreshS
    ensures SameRecord(bus, s.bus)
  {
    var withSpeed := SubscribeSpeedUpdate(bus, AutoBrakeSpeedHandler);
    System(Init(), SubscribeCarDetected(withSpeed, AutoBrakeCarDetectedHandler))
  }

  /** Invokes the speed-update slot. The speed is overwritten; nothing is
      published and the threshold stays. */
  function DeliverSpeedUpdate(s: System, su: SpeedUpdate): (r: Result<System, DeliveryError>)
    ensures r.Err? <==> s.bus.speedUpdateCallback.None?
    ensures r.Ok? ==> r.value.brake.GetSpeedMps() == su.velocityMps
    ensures r.Ok? ==> r.value.brake.GetCollisionThresh() == s.brake.GetCollisionThresh()
    ensures r.Ok? ==> r.value.bus == s.bus
  {
    match s.bus.speedUpdateCallback
    case None => Err(NoHandlerSubscribed)
    case Some(AutoBrakeSpeedHandler) => Ok(s.(brake := OnSpeedUpdate(s.brake, su)))
  }

  /** Invokes the car-detected slot. The component's state never changes.
      Exactly one command is published, carrying the closing time, when the
      gap closes within the threshold; otherwise the bus is left as it was. */
  function DeliverCarDetected(s: System, cd: CarDetected): (r: Result<System, DeliveryError>)
    ensures r.Err? <==> s.bus.carDetectedCallback.None?
    ensures r.Ok? ==> r.value.brake == s.brake
    ensures r.Ok? ==> SameHandlers(s.bus, r.value.bus)
    ensures r.Ok? ==>
      (r.value.bus.commandsPublished == s.bus.commandsPublished + 1 <==> exists t :: Imminent(s.brake, cd, t))
    ensures r.Ok? && r.value.bus.commandsPublished == s.bus.commandsPublished + 1 ==>
      Imminent(s.brake, cd, r.value.bus.lastCommand.time2CollisionS)
    ensures r.Ok? && r.value.bus.commandsPublished != s.bus.commandsPublished + 1 ==> r.value.bus == s.bus
  {
    DecideIffImminent(s.brake, cd);
    match s.bus.carDetectedCallback
    case None => Err(NoHandlerSubscribed)
    case Some(AutoBrakeCarDetectedHandler) =>
      match Decide(s.brake, cd)
      case None => Ok(s)
      case Some(cmd) => Ok(s.(bus := Publish(s.bus, cmd)))
  }

  /** The threshold setter called on the bound component. The bus is never
      touched, so earlier decisions stand. */
  function SetThreshold(s: System, x: real): (r: Result<System, Error>)
    ensures r.Err? <==> x < MinCollisionThreshS
    ensures r.Ok? ==> r.value.brake.GetCollisionThresh() == x
    ensures r.Ok? ==> r.value.brake.GetSpeedMps() == s.brake.GetSpeedMps()
    ensures r.Ok? ==> r.value.bus == s.bus
  {
    match SetCollisionThresh(s.brake, x)
    case Err(e) => Err(e)
    case Ok(brake) => Ok(s.(brake := brake))
  }

  /** One thing a caller can do to the bound component. */
  datatype Action = Speed(su: SpeedUpdate) | Detect(cd: CarDetected) | SetThresh(x: real)

  /** Performs one action with the caller catching any exception, so a
      rejected threshold or an empty slot leaves the system as it was. */
  function Step(s: System, a: Action): System {
    match a
    case Speed(su) => DeliverSpeedUpdate(s, su).ValueOr(s)
    case Detect(cd) => DeliverCarDetected(s, cd).ValueOr(s)
    case SetThresh(x) => SetThreshold(s, x).ValueOr(s)
  }

  /** Performs the actions in order. */
  function Run(s: System, actions: seq<Action>): System
    decreases |actions|
  {
    if actions == [] then s else Run(Step(s, actions[0]), actions[1..])
  }

  /** The number of detections among the actions. */
  function Detections(actions: seq<Action>): nat
    decreases |actions|
  {
    if actions == [] then 0 else (if actions[0].Detect? then 1 else 0) + Detections(actions[1..])
  }

  /** One step keeps the configuration invariant and the wiring, and publishes
      at most one command, and only for a detection. */
  lemma StepPreservesValid(s: System, a: Action)
    requires s.Valid()
    ensures Step(s, a).Valid()
    ensures Step(s, a).bus.commandsPublished <= s.bus.commandsPublished + (if a.Detect? then 1 else 0)
    ensures Step(s, a).bus.commandsPublished >= s.bus.commandsPublished
  {
  }

  /** The threshold stays at or above the minimum and both handlers stay
      registered after any sequence of actions, and each detection publishes
      at most one command. */
  lemma {:induction false} RunPreservesValid(s: System, actions: seq<Action>)
    requires s.Valid()
    ensures Run(s, actions).Valid()
    ensures s.bus.commandsPublished <= Run(s, actions).bus.commandsPublished
    ensures Run(s, actions).bus.commandsPublished <= s.bus.commandsPublished + Detections(actions)
    decreases |actions|
  {
    if actions != [] {
      StepPreservesValid(s, actions[0]);
      RunPreservesValid(Step(s, actions[0]), actions[1..]);
    }
  }

  /** The speed updates as actions, in order. */
  function SpeedActions(us: seq<SpeedUpdate>): (actions: seq<Action>)
    decreases |us|
  {
    if us == [] then [] else [Speed(us[0])] + SpeedActions(us[1..])
  }

  /** On a wired system, delivering speed updates through the bus is the
      component handling them on its own; the bus is not touched. */
  lemma {:induction false} RunSpeedActions(s: System, us: seq<SpeedUpdate>)
    requires s.Wired()
    ensures Run(s, SpeedActions(us)) == s.(brake := OnSpeedUpdates(s.brake, us))
    decreases |us|
  {
    if us != [] {
      var actions := SpeedActions(us);
      assert actions[0] == Speed(us[0]) && actions[1..] == SpeedActions(us[1..]);
      RunSpeedActions(Step(s, actions[0]), us[1..]);
    }
  }

  /** On a wired system a run of speed updates alone leaves the last speed,
      keeps the threshold and publishes nothing. */
  lemma {:induction false} SpeedOnlyRun(s: System, us: seq<SpeedUpdate>)
    requires s.Wired()
    requires us != []
    ensures Run(s, SpeedActions(us)).brake.GetSpeedMps() == us[|us| - 1].velocityMps
    ensures Run(s, SpeedActions(us)).brake.GetCollisionThresh() == s.brake.GetCollisionThresh()
    ensures Run(s, SpeedActions(us)).bus == s.bus
  {
    RunSpeedActions(s, us);
    LastSpeedWins(s.brake, us);
  }
}
