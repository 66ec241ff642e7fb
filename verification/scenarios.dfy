/** The component's documented scenarios, each stated as a lemma about a
    component freshly bound to an empty recording bus. */
module Scenarios {
  import opened Events
  import opened Results
  import opened ServiceBus
  import opened Brake
  import opened Wiring

  /** A component constructed on a value-initialised bus. */
  function Bound(): System {
    Construct(ServiceBus.Fresh())
  }

  /** A fresh component reports speed 0 and threshold 5, and nothing has
      been published. */
  lemma InitialState()
    ensures Bound().brake.GetSpeedMps() == 0.0
    ensures Bound().brake.GetCollisionThresh() == 5.0
    ensures Bound().bus.commandsPublished == 0
  {
  }

  /** A threshold of 0.5 is rejected and the threshold stays 5; a threshold
      of exactly 1 is accepted. */
  lemma SensitivityLessThanOne()
    ensures SetThreshold(Bound(), 0.5) == Err(CollisionLessThanOne)
    ensures Step(Bound(), SetThresh(0.5)).brake.GetCollisionThresh() == 5.0
    ensures SetThreshold(Bound(), 1.0).Ok?
    ensures Step(Bound(), SetThresh(1.0)).brake.GetCollisionThresh() == 1.0
  {
  }

  /** Speeds 100, 50 and 0 delivered in turn are each reported back. */
  lemma SpeedIsSavedAfterUpdate()
    ensures Run(Bound(), [Speed(SpeedUpdate(100.0))]).brake.GetSpeedMps() == 100.0
    ensures Run(Bound(), [Speed(SpeedUpdate(100.0)), Speed(SpeedUpdate(50.0))]).brake.GetSpeedMps() == 50.0
    ensures Run(Bound(), [Speed(SpeedUpdate(100.0)), Speed(SpeedUpdate(50.0)), Speed(SpeedUpdate(0.0))]).brake.GetSpeedMps() == 0.0
  {
    SpeedOnlyRun(Bound(), [SpeedUpdate(100.0)]);
    SpeedOnlyRun(Bound(), [SpeedUpdate(100.0), SpeedUpdate(50.0)]);
    SpeedOnlyRun(Bound(), [SpeedUpdate(100.0), SpeedUpdate(50.0), SpeedUpdate(0.0)]);
  }

  /** Threshold 2, own speed 100 and an obstacle 1000 m ahead at 50 m/s: the
      gap closes after 20 s, so nothing is published. */
  lemma NoAlertWhenNotImminent()
    ensures Run(Bound(), [SetThresh(2.0), Speed(SpeedUpdate(100.0)), Detect(CarDetected(1000.0, 50.0))])
              .bus.commandsPublished == 0
  {
    var s0 := Step(Bound(), SetThresh(2.0));
    var s1 := Step(s0, Speed(SpeedUpdate(100.0)));
    var cd := CarDetected(1000.0, 50.0);
    assert s1.brake == AutoBrake(2.0, 100.0) && s1.Valid();
    assert TimeToCollision(s1.brake, cd) == Some(20.0);
    assert Step(s1, Detect(cd)) == s1;
    assert [SetThresh(2.0), Speed(SpeedUpdate(100.0)), Detect(cd)][1..] == [Speed(SpeedUpdate(100.0)), Detect(cd)];
  }

  /** Threshold 10, own speed 100 and a stationary obstacle 100 m ahead: the
      gap closes after 1 s, so exactly one command carrying 1 s is published. */
  lemma AlertWhenImminent()
    ensures Run(Bound(), [SetThresh(10.0), Speed(SpeedUpdate(100.0)), Detect(CarDetected(100.0, 0.0))])
              .bus.commandsPublished == 1
    ensures Run(Bound(), [SetThresh(10.0), Speed(SpeedUpdate(100.0)), Detect(CarDetected(100.0, 0.0))])
              .bus.lastCommand == BrakeCommand(1.0)
  {
    var s0 := Step(Bound(), SetThresh(10.0));
    var s1 := Step(s0, Speed(SpeedUpdate(100.0)));
    var cd := CarDetected(100.0, 0.0);
    assert s1.brake == AutoBrake(10.0, 100.0) && s1.Valid() && s1.bus.commandsPublished == 0;
    assert TimeToCollision(s1.brake, cd) == Some(1.0);
    assert Decide(s1.brake, cd) == Some(BrakeCommand(1.0));
    assert Step(s1, Detect(cd)).bus.commandsPublished == 1;
    assert [SetThresh(10.0), Speed(SpeedUpdate(100.0)), Detect(cd)][1..] == [Speed(SpeedUpdate(100.0)), Detect(cd)];
  }
}
