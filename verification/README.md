# AutoBrake collision decision — a Dafny model

This project models the collision-decision component of a small automotive
example. The component is `AutoBrake` and lives in `src/UnitTesting.cpp`.
It keeps two values: its own speed and a collision threshold. It listens on a
service bus for `SpeedUpdate` and `CarDetected` events. It publishes a
`BrakeCommand` when the time to collision with the obstacle ahead is positive
and at most the threshold. The tests bind it to `MockServiceBus`, a recording
bus that counts publications, keeps the last command and holds one handler
slot per event kind.

Everything is functional. The state is an immutable record, and every handler
is a pure step function from state and event to new state. A C++ `double`
becomes a finite Dafny `real`.

Modules:

- `Results` (results.dfy): `Option` and `Result`. A C++ exception becomes an `Err` value.
- `Events` (events.dfy): the records `SpeedUpdate`, `CarDetected` and `BrakeCommand`.
- `ServiceBus` (service_bus.dfy): `MockServiceBus<S, C>`, with `Publish` and the two `Subscribe` operations. `S` and `C` are the handler types of the two slots.
- `Brake` (brake.dfy): the `AutoBrake` state and its operations.
  - `Valid` is the invariant: threshold at least 1.
  - `GetCollisionThresh` and `GetSpeedMps` are the two read accessors.
  - `OnSpeedUpdate` is the speed handler.
  - `TimeToCollision` and `Decide` form the detection handler's decision.
  - `SetCollisionThresh` is the setter.
- `Wiring` (wiring.dfy): a component bound to a recording bus.
  - Construction registers both handlers.
  - Delivering an event invokes the handler in its slot. An empty slot throws, as invoking an empty `std::function` does.
  - A detection publishes through the same bus.
  - `Run` performs a sequence of actions with every exception caught.
- `Scenarios` (scenarios.dfy): the component's unit-test sections, stated as lemmas.

The decision is related to an independent reference, `Brake.Imminent`. At the
current relative velocity the gap closes after `t` seconds, and
`0 < t <= threshold`. A command is published exactly when some such `t`
exists, and the command then carries that `t`.

The setter throws a plain `std::runtime_error` (src/UnitTesting.cpp:84); the
model's single error is `Brake.Error.CollisionLessThanOne`. The recording bus
keeps only a count and the last command (src/UnitTesting.cpp:58-59); the model
keeps the same two.

## Model

| member | source | states |
|---|---|---|
| ServiceBus.Fresh | src/UnitTesting.cpp:58-61 | a value-initialised bus holds a zero command, has published nothing and has both handler slots empty |
| ServiceBus.Publish | src/UnitTesting.cpp:47-50 | a publication adds one to the count, makes the command the last one, and leaves the handler slots alone |
| ServiceBus.PublishAllRecords | src/UnitTesting.cpp:47-59 | after publishing any sequence of commands, the count has grown by its length; the last command is the sequence's last, or unchanged if the sequence is empty; the slots are untouched |
| ServiceBus.SubscribeSpeedUpdate | src/UnitTesting.cpp:51-53 | the speed slot holds the new handler; the other slot, the count and the last command are unchanged |
| ServiceBus.SubscribeCarDetected | src/UnitTesting.cpp:54-56 | the detection slot holds the new handler; the other slot, the count and the last command are unchanged |
| ServiceBus.SubscribeReplaces | src/UnitTesting.cpp:51-56 | each slot holds one handler: subscribing twice equals subscribing only the second |
| ServiceBus.SubscribeSlotsIndependent | src/UnitTesting.cpp:51-56 | the two slots are independent: the order of the two subscriptions does not matter |
| Brake.Init | src/UnitTesting.cpp:66-68 | a new component reports speed 0 and threshold 5 and satisfies the threshold invariant |
| Brake.OnSpeedUpdate | src/UnitTesting.cpp:70-72 | the speed becomes the event's velocity, whatever it was; the threshold is unchanged |
| Brake.LastSpeedWins | src/UnitTesting.cpp:70-72 | after any non-empty series of speed updates the speed is the last one's and the threshold is unchanged |
| Brake.SpeedUpdateOverwrites | src/UnitTesting.cpp:70-72 | an update forgets the earlier one, and repeating an update changes nothing |
| Brake.TimeToCollision | src/UnitTesting.cpp:75-76 | a time exists exactly when the relative velocity is non-zero; it is the unique time after which the gap closes at that velocity |
| Brake.Decide | src/UnitTesting.cpp:74-80 | any command it issues carries a time that is positive, at most the threshold, and the closing time of the gap |
| Brake.DecideIffImminent | src/UnitTesting.cpp:74-80 | a command is issued if and only if the gap closes after some positive time within the threshold; the command then carries exactly that time |
| Brake.NonClosingNeverBrakes | src/UnitTesting.cpp:75-77 | an obstacle at positive distance moving at least as fast as the vehicle never triggers a command |
| Brake.BrakingMeansApproaching | src/UnitTesting.cpp:75-77 | when a command is issued, the distance is non-zero, and it is positive exactly when the gap is shrinking |
| Brake.SetCollisionThresh | src/UnitTesting.cpp:82-87 | it fails if and only if the value is below 1; on success the threshold is exactly the value (1 included), the speed is kept and the invariant holds |
| Brake.SetCollisionThreshCaught | src/UnitTesting.cpp:82-87 | a rejected value leaves the component exactly as it was; an accepted one becomes the threshold; the invariant is preserved either way |
| Brake.SetCollisionThreshIdempotent | src/UnitTesting.cpp:82-87 | setting the same threshold twice equals setting it once; the boundary value 1 is accepted |
| Wiring.Construct | src/UnitTesting.cpp:66-81 | construction registers both handlers, starts at speed 0 with threshold 5, and publishes nothing |
| Wiring.DeliverSpeedUpdate | src/UnitTesting.cpp:70-72 | delivery fails only when no speed handler is registered; otherwise the speed is overwritten, the threshold kept, and the bus unchanged |
| Wiring.DeliverCarDetected | src/UnitTesting.cpp:74-80 | delivery fails only when no detection handler is registered; otherwise the component's state is unchanged; the count grows by one if and only if the gap closes within the threshold, and the published command then carries the closing time; otherwise the bus is unchanged |
| Wiring.SetThreshold | src/UnitTesting.cpp:82-87 | the setter on a bound component fails if and only if the value is below 1; it never touches the bus, so earlier decisions stand |
| Wiring.StepPreservesValid | src/UnitTesting.cpp:66-87 | any single action keeps the threshold invariant and both registrations, and adds at most one publication, and only for a detection |
| Wiring.RunPreservesValid | src/UnitTesting.cpp:66-87 | after any sequence of actions the threshold is at least 1 and both handlers are registered; publications never decrease and grow by at most the number of detections |
| Wiring.RunSpeedActions | src/UnitTesting.cpp:70-72 | on a bound component, delivering a series of speed updates is the component handling them on its own, with the bus untouched |
| Wiring.SpeedOnlyRun | src/UnitTesting.cpp:70-72 | on a bound component, a non-empty run of speed updates leaves the last speed, keeps the threshold and publishes nothing |
| Scenarios.InitialState | src/UnitTesting.cpp:105-111 | a freshly bound component reports speed 0 and threshold 5, with zero publications |
| Scenarios.SensitivityLessThanOne | src/UnitTesting.cpp:113-114 | threshold 0.5 is rejected and the threshold stays 5; threshold 1 is accepted |
| Scenarios.SpeedIsSavedAfterUpdate | src/UnitTesting.cpp:117-124 | speeds 100, 50 and 0 delivered in turn are each reported back |
| Scenarios.NoAlertWhenNotImminent | src/UnitTesting.cpp:126-132 | threshold 2, speed 100, obstacle 1000 m ahead at 50 m/s: no publication |
| Scenarios.AlertWhenImminent | src/UnitTesting.cpp:134-141 | threshold 10, speed 100, stationary obstacle 100 m ahead: exactly one command, carrying 1 s |

## Left out

- IEEE-754 special values are not modelled, because Dafny reals are finite. The C++ setter accepts NaN and +infinity, since `x < 1` is false for both (src/UnitTesting.cpp:83). An infinite threshold would then let an infinite time to collision publish. The model cannot represent either value.
- Rounding of `double` arithmetic is not modelled: exact real arithmetic stands in for it. Signed zero is not modelled either. Overflow and underflow of intermediate results can flip the decision. For example, with own speed near the largest double, obstacle velocity its negation and distance 1, the C++ difference overflows to +infinity, the quotient is 0 and nothing is published, while the model publishes.
- Brake.TimeToCollision: a zero relative velocity is an explicit "no time" branch. In the C++ the quotient is an infinity or NaN there (src/UnitTesting.cpp:76). Neither passes `> 0 && <= threshold` for a finite threshold, so the decision is the same.
- ServiceBus.Publish: the publication count is an unbounded `nat`. The source's `int` would overflow after 2^31 - 1 publications; the model does not represent that.
- Closure and `std::function` mechanics are not modelled. The two lambdas capturing `this` and the bus become the tags `Wiring.SpeedHandler` and `Wiring.CarDetectedHandler`. Invoking a slot runs the component's handler on the bound state.
- `IServiceBus` is abstract, with the recording bus as its only implementation in this file. The model has the recording bus only. The virtual destructor has no counterpart.
- The exception's message text "Collision less than 1." is not modelled: the failure is the error value `CollisionLessThanOne`.
- The Catch2 harness and macros, `Approx` comparison, and the commented-out printf test runner (src/UnitTesting.cpp:1-19) are not modelled. The test sections appear only as the `Scenarios` lemmas.
- Concurrency is not modelled: the component is single-threaded and every handler runs to completion.
