/** The recording service bus the unit tests bind the component to. It counts the
    commands published, remembers the last one, and keeps one handler slot per
    inbound event kind. The handler types are parameters: the bus stores
    whatever it is handed and never looks inside. */
module ServiceBus {
  import opened Events
  import opened Results

  datatype MockServiceBus<S, C> = MockServiceBus(
    lastCommand: BrakeCommand,
    commandsPublished: nat,
    speedUpdateCallback: Option<S>,
    carDetectedCallback: Option<C>)

  /** The two handler slots agree. */
  ghost predicate SameHandlers<S, C>(a: MockServiceBus<S, C>, b: MockServiceBus<S, C>) {
    a.speedUpdateCallback == b.speedUpdateCallback && a.carDetectedCallback == b.carDetectedCallback
  }

  /** The published-command record agrees. */
  predicate SameRecord<S, C>(a: MockServiceBus<S, C>, b: MockServiceBus<S, C>) {
    a.lastCommand == b.lastCommand && a.commandsPublished == b.commandsPublished
  }

  /** A value-initialised bus: a zero command, nothing published, no handlers. */
  function Fresh<S, C>(): (b: MockServiceBus<S, C>)
    ensures b.commandsPublished == 0 && b.lastCommand == BrakeCommand(0.0)
    ensures b.speedUpdateCallback.None? && b.carDetectedCallback.None?
  {
    MockServiceBus(BrakeCommand(0.0), 0, None, None)
  }

  /** Records one published command; the handler slots are not touched. */
  function Publish<S, C>(b: MockServiceBus<S, C>, cmd: BrakeCommand): (b': MockServiceBus<S, C>)
    ensures b'.commandsPublished == b.commandsPublished + 1
    ensures b'.lastCommand == cmd
    ensures SameHandlers(b, b')
  {
    b.(lastCommand := cmd, commandsPublished := b.commandsPublished + 1)
  }

  /** Publishes the commands in order. */
  function PublishAll<S, C>(b: MockServiceBus<S, C>, cmds: seq<BrakeCommand>): MockServiceBus<S, C>
    decreases |cmds|
  {
    if cmds == [] then b else PublishAll(Publish(b, cmds[0]), cmds[1..])
  }

  /** The bus counts every publication and keeps only the latest command. */
  lemma {:induction false} PublishAllRecords<S, C>(b: MockServiceBus<S, C>, cmds: seq<BrakeCommand>)
    ensures PublishAll(b, cmds).commandsPublished == b.commandsPublished + |cmds|
    ensures PublishAll(b, cmds).lastCommand == if cmds == [] then b.lastCommand else cmds[|cmds| - 1]
    ensures SameHandlers(b, PublishAll(b, cmds))
    decreases |cmds|
  {
    if cmds != [] {
      PublishAllRecords(Publish(b, cmds[0]), cmds[1..]);
    }
  }

  /** Registers the speed-update handler, replacing any earlier one. */
  function SubscribeSpeedUpdate<S, C>(b: MockServiceBus<S, C>, callback: S): (b': MockServiceBus<S, C>)
    ensures b'.speedUpdateCallback == Some(callback)
    ensures b'.carDetectedCallback == b.carDetectedCallback
    ensures SameRecord(b, b')
  {
    b.(speedUpdateCallback := Some(callback))
  }

  /** Registers the car-detected handler, replacing any earlier one. */
  function SubscribeCarDetected<S, C>(b: MockServiceBus<S, C>, callback: C): (b': MockServiceBus<S, C>)
    ensures b'.carDetectedCallback == Some(callback)
    ensures b'.speedUpdateCallback == b.speedUpdateCallback
    ensures SameRecord(b, b')
  {
    b.(carDetectedCallback := Some(callback))
  }

  /** Each slot holds one handler: a second subscription of the same kind
      leaves the bus as if only the second had been made. */
  lemma SubscribeReplaces<S, C>(b: MockServiceBus<S, C>, f: S, g: S, h: C, k: C)
    ensures SubscribeSpeedUpdate(SubscribeSpeedUpdate(b, f), g) == SubscribeSpeedUpdate(b, g)
    ensures SubscribeCarDetected(SubscribeCarDetected(b, h), k) == SubscribeCarDetected(b, k)
  {
  }

  /** The two slots are independent: the order of subscription does not matter. */
  lemma SubscribeSlotsIndependent<S, C>(b: MockServiceBus<S, C>, f: S, h: C)
    ensures SubscribeCarDetected(SubscribeSpeedUpdate(b, f), h) == SubscribeSpeedUpdate(SubscribeCarDetected(b, h), f)
  {
  }
}
