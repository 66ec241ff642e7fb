/** The three event records that travel over the service bus. Every `double`
    of the component is a finite `real` here; rounding is not modelled. */
module Events {

  /** The vehicle's own speed, in metres per second. */
  datatype SpeedUpdate = SpeedUpdate(velocityMps: real)

  /** An obstacle ahead: its distance in metres and its own speed in metres
      per second, in the same frame of reference as the vehicle. */
  datatype CarDetected = CarDetected(distanceM: real, velocityMps: real)

  /** The only outbound event: seconds left until the gap to the obstacle closes. */
  datatype BrakeCommand = BrakeCommand(time2CollisionS: real)
}
