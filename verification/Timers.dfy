/**
 A software timer as the moment it is due, on a clock counting seconds. Registering a timer stops
 it, sets its delay and starts it again, whatever state it was in.
 */
module Timers {

  datatype Timer = Timer(due: nat) {
    predicate Running(now: nat) {
      now < due
    }
  }

  const STOPPED := Timer(0)

  function Regist(now: nat, delay: nat): Timer {
    Timer(now + delay)
  }
}
