/** One rooftop unit, as far as the group controller reads and commands it. */
module Units {
  import opened Common

  /** What the unit reports. */
  datatype UnitInputs = UnitInputs(
    running: bool, stopErr: bool, commErr: bool, online: bool, compRunning: bool, supAirTemp: int)
  {
    /** Neither stopped by a fault nor out of communication. */
    predicate Healthy() {
      !stopErr && !commErr
    }

    predicate CompressorBusy() {
      compRunning && Healthy()
    }
  }

  /** What the unit has been told. */
  datatype Orders = Orders(
    mode: RunMode, switchCmd: Command, switchState: Command, coolTempSet: nat, heatTempSet: nat, freAirSet: nat)

  class ModularRoof {
    var io: UnitInputs
    var told: Orders

    constructor ()
      ensures told == Orders(NoRunMode, Off, Off, 260, 200, 30000)
    {
      io := UnitInputs(false, false, false, false, false, 0);
      told := Orders(NoRunMode, Off, Off, 260, 200, 30000);
    }

    method SwitchOpen()
      modifies `told
      ensures told == if io.online && !io.stopErr then old(told).(switchCmd := On, switchState := On)
                      else old(told)
    {
      if io.online && !io.stopErr {
        told := told.(switchCmd := On, switchState := On);
      }
    }

    method SwitchClose()
      modifies `told
      ensures told == if io.running then old(told).(switchCmd := Off, switchState := Off) else old(told)
    {
      if io.running {
        told := told.(switchCmd := Off, switchState := Off);
      }
    }
  }
}
