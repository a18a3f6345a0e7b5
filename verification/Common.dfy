/** The enumerations of the plant and the fixed-width arithmetic of the controller. */
module Common {

  datatype Option<+T> = None | Some(value: T)

  datatype Command = Off | On

  datatype FreqType = VariableFreq | ConstantFreq

  /** The plant is either all constant-speed fans, or has fan 0 driven at variable speed. */
  datatype FanType = TypeConstant | TypeConstantVariable

  datatype SystemMode = ModeClose | ModeManual | ModeAuto | ModeEmergency

  /** `NoRunMode` is the value 0 that the running-mode register holds before anyone has set it. */
  datatype RunMode = NoRunMode | RunCool | RunHeat | RunFan | RunWet

  datatype SystemState = StateClosed | StateCool | StateHeat | StateFan | StateWet | StateExFan

  const TWO_8 := 0x100
  const TWO_16 := 0x1_0000
  const TWO_32 := 0x1_0000_0000

  function U8(x: int): (r: nat)
    ensures r < TWO_8
    ensures 0 <= x < TWO_8 ==> r == x
  {
    x % TWO_8
  }

  function U16(x: int): (r: nat)
    ensures r < TWO_16
    ensures 0 <= x < TWO_16 ==> r == x
  {
    x % TWO_16
  }

  function U32(x: int): (r: nat)
    ensures r < TWO_32
    ensures 0 <= x < TWO_32 ==> r == x
  {
    x % TWO_32
  }

  /** Signed division as C defines it: the quotient is rounded toward zero. */
  function TruncDiv(a: int, b: int): (q: int)
    requires b > 0
    ensures a >= 0 ==> q == a / b
    ensures a < 0 ==> q == -((-a) / b)
  {
    if a >= 0 then a / b else -((-a) / b)
  }

  function Min(a: int, b: int): int {
    if a <= b then a else b
  }

  function Max(a: int, b: int): int {
    if a <= b then b else a
  }
}
