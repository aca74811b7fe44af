/** dev_query: a fixed table from property id to an integer answer. */
module Query {
  import opened Platform

  /** Property ids. */
  const P_PROP_TYPE: int := 0
  const P_PROP_NODES: int := 1
  const P_PROP_TOPOLOGY: int := 2
  const P_PROP_ROWS: int := 3
  const P_PROP_COLS: int := 4
  const P_PROP_PLANES: int := 5
  const P_PROP_CHIPROWS: int := 6
  const P_PROP_CHIPCOLS: int := 7
  const P_PROP_SIMD: int := 8
  const P_PROP_MEMSIZE: int := 9
  const P_PROP_MEMBASE: int := 10
  const P_PROP_VERSION: int := 11
  const P_PROP_MEMARCH: int := 12
  const P_PROP_WHOAMI: int := 13

  /** Device type reported for P_PROP_TYPE. */
  const P_DEV_EPIPHANY: int := 1

  datatype Answer = Value(v: int) | NotImplemented | Unknown

  /** The switch of dev_query, with each literal as written in the source. */
  function PropertyTable(property: int): (a: Answer)
    ensures a.Value? ==> 0 <= a.v
    ensures a.NotImplemented? <==> property == P_PROP_MEMARCH || property == P_PROP_WHOAMI
    ensures a.Unknown? <==> property < P_PROP_TYPE || property > P_PROP_WHOAMI
  {
    if property == P_PROP_TYPE then Value(P_DEV_EPIPHANY)
    else if property == P_PROP_NODES then Value(16)
    else if property == P_PROP_TOPOLOGY then Value(2)
    else if property == P_PROP_ROWS then Value(4)
    else if property == P_PROP_COLS then Value(4)
    else if property == P_PROP_PLANES then Value(4)
    else if property == P_PROP_CHIPROWS then Value(4)
    else if property == P_PROP_CHIPCOLS then Value(4)
    else if property == P_PROP_SIMD then Value(1)
    else if property == P_PROP_MEMSIZE then Value(32768)
    else if property == P_PROP_MEMBASE then Value(0x8080_0000)
    else if property == P_PROP_VERSION then Value(0xdead_beef)
    else if property == P_PROP_MEMARCH || property == P_PROP_WHOAMI then NotImplemented
    else Unknown
  }

  /** Conversion of an integer to the 32-bit two's-complement `int` the function returns. */
  function ToInt32(x: int): (r: int)
    ensures -0x8000_0000 <= r < 0x8000_0000
    ensures (r - x) % 0x1_0000_0000 == 0
  {
    var m := x % 0x1_0000_0000;
    if m < 0x8000_0000 then m else m - 0x1_0000_0000
  }

  /** dev_query as written: the answer travels through a 32-bit `int`. */
  function QueryAsWritten(devPresent: bool, property: int): (r: int)
    ensures -0x8000_0000 <= r < 0x8000_0000
  {
    if !devPresent then -EINVAL
    else match PropertyTable(property)
      case Value(v) => ToInt32(v)
      case NotImplemented => -ENOSYS
      case Unknown => -EINVAL
  }

  /** Two answers of the table come back negative, indistinguishable from an error code. */
  lemma LargeAnswersReadAsErrors()
    ensures QueryAsWritten(true, P_PROP_MEMBASE) == -2139095040 < 0
    ensures QueryAsWritten(true, P_PROP_VERSION) == -559038737 < 0
  {
  }

  /** Properties dev_query answers with a value. */
  predicate Answered(property: int)
  {
    PropertyTable(property).Value?
  }

  /** dev_query as evidently intended: every answered property yields its
      (non-negative) value, so a negative result always means an error. */
  function Query(devPresent: bool, property: int): (r: int)
    ensures r >= 0 <==> devPresent && Answered(property)
    ensures !devPresent ==> r == -EINVAL
    ensures devPresent && (property == P_PROP_MEMARCH || property == P_PROP_WHOAMI) ==> r == -ENOSYS
    ensures devPresent && property == P_PROP_NODES ==> r == CORES
    ensures devPresent && property == P_PROP_ROWS ==> r == ROWS
    ensures devPresent && property == P_PROP_COLS ==> r == COLS
    ensures devPresent && (property < P_PROP_TYPE || property > P_PROP_WHOAMI) ==> r == -EINVAL
  {
    if !devPresent then -EINVAL
    else match PropertyTable(property)
      case Value(v) => v
      case NotImplemented => -ENOSYS
      case Unknown => -EINVAL
  }

  /** The two definitions differ only on the answers that do not fit a 32-bit int. */
  lemma QueryAgreesBelowInt32(devPresent: bool, property: int)
    requires property != P_PROP_MEMBASE && property != P_PROP_VERSION
    ensures QueryAsWritten(devPresent, property) == Query(devPresent, property)
  {
  }
}
