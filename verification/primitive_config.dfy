/** A configuration record with two primitive `int` properties and their
    getters and setters. Both fields are Java `int`s; the setters take
    `int` arguments, so no value outside the 32-bit range ever arises and no
    wrap-around is involved. */
module PrimitiveConfig {

  /** A Java `int`. */
  newtype Int32 = x: int | -0x8000_0000 <= x < 0x8000_0000

  datatype Config = Config(port: Int32, primitiveDefaultValue: Int32)

  /** A newly constructed record: `port` has the `int` default 0 and
      `primitiveDefaultValue` its initializer 9999. */
  function New(): (c: Config)
    ensures GetPort(c) == 0
    ensures GetPrimitiveDefaultValue(c) == 9999
  {
    Config(0, 9999)
  }

  function GetPort(c: Config): Int32
  {
    c.port
  }

  /** Sets `port`; `primitiveDefaultValue` is left unchanged. */
  function SetPort(c: Config, port: Int32): (r: Config)
    ensures GetPort(r) == port
    ensures GetPrimitiveDefaultValue(r) == GetPrimitiveDefaultValue(c)
  {
    c.(port := port)
  }

  function GetPrimitiveDefaultValue(c: Config): Int32
  {
    c.primitiveDefaultValue
  }

  /** Sets `primitiveDefaultValue`; `port` is left unchanged. */
  function SetPrimitiveDefaultValue(c: Config, value: Int32): (r: Config)
    ensures GetPrimitiveDefaultValue(r) == value
    ensures GetPort(r) == GetPort(c)
  {
    c.(primitiveDefaultValue := value)
  }

  /** A record is determined by what its two getters return. */
  lemma GettersDetermineConfig(c: Config, d: Config)
    requires GetPort(c) == GetPort(d)
    requires GetPrimitiveDefaultValue(c) == GetPrimitiveDefaultValue(d)
    ensures c == d
  {
  }

  /** Setting a property to the value its getter returns changes nothing. */
  lemma SetGetIdentity(c: Config)
    ensures SetPort(c, GetPort(c)) == c
    ensures SetPrimitiveDefaultValue(c, GetPrimitiveDefaultValue(c)) == c
  {
  }

  /** A second call of the same setter overrides the first. */
  lemma LastSetWins(c: Config, a: Int32, b: Int32)
    ensures SetPort(SetPort(c, a), b) == SetPort(c, b)
    ensures SetPrimitiveDefaultValue(SetPrimitiveDefaultValue(c, a), b) == SetPrimitiveDefaultValue(c, b)
  {
  }

  /** The two setters act on independent fields, so their order does not
      matter. */
  lemma SettersCommute(c: Config, port: Int32, value: Int32)
    ensures SetPort(SetPrimitiveDefaultValue(c, value), port) == SetPrimitiveDefaultValue(SetPort(c, port), value)
  {
  }
}
