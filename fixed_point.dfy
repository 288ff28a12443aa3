/**
 * The two-byte fixed-point encoding used for the BLE characteristic values:
 * a reading is scaled by 100, truncated toward zero to an int16_t, and stored
 * least significant byte first. main/store_float_into_uint8_arr.c and
 * main/utils.c hold the same encoder; utils.c also holds the decoder.
 *
 * Readings are modelled as mathematical reals rather than IEEE-754 floats.
 */
module FixedPoint {
  import opened CTypes

  /** The scale factor applied before truncation: two decimals survive. */
  const Scale: real := 100.0

  /** C's float-to-integer conversion: truncation toward zero. */
  function Trunc(x: real): (r: int)
    ensures 0.0 <= x ==> r as real <= x < r as real + 1.0
    ensures x < 0.0 ==> r as real - 1.0 < x <= r as real
  {
    if x >= 0.0 then x.Floor else -((-x).Floor)
  }

  /** The `(int16_t)(v * 100)` cast is defined only when the truncated value fits. */
  predicate Encodable(v: real) {
    InInt16Range(Trunc(v * Scale))
  }

  /**
   * Splits an int16_t into `(uint8_t)(i & 0xFF)` and `(uint8_t)(i >> 8)`, low byte first.
   * `>>` on a negative int16 is an arithmetic shift (a floor division by 256).
   * The two bytes are the 16-bit two's-complement pattern of i.
   */
  function SplitLE(i: int16): (arr: seq<uint8>)
    ensures |arr| == 2
    ensures arr[1] as int * 0x100 + arr[0] as int == if i < 0 then i as int + 0x10000 else i as int
  {
    [(i as int % 0x100) as uint8, ((i as int / 0x100) % 0x100) as uint8]
  }

  /**
   * Reassembles `(int16_t)((msb << 8) | lsb)`: the 16-bit pattern read back as
   * two's complement, so the result is congruent to it modulo 2^16 and is
   * negative exactly when the sign bit of msb is set.
   */
  function JoinLE(lsb: uint8, msb: uint8): (i: int16)
    ensures (msb as int * 0x100 + lsb as int - i as int) % 0x10000 == 0
    ensures i < 0 <==> msb >= 0x80
  {
    var u := msb as int * 0x100 + lsb as int;
    (if u >= 0x8000 then u - 0x10000 else u) as int16
  }

  /** Joining the two bytes of a split int16 gives the int16 back. */
  lemma JoinSplit(i: int16)
    ensures JoinLE(SplitLE(i)[0], SplitLE(i)[1]) == i
  {
    var arr := SplitLE(i);
    var u := arr[1] as int * 0x100 + arr[0] as int;
    assert u == if i < 0 then i as int + 0x10000 else i as int;
    assert i < 0 <==> u >= 0x8000;
  }

  /** Splitting a joined byte pair gives the same two bytes: the encoding is a bijection. */
  lemma SplitJoin(lsb: uint8, msb: uint8)
    ensures SplitLE(JoinLE(lsb, msb)) == [lsb, msb]
  {
    var i := JoinLE(lsb, msb);
    var arr := SplitLE(i);
    var u := msb as int * 0x100 + lsb as int;
    assert arr[1] as int * 0x100 + arr[0] as int == u;
    assert arr[0] as int == u % 0x100;
    assert arr[1] as int == u / 0x100;
  }

  /** store_float_into_uint8_arr: arr[0] gets the low byte, arr[1] the high byte of trunc(v * 100). */
  function StoreFloat(v: real): (arr: seq<uint8>)
    requires Encodable(v)
    ensures |arr| == 2
    ensures JoinLE(arr[0], arr[1]) as int == Trunc(v * Scale)
  {
    var scaled := Trunc(v * Scale) as int16;
    JoinSplit(scaled);
    SplitLE(scaled)
  }

  /** read_float_from_uint8_arr: the int16 the bytes hold, divided by 100. */
  function ReadFloat(arr: seq<uint8>): (v: real)
    requires |arr| == 2
    ensures -327.68 <= v <= 327.67
  {
    JoinLE(arr[0], arr[1]) as real / Scale
  }

  /**
   * Decoding an encoded reading yields the reading truncated toward zero to
   * two decimals: it lies within 0.01 of v, on the same side of zero.
   */
  lemma ReadStore(v: real)
    requires Encodable(v)
    ensures ReadFloat(StoreFloat(v)) == Trunc(v * Scale) as real / Scale
    ensures 0.0 <= v ==> 0.0 <= ReadFloat(StoreFloat(v)) <= v < ReadFloat(StoreFloat(v)) + 0.01
    ensures v < 0.0 ==> ReadFloat(StoreFloat(v)) - 0.01 < v <= ReadFloat(StoreFloat(v)) <= 0.0
  {
    var t := Trunc(v * Scale);
    assert ReadFloat(StoreFloat(v)) == t as real / Scale;
  }
}
