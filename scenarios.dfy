/**
 * The unit tests of test/main/main.c and test/main/unit_tests.c, and an
 * example of the BLE writers' range check, restated as members whose
 * contracts give the expected results. They follow from the contracts of the members they call.
 */
module Scenarios {
  import opened CTypes
  import opened FixedPoint
  import opened FloatSort
  import opened RingBuffer
  import opened Ble

  /**
   * "should store negative values", over the reals: -18.3 scales to -1830 = 0xF8DA.
   * (In single precision the product is -1829.99988 and truncates to -1829.)
   */
  lemma StoreNegative()
    ensures Encodable(-18.3) && Trunc(-18.3 * Scale) == -1830
    ensures StoreFloat(-18.3) == [0xDA, 0xF8]
  {
  }

  /** "should store zero". */
  lemma StoreZero()
    ensures Encodable(0.0) && StoreFloat(0.0) == [0x00, 0x00]
  {
  }

  /** "should store positive values": 23.78 scales to 2378 = 0x094A. */
  lemma StorePositive()
    ensures Encodable(23.78) && Trunc(23.78 * Scale) == 2378
    ensures StoreFloat(23.78) == [0x4A, 0x09]
  {
  }

  /** "should keep only 2 digits after the decimal point": 9.87654321 scales to 987 = 0x03DB. */
  lemma StoreKeepsTwoDecimals()
    ensures Encodable(9.87654321) && Trunc(9.87654321 * Scale) == 987
    ensures StoreFloat(9.87654321) == [0xDB, 0x03]
    ensures ReadFloat(StoreFloat(9.87654321)) == 9.87
  {
    ReadStore(9.87654321);
  }

  /** The samples of "should get all the items sorted" sort to [-18.63, 0.8, 33.1]. */
  lemma SortThreeSamples()
    ensures SortAscending([0.8, -18.63, 33.1]) == [-18.63, 0.8, 33.1]
  {
    var s := [0.8, -18.63, 33.1];
    var t := [-18.63, 0.8, 33.1];
    assert s == [s[0]] + [s[1]] + [s[2]];
    assert t == [s[1]] + [s[0]] + [s[2]];
    assert multiset(s) == multiset(t);
    assert Sorted(t);
    SortedUnique(SortAscending(s), t);
  }

  /** The retained samples of "should overwrite the oldest item" sort to [-7.2, 0.4, 23.29]. */
  lemma SortRetainedSamples()
    ensures SortAscending([23.29, -7.2, 0.4]) == [-7.2, 0.4, 23.29]
  {
    var s := [23.29, -7.2, 0.4];
    var t := [-7.2, 0.4, 23.29];
    assert s == [s[0]] + [s[1]] + [s[2]];
    assert t == [s[1]] + [s[2]] + [s[0]];
    assert multiset(s) == multiset(t);
    assert Sorted(t);
    SortedUnique(SortAscending(s), t);
  }

  /** "should get no item, if no item hasn't been added into the ring-buffer yet". */
  method GetFromFreshBuffer() returns (count: nat)
    ensures count == 0
  {
    var storage := new Slot[3](_ => Empty);
    var rbuf := new RingBuf(storage, 3);
    var actual;
    count, actual := rbuf.Get(0.0, true);
  }

  /** "should get the last item added to the ring-buffer". */
  method GetLastItem() returns (count: nat, actual: real)
    ensures count == 1 && actual == 23.29
  {
    var storage := new Slot[3](_ => Empty);
    var rbuf := new RingBuf(storage, 3);
    rbuf.Put(5.43, true);
    rbuf.Put(23.29, true);
    count, actual := rbuf.Get(0.0, true);
  }

  /** "should get all the items sorted in ascending order". */
  method GetAllSortedAscending() returns (count: nat, actuals: seq<real>)
    ensures count == 3 && actuals == [-18.63, 0.8, 33.1]
  {
    var storage := new Slot[5](_ => Empty);
    var rbuf := new RingBuf(storage, 5);
    rbuf.Put(0.8, true);
    rbuf.Put(-18.63, true);
    rbuf.Put(33.1, true);
    assert rbuf.history == [0.8, -18.63, 33.1];
    var dst := new real[5];
    count := rbuf.GetAllSorted(dst);
    actuals := dst[..count];
    assert Window(rbuf.history, 5) == [0.8, -18.63, 33.1];
    SortThreeSamples();
  }

  /** "should overwrite the oldest item, if the ring-buffer is full". */
  method OverwriteOldest() returns (getCount: nat, actual: real, sortedCount: nat, actuals: seq<real>)
    ensures getCount == 1 && actual == 0.4
    ensures sortedCount == 3 && actuals == [-7.2, 0.4, 23.29]
  {
    var storage := new Slot[3](_ => Empty);
    var rbuf := new RingBuf(storage, 3);
    rbuf.Put(5.43, true);
    rbuf.Put(23.29, true);
    rbuf.Put(-7.2, true);
    assert rbuf.history == [5.43, 23.29, -7.2];
    rbuf.Put(0.4, true);
    ghost var h := rbuf.history;
    assert h == [5.43, 23.29, -7.2, 0.4];
    assert Window(h, 3) == [23.29, -7.2, 0.4];
    getCount, actual := rbuf.Get(0.0, true);
    var dst := new real[3];
    sortedCount := rbuf.GetAllSorted(dst);
    actuals := dst[..sortedCount];
    SortRetainedSamples();
  }

  /** An example of the BLE writers' range check: a temperature of 400.0 is rejected; a humidity of 100 is accepted. */
  method PublishOutOfRange() returns (temperatureErr: EspErr, humidityErr: EspErr, stored: seq<uint8>)
    ensures temperatureErr == EspErrInvalidArg
    ensures humidityErr == EspOk && stored == [0x10, 0x27]
  {
    var values := new CharacteristicValues();
    temperatureErr := values.WriteTemperature(400.0);
    humidityErr := values.WriteHumidity(100.0);
    stored := values.humidityValue[..];
  }
}
