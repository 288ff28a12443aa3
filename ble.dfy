/**
 * The characteristic-value slice of main/ble.c: the range guards of
 * ble_write_temperature / ble_write_humidity, the two retained 2-byte
 * characteristic buffers they fill, and the sentinel dispatch of the read
 * handler that picks which buffer answers a read.
 *
 * The ranges are those of the Bluetooth GATT Specification Supplement,
 * section 3.204 (Temperature, 0x2A6E) and section 3.114 (Humidity, 0x2A6F).
 */
module Ble {
  import opened CTypes
  import opened FixedPoint

  /** esp_err_t values the writers return. */
  datatype EspErr = EspOk | EspErrInvalidArg

  const TemperatureMin: real := -273.15
  const TemperatureMax: real := 327.67
  const HumidityMin: real := 0.0
  const HumidityMax: real := 100.0

  /** The stored attribute values that tell a temperature read from a humidity read. */
  const TemperatureSentinel: seq<uint8> := [0x80, 0x00]
  const HumiditySentinel: seq<uint8> := [0xFF, 0xFF]

  /** ble_write_temperature rejects `temperature < -273.15 || temperature > 327.67`. */
  predicate TemperatureAccepted(t: real) {
    !(t < TemperatureMin || t > TemperatureMax)
  }

  /** ble_write_humidity rejects `humidity < 0.00 || humidity > 100.00`. */
  predicate HumidityAccepted(h: real) {
    !(h < HumidityMin || h > HumidityMax)
  }

  /** Every accepted temperature scales to [-27315, 32767], so its int16 cast is defined. */
  lemma TemperatureAcceptedIsEncodable(t: real)
    requires TemperatureAccepted(t)
    ensures -27315 <= Trunc(t * Scale) <= 32767
    ensures Encodable(t)
  {
  }

  /** Every accepted humidity scales to [0, 10000], so its int16 cast is defined. */
  lemma HumidityAcceptedIsEncodable(h: real)
    requires HumidityAccepted(h)
    ensures 0 <= Trunc(h * Scale) <= 10000
    ensures Encodable(h)
  {
  }

  /** The two sentinels differ, so at most one branch of the read dispatch matches. */
  lemma SentinelsDiffer()
    ensures TemperatureSentinel != HumiditySentinel
  {
    assert TemperatureSentinel[0] != HumiditySentinel[0];
  }

  /** What the read handler does with a read event. */
  datatype ReadOutcome =
    | Respond(value: seq<uint8>)  // esp_ble_gatts_send_response with these bytes
    | AssertionFailure            // assert(0) or assert(sentinel_value_length == 2)

  /** The module-level characteristic buffers of main/ble.c. */
  class CharacteristicValues {
    var temperatureValue: array<uint8>
    var humidityValue: array<uint8>

    predicate Valid()
      reads this
    {
      temperatureValue.Length == 2 && humidityValue.Length == 2 && temperatureValue != humidityValue
    }

    /** The static buffers start zero-filled. */
    constructor ()
      ensures Valid() && fresh(temperatureValue) && fresh(humidityValue)
      ensures temperatureValue[..] == [0, 0] && humidityValue[..] == [0, 0]
    {
      temperatureValue := new uint8[2](_ => 0);
      humidityValue := new uint8[2](_ => 0);
    }

    /**
     * ble_write_temperature: an out-of-range reading is rejected with
     * ESP_ERR_INVALID_ARG and changes nothing; an accepted one is stored as
     * its two-byte encoding. The humidity buffer is never touched.
     */
    method WriteTemperature(temperature: real) returns (err: EspErr)
      requires Valid()
      modifies temperatureValue
      ensures err == if TemperatureAccepted(temperature) then EspOk else EspErrInvalidArg
      ensures err == EspOk ==> Encodable(temperature) && temperatureValue[..] == StoreFloat(temperature)
      ensures err != EspOk ==> temperatureValue[..] == old(temperatureValue[..])
      ensures humidityValue[..] == old(humidityValue[..])
    {
      if temperature < TemperatureMin || temperature > TemperatureMax {
        return EspErrInvalidArg;
      }
      TemperatureAcceptedIsEncodable(temperature);
      var arr := StoreFloat(temperature);
      temperatureValue[1] := arr[1];
      temperatureValue[0] := arr[0];
      assert temperatureValue[..] == arr;
      return EspOk;
    }

    /**
     * ble_write_humidity: an out-of-range reading is rejected with
     * ESP_ERR_INVALID_ARG and changes nothing; an accepted one is stored as
     * its two-byte encoding. The temperature buffer is never touched.
     */
    method WriteHumidity(humidity: real) returns (err: EspErr)
      requires Valid()
      modifies humidityValue
      ensures err == if HumidityAccepted(humidity) then EspOk else EspErrInvalidArg
      ensures err == EspOk ==> Encodable(humidity) && humidityValue[..] == StoreFloat(humidity)
      ensures err != EspOk ==> humidityValue[..] == old(humidityValue[..])
      ensures temperatureValue[..] == old(temperatureValue[..])
    {
      if humidity < HumidityMin || humidity > HumidityMax {
        return EspErrInvalidArg;
      }
      HumidityAcceptedIsEncodable(humidity);
      var arr := StoreFloat(humidity);
      humidityValue[1] := arr[1];
      humidityValue[0] := arr[0];
      assert humidityValue[..] == arr;
      return EspOk;
    }

    /**
     * The dispatch of gatts_read_event_handler, given the stored value of the
     * attribute being read: the temperature sentinel answers with the two
     * temperature bytes, the humidity sentinel with the two humidity bytes,
     * and anything else (or a value that is not 2 bytes long) fails an assertion.
     */
    method ReadEvent(attrValue: seq<uint8>) returns (outcome: ReadOutcome)
      requires Valid()
      ensures attrValue == TemperatureSentinel ==> outcome == Respond(temperatureValue[..])
      ensures attrValue == HumiditySentinel ==> outcome == Respond(humidityValue[..])
      ensures outcome.AssertionFailure? <==> attrValue != TemperatureSentinel && attrValue != HumiditySentinel
      ensures outcome.Respond? ==> |outcome.value| == 2
    {
      if |attrValue| != 2 {
        return AssertionFailure;
      }
      if attrValue == TemperatureSentinel {
        outcome := Respond(temperatureValue[..]);
      } else if attrValue == HumiditySentinel {
        outcome := Respond(humidityValue[..]);
      } else {
        outcome := AssertionFailure;
      }
    }
  }
}
