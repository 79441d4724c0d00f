/**
 * The service-data payload that a b-parasite soil sensor broadcasts, and the
 * decoder that turns it into a reading (`prst_sensor_data_t` in
 * src/prst_data.h).
 *
 * Layout (multi-byte fields big-endian):
 *   byte 0      high nibble: protocol version; bit 0: light sensor present
 *   byte 1      low nibble: run counter
 *   bytes 2-3   battery voltage, mV
 *   bytes 4-5   temperature, hundredths of a degree Celsius (unsigned)
 *   bytes 6-7   relative humidity, raw
 *   bytes 8-9   soil moisture, raw
 *   bytes 10-15 MAC address, in transmitted order
 *   bytes 16-17 illuminance, lux (only when the light flag is set)
 */
module PrstData {
  import opened Wrappers

  /** The only protocol version the decoder accepts. */
  const SupportedProtocolVersion: bv8 := 2

  /** The decoded struct, with the C++ field widths (`uint8_t` is `bv8`,
      `uint16_t` is `bv16`). A payload of another protocol version yields only
      the version: the decoder returns before assigning any other field, so
      the struct's remaining fields stay uninitialised and are absent here.
      `lux` is likewise unset unless the light flag is set. */
  datatype SensorData =
    | Unsupported(protocolVersion: bv8)
    | Supported(protocolVersion: bv8, hasLightSensor: bool, runCounter: bv8,
                battMv: bv16, tempCentiC: bv16, humi: bv16, soilMoisture: bv16,
                macAddr: seq<bv8>, lux: Option<bv16>)

  /** High and low byte of a 16-bit field. */
  function HighByte(v: bv16): (b: bv8) { (v >> 8) as bv8 }
  function LowByte(v: bv16): (b: bv8) { (v & 0xff) as bv8 }

  /** The 16-bit field whose big-endian byte pair is `hi`, `lo`. */
  function Join16(hi: bv8, lo: bv8): (v: bv16)
    ensures HighByte(v) == hi && LowByte(v) == lo
  {
    (hi as bv16) * 0x100 + lo as bv16
  }

  /** How many bytes of service data the decoder reads, decided by byte 0 alone:
      byte 0 only for an unsupported version, bytes 0-15 when the light flag is
      clear, bytes 0-17 when it is set. */
  function RequiredLength(b0: bv8): (n: nat)
    ensures n == 1 || n == 16 || n == 18
    ensures n > 1 <==> b0 >> 4 == SupportedProtocolVersion
    ensures n == 18 <==> n > 1 && b0 & 0x01 == 0x01
  {
    if b0 / 16 != SupportedProtocolVersion then 1
    else if b0 % 2 == 1 then 18
    else 16
  }

  /** The decoder takes a bare pointer: the caller must supply every byte it reads. */
  predicate Readable(data: seq<bv8>)
    ensures Readable(data) <==>
      && |data| >= 1
      && (data[0] >> 4 == SupportedProtocolVersion ==> |data| >= 16)
      && (data[0] >> 4 == SupportedProtocolVersion && data[0] & 0x01 == 0x01 ==> |data| >= 18)
  {
    |data| >= 1 && |data| >= RequiredLength(data[0])
  }

  /** Reference meaning of the layout, by division, remainder and multiplication. */
  function Decode(data: seq<bv8>): (sensor: SensorData)
    requires Readable(data)
    ensures WellFormed(sensor)
  {
    var version := data[0] / 16;
    if version != SupportedProtocolVersion then Unsupported(version)
    else
      var hasLight := data[0] % 2 == 1;
      Supported(version, hasLight, data[1] % 16,
                Join16(data[2], data[3]), Join16(data[4], data[5]),
                Join16(data[6], data[7]), Join16(data[8], data[9]),
                data[10..16],
                if hasLight then Some(Join16(data[16], data[17])) else None)
  }

  /** `from_servicedata`: fills the reading field by field with the shifts and
      masks of the C++ code and copies the MAC address byte by byte. */
  method FromServiceData(serviceData: seq<bv8>) returns (sensor: SensorData)
    requires Readable(serviceData)
    ensures sensor == Decode(serviceData)
  {
    var b0 := serviceData[0];
    ByteBits(b0);
    var protocolVersion := b0 >> 4;
    if protocolVersion != SupportedProtocolVersion {
      // Unsupported protocol version: nothing else is read.
      return Unsupported(protocolVersion);
    }

    var hasLightSensor := b0 & 0x01 == 0x01;

    var b1 := serviceData[1];
    ByteBits(b1);
    var runCounter := b1 & 0x0f;

    var battMv := ReadU16(serviceData[2], serviceData[3]);
    var tempCentiCelsius := ReadU16(serviceData[4], serviceData[5]);
    var humi := ReadU16(serviceData[6], serviceData[7]);
    var soilMoisture := ReadU16(serviceData[8], serviceData[9]);

    var macAddr := new bv8[6];
    for i := 0 to 6
      invariant macAddr[..i] == serviceData[10..10 + i]
    {
      macAddr[i] := serviceData[10 + i];
    }

    var lux: Option<bv16> := None;
    if hasLightSensor {
      var raw := ReadU16(serviceData[16], serviceData[17]);
      lux := Some(raw);
    }

    sensor := Supported(protocolVersion, hasLightSensor, runCounter,
                        battMv, tempCentiCelsius, humi, soilMoisture, macAddr[..], lux);
  }

  /** One big-endian field as the C++ code assembles it: `field = hi << 8; field |= lo;`. */
  method ReadU16(hi: bv8, lo: bv8) returns (field: bv16)
    ensures field == Join16(hi, lo)
    ensures HighByte(field) == hi && LowByte(field) == lo
  {
    field := (hi as bv16) << 8;
    field := field | lo as bv16;
  }

  /** The shifts and masks of the decoder are nibble and bit arithmetic. */
  lemma ByteBits(b: bv8)
    ensures b >> 4 == b / 16 && (b / 16) as int == b as int / 16
    ensures (b & 0x01 == 0x01) == (b % 2 == 1)
    ensures b & 0x0f == b % 16 && (b % 16) as int == b as int % 16
  {
  }

  /** `temp_c`: the unsigned centi-degree field divided by 100 (float rounding
      is not modelled). */
  function TemperatureC(tempCentiC: bv16): (celsius: real)
    ensures 0.0 <= celsius <= 655.35
    ensures celsius * 100.0 == tempCentiC as int as real
  {
    tempCentiC as int as real / 100.0
  }

  /** `battery_pct`: a linear, unclamped scale from 2200 mV (0 %) to 3200 mV (100 %). */
  function BatteryPct(battMv: bv16): (pct: real)
    ensures pct < 0.0 <==> battMv < 2200
    ensures pct == 0.0 <==> battMv == 2200
    ensures pct == 100.0 <==> battMv == 3200
    ensures pct > 100.0 <==> battMv > 3200
  {
    (battMv as int as real - 2200.0) / (3200.0 - 2200.0) * 100.0
  }

  /** Every millivolt moves the percentage by a tenth of a point, in the same direction. */
  lemma BatteryPctLinear(a: bv16, b: bv16)
    ensures BatteryPct(b) - BatteryPct(a) == (b as int - a as int) as real / 10.0
    ensures a as int <= b as int ==> BatteryPct(a) <= BatteryPct(b)
  {
  }

  /** The version is the high nibble of byte 0, so it is below 16, and only
      version 2 is decoded further. */
  lemma DecodeVersionGate(data: seq<bv8>)
    requires Readable(data)
    ensures Decode(data).protocolVersion == data[0] >> 4 < 16
    ensures Decode(data).Supported? <==> data[0] >> 4 == 2
  {
    ByteBits(data[0]);
  }

  /** For version 2 every field is the bit pattern the layout assigns it. */
  lemma DecodeFields(data: seq<bv8>)
    requires Readable(data) && Decode(data).Supported?
    ensures Decode(data).hasLightSensor == (data[0] & 0x01 == 0x01)
    ensures Decode(data).runCounter == data[1] & 0x0f < 16
    ensures HighByte(Decode(data).battMv) == data[2] && LowByte(Decode(data).battMv) == data[3]
    ensures HighByte(Decode(data).tempCentiC) == data[4] && LowByte(Decode(data).tempCentiC) == data[5]
    ensures HighByte(Decode(data).humi) == data[6] && LowByte(Decode(data).humi) == data[7]
    ensures HighByte(Decode(data).soilMoisture) == data[8] && LowByte(Decode(data).soilMoisture) == data[9]
    ensures |Decode(data).macAddr| == 6
    ensures forall i :: 0 <= i < 6 ==> Decode(data).macAddr[i] == data[10 + i]
    ensures Decode(data).lux.Some? <==> Decode(data).hasLightSensor
    ensures Decode(data).lux.Some? ==>
              HighByte(Decode(data).lux.value) == data[16] && LowByte(Decode(data).lux.value) == data[17]
  {
    ByteBits(data[0]);
    ByteBits(data[1]);
  }

  /** The decoder reads no byte beyond `RequiredLength(byte 0)`: two buffers that
      agree on those bytes decode alike, whatever follows. In particular an
      unsupported version depends on byte 0 alone, and bytes 16-17 matter only
      when the light flag is set. */
  lemma DecodeReadsOnlyRequired(a: seq<bv8>, b: seq<bv8>)
    requires Readable(a)
    requires |b| >= RequiredLength(a[0])
    requires a[..RequiredLength(a[0])] == b[..RequiredLength(a[0])]
    ensures Readable(b)
    ensures Decode(a) == Decode(b)
  {
    var n := RequiredLength(a[0]);
    assert forall i :: 0 <= i < n ==> a[i] == a[..n][i] == b[..n][i] == b[i];
    assert a[0] == b[0];
    if Decode(a).Supported? {
      assert a[10..16] == b[10..16];
    }
  }

  /** Splitting a field into its bytes and joining them gives the field back. */
  lemma SplitJoin(v: bv16)
    ensures Join16(HighByte(v), LowByte(v)) == v
  {
  }

  /** A reading the sensor can send: a nibble-sized version and run counter,
      six address bytes, and lux present exactly when the light flag is set. */
  predicate WellFormed(sensor: SensorData)
  {
    match sensor
    case Unsupported(version) => version < 16 && version != SupportedProtocolVersion
    case Supported(version, hasLight, counter, _, _, _, _, mac, lux) =>
      version == SupportedProtocolVersion && counter < 16 && |mac| == 6 && lux.Some? == hasLight
  }

  /** The payload a sensor transmits for a reading (the unused bits set to zero). */
  function Encode(sensor: SensorData): (data: seq<bv8>)
    requires WellFormed(sensor)
  {
    match sensor
    case Unsupported(version) => [version * 16]
    case Supported(version, hasLight, counter, batt, temp, humi, soil, mac, lux) =>
      [version * 16 + (if hasLight then 1 else 0), counter,
       HighByte(batt), LowByte(batt), HighByte(temp), LowByte(temp),
       HighByte(humi), LowByte(humi), HighByte(soil), LowByte(soil)]
      + mac
      + (if hasLight then [HighByte(lux.value), LowByte(lux.value)] else [])
  }

  lemma VersionByte(version: bv8, hasLight: bool)
    requires version < 16
    ensures (version * 16 + (if hasLight then 1 else 0)) / 16 == version
    ensures (version * 16 + (if hasLight then 1 else 0)) % 2 == 1 <==> hasLight
  {
  }

  /** Decoding what a sensor encodes gives the reading back, from a buffer of
      exactly the required length. */
  lemma {:induction false} DecodeEncode(sensor: SensorData)
    requires WellFormed(sensor)
    ensures |Encode(sensor)| >= 1 && |Encode(sensor)| == RequiredLength(Encode(sensor)[0])
    ensures Decode(Encode(sensor)) == sensor
  {
    var data := Encode(sensor);
    match sensor
    case Unsupported(version) =>
      VersionByte(version, false);
    case Supported(version, hasLight, counter, batt, temp, humi, soil, mac, lux) =>
      VersionByte(version, hasLight);
      assert data[1] % 16 == counter;
      SplitJoin(batt);
      SplitJoin(temp);
      SplitJoin(humi);
      SplitJoin(soil);
      assert data[10..16] == mac;
      if hasLight {
        SplitJoin(lux.value);
      }
  }
}
