/**
 * The battery indicator of the dashboard (src/battery_util.cpp): the icon
 * chosen for a charge percentage, the host's own battery percentage derived
 * from its voltage, and the one-slot cache that redraws the icon only when
 * it changes.
 */
module BatteryUtil {
  import opened Wrappers

  type u32 = x: int | 0 <= x < 0x1_0000_0000

  /** An icon, by rank: 0 is the emptiest battery, 10 the fullest. */
  type Bucket = b: int | 0 <= b <= 10

  /** The icon-font code point `battery_icon` returns for each rank. */
  const GlyphCodes: seq<char> :=
    ['\U{F582}', '\U{F579}', '\U{F57A}', '\U{F57B}', '\U{F57C}', '\U{F57D}',
     '\U{F57E}', '\U{F57F}', '\U{F580}', '\U{F581}', '\U{F578}']

  /** The one-character string drawn for a rank. */
  function Glyph(bucket: Bucket): (glyph: string)
    ensures |glyph| == 1
  {
    [GlyphCodes[bucket]]
  }

  /** The eleven glyphs differ from each other and from the empty string, so
      comparing glyph strings is comparing ranks. */
  lemma GlyphInjective(a: Bucket, b: Bucket)
    ensures Glyph(a) == Glyph(b) <==> a == b
    ensures Glyph(a) != ""
  {
    assert Glyph(a)[0] == GlyphCodes[a];
  }

  /** The thresholds of the icon chain in ascending order: bucket b (b >= 1)
      is chosen exactly when the percentage is above `Thresholds[b - 1]` and
      at most the next threshold. */
  const Thresholds: seq<real> := [10.0, 20.0, 30.0, 40.0, 50.0, 60.0, 70.0, 80.0, 90.0, 95.0]

  /** `battery_icon`: strict `>` comparisons from the top threshold down; every
      value at or below 10, negative ones included, gets the lowest glyph. */
  function BatteryIcon(pct: real): (bucket: Bucket)
    ensures bucket > 0 ==> pct > Thresholds[bucket - 1]
    ensures bucket < 10 ==> pct <= Thresholds[bucket]
  {
    if pct > 95.0 then 10
    else if pct > 90.0 then 9
    else if pct > 80.0 then 8
    else if pct > 70.0 then 7
    else if pct > 60.0 then 6
    else if pct > 50.0 then 5
    else if pct > 40.0 then 4
    else if pct > 30.0 then 3
    else if pct > 20.0 then 2
    else if pct > 10.0 then 1
    else 0
  }

  /** How many of the thresholds `pct` strictly exceeds. */
  function CountExceeded(pct: real, ts: seq<real>): (n: nat)
    ensures n <= |ts|
  {
    if ts == [] then 0
    else (if pct > ts[0] then 1 else 0) + CountExceeded(pct, ts[1..])
  }

  /** The chain picks the bucket whose rank is the number of thresholds
      exceeded: an independent reading of the same eleven-way split. */
  lemma {:induction false} BatteryIconCountsThresholds(pct: real)
    ensures BatteryIcon(pct) == CountExceeded(pct, Thresholds)
  {
    var ts := Thresholds;
    assert ts[1..][1..][1..][1..][1..][1..][1..][1..][1..][1..] == [];
    assert CountExceeded(pct, ts[9..]) == if pct > 95.0 then 1 else 0;
    assert CountExceeded(pct, ts[8..]) == (if pct > 90.0 then 1 else 0) + CountExceeded(pct, ts[9..]);
    assert CountExceeded(pct, ts[7..]) == (if pct > 80.0 then 1 else 0) + CountExceeded(pct, ts[8..]);
    assert CountExceeded(pct, ts[6..]) == (if pct > 70.0 then 1 else 0) + CountExceeded(pct, ts[7..]);
    assert CountExceeded(pct, ts[5..]) == (if pct > 60.0 then 1 else 0) + CountExceeded(pct, ts[6..]);
    assert CountExceeded(pct, ts[4..]) == (if pct > 50.0 then 1 else 0) + CountExceeded(pct, ts[5..]);
    assert CountExceeded(pct, ts[3..]) == (if pct > 40.0 then 1 else 0) + CountExceeded(pct, ts[4..]);
    assert CountExceeded(pct, ts[2..]) == (if pct > 30.0 then 1 else 0) + CountExceeded(pct, ts[3..]);
    assert CountExceeded(pct, ts[1..]) == (if pct > 20.0 then 1 else 0) + CountExceeded(pct, ts[2..]);
    assert CountExceeded(pct, ts) == (if pct > 10.0 then 1 else 0) + CountExceeded(pct, ts[1..]);
  }

  /** A larger percentage never selects a lower glyph. */
  lemma BatteryIconMonotone(a: real, b: real)
    requires a <= b
    ensures BatteryIcon(a) <= BatteryIcon(b)
  {
  }

  /** The comparisons are strict: a percentage equal to a threshold falls into
      the bucket below it (95 is not the top glyph, 10 is the lowest). */
  lemma BatteryIconAtThresholds(b: int)
    requires 1 <= b <= 10
    ensures BatteryIcon(Thresholds[b - 1]) == b - 1
  {
  }

  /** The host battery's charge as `showBattery` means it: the voltage mapped
      linearly from 3300 mV (0 %) to 4350 mV (100 %) and limited to [0, 100]. */
  function HostBatteryPct(vol: u32): (pct: real)
    ensures 0.0 <= pct <= 100.0
    ensures pct == 0.0 <==> vol <= 3300
    ensures pct == 100.0 <==> vol >= 4350
  {
    var linear := (vol as real - 3300.0) / 1050.0 * 100.0;
    if linear < 0.0 then 0.0 else if linear > 100.0 then 100.0 else linear
  }

  /** Inside the clamping range the percentage grows with the voltage,
      by 100/1050 of a point per millivolt. */
  lemma HostBatteryPctLinear(v: u32, w: u32)
    requires 3300 <= v <= 4350 && 3300 <= w <= 4350
    ensures (HostBatteryPct(w) - HostBatteryPct(v)) * 1050.0 == (w - v) as real * 100.0
  {
  }

  lemma HostBatteryPctMonotone(v: u32, w: u32)
    requires v <= w
    ensures HostBatteryPct(v) <= HostBatteryPct(w)
  {
  }

  /** The state of src/battery_util.cpp: the global `lastBattery`, the glyph
      last drawn, initially the empty string. */
  class BatteryGauge {
    var lastBattery: string

    constructor ()
      ensures lastBattery == ""
    {
      lastBattery := "";
    }

    /** `showBattery`: clamps the measured voltage to [3300, 4350], computes
        the percentage, limits it to [0, 100] once more, and draws the glyph
        only when it differs from the one drawn last. `drawn` is the glyph
        handed to `drawBattery`, `None` when nothing is drawn. */
    method ShowBattery(voltage: u32) returns (drawn: Option<string>)
      modifies this
      ensures lastBattery == Glyph(BatteryIcon(HostBatteryPct(voltage)))
      ensures drawn == if old(lastBattery) == lastBattery then None else Some(lastBattery)
    {
      var vol := voltage;
      if vol < 3300 {
        vol := 3300;
      } else if vol > 4350 {
        vol := 4350;
      }
      // After the clamp the unsigned subtraction cannot wrap around.
      var aboveMin: u32 := vol - 3300;
      var batteryPct: real := aboveMin as real / (4350 - 3300) as real * 100.0;
      batteryPct := if 100.0 < batteryPct then 100.0 else batteryPct;
      batteryPct := if batteryPct < 0.0 then 0.0 else batteryPct;

      var currentBattery := Glyph(BatteryIcon(batteryPct));
      if currentBattery != lastBattery {
        drawn := Some(currentBattery);
        lastBattery := currentBattery;
      } else {
        drawn := None;
      }
    }
  }
}
