# m5paper-dashboard core, modelled in Dafny

This project models the self-contained logic of the M5Paper e-paper dashboard
firmware, which shows b-parasite soil sensors, the clock and the host battery.
Each source file is a Dafny module:

- `PrstData` (src/prst_data.h) covers two pieces of `prst_sensor_data_t`.
  - `from_servicedata` decodes a sensor's BLE service data. It reads a 4-bit protocol version, gates on version 2, then reads the light-sensor flag, a 4-bit run counter, four big-endian 16-bit fields, the 6-byte MAC address and the optional lux pair.
  - `battery_pct` is the sensor's linear battery percentage.
  - `FromServiceData` is imperative: it uses the source's shifts, masks and `|=`, and copies the MAC in a loop. It is proved equal to `Decode`, a reference reading of the layout by division, remainder and multiplication.
  - `Encode`, the payload a sensor would send, is the partner of `Decode`: decoding an encoded reading gives it back.
- `BatteryUtil` (src/battery_util.cpp) covers the icon logic.
  - `battery_icon` is an 11-way threshold chain. Its icon-font glyphs are kept as their code points.
  - `showBattery` clamps the host voltage, computes a percentage, and redraws the icon only when it differs from the `lastBattery` cache.
- `ConfigFile` (src/config_file.cpp) covers the configuration helpers.
  - `has_key` and `value_or` are map lookups.
  - The in-place trims work on a `StdString` object, and the `_copy` variants trim a copy.
  - `read_file_to_map` reads from an Arduino `File`, which is modelled as the characters not yet read.
- `TimeUtil` (src/time_util.cpp) covers the clock.
  - `setupRTCTime` converts the broken-down `localtime` result into the RTC structs.
  - `showDateTime` formats the clock line into `currentTime[23]` and redraws only when it differs from the `lastTime[23]` buffer, which it then overwrites with `strcpy`.
- `CStrings` holds the C-string helpers these use: the text of a NUL-terminated buffer, writing it, and `strcpy`.
- `Wrappers` holds `Option`.

A few details of the code are modelled as written:

- A payload with another protocol version yields only its version (`Unsupported`). The C++ returns before assigning any other field, so those fields are uninitialised, not zeroed.
- The decoder reads 1, 16 or 18 bytes, depending on byte 0. Its precondition `Readable` asks for exactly that many bytes, not for a fixed 18.
- Temperature is in Celsius. The decoder has no Fahrenheit conversion, alias lookup or advertisement filter.
- `setupRTCTime` does not set the RTC weekday. `week` keeps its old value, and `showDateTime` prints whatever weekday it holds.
- Keys and values read from the configuration file are only right-trimmed. Leading whitespace survives.

Floating-point quantities (percentages, `temp_c`) are real numbers here.

## Model

| member | source | states |
|---|---|---|
| PrstData.FromServiceData | src/prst_data.h:31-75 | the imperative decoder, with its shifts, masks, or-assignments and MAC loop, returns exactly `Decode` of the buffer, for every buffer holding the bytes it reads |
| PrstData.RequiredLength | src/prst_data.h:36-72 | the decoder reads 1, 16 or 18 bytes: more than one iff `byte0 >> 4` is the supported version, and 18 iff additionally bit 0 (`& 0x01`) is set |
| PrstData.Readable | src/prst_data.h:31-72 | a buffer the decoder may be given holds at least 1 byte, at least 16 for version 2, and at least 18 for version 2 with the light flag |
| PrstData.Decode | src/prst_data.h:31-75 | the layout's reference reading; every result is a reading a sensor can send: a version below 16, and for version 2 a counter below 16, six MAC bytes and lux present iff the light flag is set |
| PrstData.ReadU16 | src/prst_data.h:50-51 | shifting `hi` left by 8 and or-ing in `lo` gives the 16-bit field whose high byte is `hi` and low byte is `lo` (big-endian) |
| PrstData.Join16 | src/prst_data.h:50-62 | the joined field's high byte is the first byte of the pair and its low byte the second |
| PrstData.ByteBits | src/prst_data.h:36-48 | `>> 4`, `& 0x01` and `& 0x0f` on a byte are the high nibble, the parity bit and the low nibble |
| PrstData.DecodeVersionGate | src/prst_data.h:36-40 | the protocol version is `byte0 >> 4`, so it is below 16, and the reading is decoded further iff it equals 2 |
| PrstData.DecodeFields | src/prst_data.h:42-72 | for version 2: the light flag is bit 0 of byte 0; the run counter is `byte1 & 0x0f` and below 16; battery, temperature, humidity and soil are the big-endian pairs (2,3), (4,5), (6,7), (8,9); `mac[i] == data[10+i]` for i in 0..5; lux is present iff the flag is set and is then pair (16,17) |
| PrstData.DecodeReadsOnlyRequired | src/prst_data.h:36-72 | the decoder reads no byte past `RequiredLength(byte0)`: byte 0 alone for other versions, 16 bytes when the light flag is clear, 18 when it is set. Buffers agreeing on those bytes decode alike |
| PrstData.DecodeEncode | src/prst_data.h:31-75 | decoding the payload a well-formed reading encodes to (of exactly the required length) gives the reading back |
| PrstData.SplitJoin | src/prst_data.h:50-51 | joining a field's high and low bytes gives the field back |
| PrstData.TemperatureC | src/prst_data.h:53-56 | the temperature is the unsigned centi-degree field over 100, so it lies in [0, 655.35] |
| PrstData.BatteryPct | src/prst_data.h:23-29 | the percentage is negative iff below 2200 mV, 0 iff exactly 2200 mV, 100 iff exactly 3200 mV, and above 100 iff above 3200 mV (no clamping) |
| PrstData.BatteryPctLinear | src/prst_data.h:23-29 | each millivolt adds a tenth of a point, so the percentage is linear and monotone in `batt_mv` |
| BatteryUtil.BatteryIcon | src/battery_util.cpp:33-46 | the rank is one of 11; rank b > 0 only when pct exceeds threshold b-1, and rank b < 10 only when pct is at most threshold b; every pct ≤ 10, negatives included, gets the lowest icon |
| BatteryUtil.BatteryIconCountsThresholds | src/battery_util.cpp:35-45 | the chain's rank is the number of the thresholds 10, 20, …, 90, 95 that pct strictly exceeds |
| BatteryUtil.BatteryIconMonotone | src/battery_util.cpp:35-45 | a larger pct never gives a lower icon |
| BatteryUtil.BatteryIconAtThresholds | src/battery_util.cpp:35-44 | comparisons are strict: a pct equal to a threshold gets the icon below it (95 gets the `> 90` icon) |
| BatteryUtil.Glyph | src/battery_util.cpp:35-45 | each icon is a one-character string |
| BatteryUtil.GlyphInjective | src/battery_util.cpp:35-48 | the eleven glyphs are pairwise distinct and none is the initial empty `lastBattery`, so comparing glyphs is comparing ranks |
| BatteryUtil.HostBatteryPct | src/battery_util.cpp:52-60 | the host percentage lies in [0, 100]; it is 0 iff the voltage is at most 3300 mV and 100 iff it is at least 4350 mV |
| BatteryUtil.HostBatteryPctLinear | src/battery_util.cpp:53-58 | over the clamped range the percentage grows by 100/1050 of a point per millivolt |
| BatteryUtil.HostBatteryPctMonotone | src/battery_util.cpp:52-60 | a higher voltage never gives a lower percentage |
| BatteryUtil.BatteryGauge.constructor | src/battery_util.cpp:48 | `lastBattery` starts as the empty string, which is no glyph |
| BatteryUtil.BatteryGauge.ShowBattery | src/battery_util.cpp:50-67 | afterwards `lastBattery` is the glyph for the clamped voltage's percentage; a glyph is drawn iff it differs from the previous `lastBattery`, so a repeated call with the same voltage draws nothing; `vol - 3300` cannot wrap around |
| ConfigFile.HasKey | src/config_file.cpp:5-10 | true iff the key is in the map |
| ConfigFile.ValueOr | src/config_file.cpp:11-16 | the stored value when the key is present, the default otherwise |
| ConfigFile.IsSpace | src/config_file.cpp:32-33 | `std::isspace` in the "C" locale: exactly space, tab, newline, vertical tab, form feed and carriage return |
| ConfigFile.LTrimmed | src/config_file.cpp:29-35 | the result is a suffix of the input, the removed prefix is whitespace, and the result is empty or starts with a non-space |
| ConfigFile.RTrimmed | src/config_file.cpp:37-44 | the result is a prefix of the input, the removed suffix is whitespace, and the result is empty or ends with a non-space |
| ConfigFile.TrimmedSlice | src/config_file.cpp:46-51 | what `trim` keeps is the contiguous piece starting after the leading whitespace |
| ConfigFile.TrimmedSpec | src/config_file.cpp:46-51 | `trim` keeps a contiguous piece of the input, everything before and after it is whitespace, and the piece is empty or starts and ends with a non-space |
| ConfigFile.TrimIdempotent | src/config_file.cpp:46-51 | trimming twice is trimming once |
| ConfigFile.LTrimIdempotent | src/config_file.cpp:29-35 | left-trimming twice is left-trimming once |
| ConfigFile.RTrimIdempotent | src/config_file.cpp:37-44 | right-trimming twice is right-trimming once |
| ConfigFile.FindFirstNonSpace | src/config_file.cpp:32-34 | the `find_if` position: every character before it is whitespace, and the character at it (if any) is not |
| ConfigFile.FindEndOfNonSpace | src/config_file.cpp:40-42 | the reverse `find_if(...).base()` position: every character from it on is whitespace, and the character before it (if any) is not |
| ConfigFile.LTrim | src/config_file.cpp:29-35 | erasing in place leaves the string's left-trimmed contents |
| ConfigFile.RTrim | src/config_file.cpp:37-44 | erasing in place leaves the string's right-trimmed contents |
| ConfigFile.Trim | src/config_file.cpp:46-51 | in place, the string ends up with both ends trimmed |
| ConfigFile.LTrimCopy | src/config_file.cpp:53-58 | returns the left-trimmed value; the argument is a copy and is not altered |
| ConfigFile.RTrimCopy | src/config_file.cpp:60-65 | returns the right-trimmed value; the argument is a copy and is not altered |
| ConfigFile.TrimCopy | src/config_file.cpp:67-72 | returns the trimmed value; the argument is a copy and is not altered |
| ConfigFile.SplitAt | src/config_file.cpp:22-23 | `readStringUntil(c)`: the text before the first `c` (which contains no `c`) and the input after it; the whole input when `c` is absent; less input left whenever there was any |
| ConfigFile.File.Available | src/config_file.cpp:21 | true iff characters are left |
| ConfigFile.File.ReadStringUntil | src/config_file.cpp:22-23 | reading until a terminator returns and consumes what `SplitAt` describes |
| ConfigFile.Records | src/config_file.cpp:21-23 | the records the loop reads, in order: at most one per input character, and each key has no ':', each value no newline, neither a NUL or trailing whitespace |
| ConfigFile.StorableRecord | src/config_file.cpp:22-23 | a key cut before ':' and a value cut before a newline, cut at a NUL and right-trimmed, form a record that can be written back |
| ConfigFile.Insert | src/config_file.cpp:24 | `kv_pairs[k] = v` in turn keeps every starting key and adds every record's key |
| ConfigFile.ConfigMap | src/config_file.cpp:18-27 | the map read from a text has exactly the keys of its records |
| ConfigFile.ReadFileToMap | src/config_file.cpp:18-27 | the result is the map of the file's records, inserted in order (keys before `:`, values before newline, each cut at a NUL and right-trimmed); the file is fully read; every round consumes input, so the loop ends |
| ConfigFile.InsertKeys | src/config_file.cpp:20-24 | the map's keys are exactly the keys of the records |
| ConfigFile.InsertLastWins | src/config_file.cpp:24 | a later duplicate key overwrites an earlier one: each key maps to the value of its last record |
| ConfigFile.InsertUntouched | src/config_file.cpp:24 | a key no record mentions keeps its value |
| ConfigFile.SplitAtFirst | src/config_file.cpp:22-23 | reading up to a terminator that follows terminator-free text yields that text and the rest |
| ConfigFile.RecordsSerialize | src/config_file.cpp:18-27 | records with no separator, NUL or trailing whitespace, written one `key:value` per line, are read back exactly and in order, leading whitespace of values included |
| ConfigFile.ConfigMapOfSerialized | src/config_file.cpp:18-27 | the map read from such a file holds, for every key, the value of its last line |
| CStrings.CString | src/config_file.cpp:22-23 | the text of a buffer is its longest NUL-free prefix, cut at the first NUL when there is one |
| CStrings.CStringOfText | src/time_util.cpp:61-65 | NUL-free text is its own C string, and a terminator hides whatever follows it |
| CStrings.WriteCString | src/time_util.cpp:61-62 | writing text and its terminator makes the buffer's C string that text and leaves later bytes alone |
| CStrings.StrCpy | src/time_util.cpp:65 | `strcpy` makes the destination's C string equal to the source's |
| TimeUtil.Digits | src/time_util.cpp:61-62 | a number's decimal digits: at least one, a single one iff the number is below 10, and a leading '0' only for zero itself |
| TimeUtil.DigitsRoundTrip | src/time_util.cpp:61-62 | reading the digits back gives the number |
| TimeUtil.FormatInt | src/time_util.cpp:61 | `%d` prints at least one character and no NUL |
| TimeUtil.FormatInt02 | src/time_util.cpp:61-62 | `%02d` prints at least two characters and no NUL |
| TimeUtil.FormatRoundTrip | src/time_util.cpp:61-62 | `%d` and `%02d` both print the value; `%d` has no leading zero except for zero itself; `%02d` starts with '0' exactly for values below 10 and prints values from 10 on as `%d` does; a value below 100 takes exactly two characters under `%02d` |
| TimeUtil.FourDigitYear | src/time_util.cpp:61 | the unpadded year takes four characters when it has four digits |
| TimeUtil.DateTimeString | src/time_util.cpp:61-62 | the `sprintf` line: besides the five printed numbers it holds exactly ten characters, the separators `/`, `/`, ` (`, `) `, `:` and the three-letter day name |
| TimeUtil.WeekdayNames | src/time_util.cpp:16 | each `wd` entry (`week` in 0..6) is three NUL-free characters |
| TimeUtil.DateTimeStringHasNoNul | src/time_util.cpp:61-62 | the formatted line contains no NUL, so its C string is the whole line |
| TimeUtil.DateTimeStringLength | src/time_util.cpp:59-62 | with a four-digit year and other fields in 0..99, the line is exactly 22 characters and fits `currentTime[23]` with its terminator |
| TimeUtil.InitialLastTimeIsNoLine | src/time_util.cpp:55-63 | no formatted line equals the initial `lastTime` (its weekday "000" is no `wd` entry), so the first call always draws |
| TimeUtil.Rtc.constructor | src/main.cpp:29-30 | the global RTC time and date structs start zeroed, as static storage is |
| TimeUtil.Rtc.SetupRtcTime | src/time_util.cpp:39-53 | hour, minute, second and day are copied, the year is `tm_year + 1900` and the month `tm_mon + 1`; the weekday keeps its old value |
| TimeUtil.DateTimeDisplay.constructor | src/time_util.cpp:55 | `lastTime` is a fresh 23-character buffer whose C string is `"0000/00/00 (000) 00:00"` |
| TimeUtil.DateTimeDisplay.ShowDateTime | src/time_util.cpp:57-67 | afterwards `lastTime` holds the formatted line; the line is drawn iff it differs from the previous `lastTime`, so a repeated call with unchanged RTC state draws nothing |

## Left out

- src/main.cpp: BLE scanning, the NimBLE callback, and drawing the header and rows are platform code. They never call the decoder, so no filter, collector or alias lookup exists to model.
- src/connect_wifi.cpp and src/init_mdns.cpp are network busy-wait loops over WiFi, mDNS and `delay()`.
- `prst_sensor_data_t::to_str` is `snprintf` float formatting, which is not modelled.
- Canvas drawing (`drawBattery`, `drawDateTime`): a redraw is the `drawn` result of `ShowBattery` and `ShowDateTime`, the string handed to the drawing routine.
- Hardware and library reads are parameters: `M5.getBatteryVoltage()` is `voltage`, `localtime(time(NULL))` is `tm`, the RTC structs are `date` and `time`, and the file's contents are the `File`'s `remaining` characters. The RTC writes `M5.RTC.setTime`/`setDate` are not modelled.
- Arduino `File` timeouts and partial reads are not modelled: `readStringUntil` always sees the whole remaining file.
- Floating point: percentages and `temp_c` are real numbers. Rounding, `float` precision and NaN are not modelled.
- BatteryUtil.BatteryGauge.ShowBattery: real arithmetic changes the icon at exact threshold voltages. At 3615 mV and 3930 mV the real percentage is exactly 30 and 60, which gives ranks 2 and 5. The source's single-precision arithmetic rounds these to slightly above 30 and 60 (about 30.0000019 and 60.0000038), so it shows the `> 30` and `> 60` icons.
- The field widths of the RTC structs and of `struct tm` are not part of this model; their fields are unbounded integers.
- PrstData.Join16: the big-endian field is characterised by its high and low bytes rather than stated as the number `hi * 256 + lo`. That numeric identity is equivalent but not proved here.
- PrstData.DecodeEncode: only readings the sensor can send (version nibble, 4-bit counter, 6-byte MAC, lux present iff flagged) round-trip. The unused bits of bytes 0 and 1 are encoded as zero.
- TimeUtil.DateTimeDisplay.ShowDateTime: requires the formatted line to fit the 23-byte buffer. A longer line, such as a five-digit year, overflows `currentTime` in the source, and that undefined behaviour is not modelled.
