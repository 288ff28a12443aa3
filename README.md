# Environmental sensor firmware core, modelled in Dafny

This project models the sequential core of an ESP32 environmental-sensor firmware. The firmware reads temperature and humidity, publishes them as BLE characteristics, and shows them on a small LCD. The model covers four parts.

- **Float ring buffer** (`main/ringbuf.c`).
  - `RingBuffer.RingBuf` is a class over the caller's slot array, with the write cursor `getIdx` and a ghost `history` of every put.
  - A slot is `Empty`, which stands for the NAN marker, or `Full(v)`.
  - `Slots(h, cap)` gives what the storage holds after the puts `h`, one put at a time.
  - The lemmas give that storage in closed form: the first `min(|h|, cap)` slots hold the last `min(|h|, cap)` puts, rotated, and the other slots are empty.
  - `GetAllSorted` returns exactly the sorted window of the last `min(|h|, cap)` puts.
- **Fixed-point two-byte encoding** (`main/store_float_into_uint8_arr.c`, `main/utils.c`; both files hold the same encoder, modelled once).
  - A reading is scaled by 100, truncated toward zero to an `int16_t`, and split low byte first.
  - The decoder is the inverse, and the two round trips are proved.
- **BLE characteristic values** (a slice of `main/ble.c`).
  - The writers check the reading against the Bluetooth GATT Specification Supplement ranges: section 3.204 for Temperature and section 3.114 for Humidity.
  - Each writer encodes into its own retained 2-byte buffer.
  - The read handler uses the attribute's stored sentinel to pick which buffer answers.
- **LCD view logic** (`main/lcd_manager.c`, and its variant `main/lcd.c` with `lcd_*` names, modelled once).
  - The three-state view selector.
  - The two store functions.
  - The font patch.
  - The render dispatch, reduced to the `Screen` that would be drawn: a heading, and either the readings, the min/median/max statistics, or "No data yet".

The unit tests in `test/main/main.c` and `test/main/unit_tests.c` are restated in module `Scenarios`, as members whose contracts give the expected results.

Behaviour made explicit:
- Floats are mathematical reals.
- `>>` on a negative `int16_t` is an arithmetic shift, i.e. a floor division by 256.
- The `(int16_t)` cast of a 16-bit pattern wraps.
- `Trunc` is C's float-to-integer conversion, truncating toward zero.
- The cast `(int16_t)(v * 100)` is defined only for `Encodable(v)`, and the BLE writers prove that their ranges meet this.

`ringbuf_getallsorted` stops at the first empty slot (`main/ringbuf.c:87-90`) instead of scanning every slot. `CopiedPrefixIsStored` proves that, because of the prefix-occupancy layout, this collects every retained put.

## Model

| member | source | states |
|---|---|---|
| FixedPoint.Trunc | main/store_float_into_uint8_arr.c:7 | the float-to-int conversion truncates toward zero: for x ≥ 0, r ≤ x < r+1; for x < 0, r−1 < x ≤ r |
| FixedPoint.SplitLE | main/store_float_into_uint8_arr.c:8-11 | two bytes, `arr[0]` low and `arr[1]` high, whose 16-bit value is the two's-complement pattern of i (i + 65536 when i is negative) |
| FixedPoint.JoinLE | main/utils.c:17-19 | the int16 read back is congruent to `(msb << 8) \| lsb` modulo 2^16, and is negative exactly when msb ≥ 0x80 |
| FixedPoint.JoinSplit | main/utils.c:8-11 | for every int16, splitting it into bytes and joining them gives it back |
| FixedPoint.SplitJoin | main/utils.c:17-19 | for every byte pair, joining and then splitting gives the same two bytes, so the encoding is a bijection |
| FixedPoint.StoreFloat | main/store_float_into_uint8_arr.c:4-12 | needs v·100 to truncate into int16 range; gives two bytes that decode to trunc(v·100) |
| FixedPoint.ReadFloat | main/utils.c:15-21 | the decoded value lies in [−327.68, 327.67] |
| FixedPoint.ReadStore | main/utils.c:4-21 | decoding the encoding of v gives trunc(v·100)/100, which is within 0.01 of v, on the same side of zero, and no farther from zero than v |
| FloatSort.CompareFloats | main/ringbuf.c:101-114 | −1, 0 or 1, negative iff a < b, zero iff a = b, positive iff a > b |
| FloatSort.CompareFloatsAntisymmetric | main/ringbuf.c:101-114 | swapping the comparator's arguments negates its result |
| FloatSort.SortedUnderComparator | main/ringbuf.c:93 | `Sorted` is exactly "no earlier element compares above a later one under compare_floats" |
| FloatSort.Insert | main/ringbuf.c:93 | inserting adds exactly x to the multiset |
| FloatSort.InsertSorted | main/ringbuf.c:93 | inserting into an ascending sequence keeps it ascending |
| FloatSort.SortAscending | main/ringbuf.c:93 | the reference sort: ascending, and a permutation of its input |
| FloatSort.SortedHeadIsLeast | main/ringbuf.c:93 | the head of an ascending sequence is at most each of its elements |
| FloatSort.SortedUnique | main/ringbuf.c:93 | two ascending sequences with the same multiset are equal, so every correct sort gives `SortAscending` |
| FloatSort.Swap | main/ringbuf.c:93 | exchanges two elements, leaves the others alone, and preserves the multiset |
| FloatSort.PrefixPermutation | main/ringbuf.c:93 | permutations that agree beyond n are permutations of each other up to n |
| FloatSort.InsertLast | main/ringbuf.c:93 | one insertion pass extends the ascending prefix by one, permutes the array, and moves nothing beyond it |
| FloatSort.SortPrefix | main/ringbuf.c:93 | `qsort(dst, i, …, compare_floats)`: `a[..n]` ends ascending and a permutation of what it was, and `a[n..]` is unchanged |
| RingBuffer.Advance | main/ringbuf.c:60 | the next cursor stays below the capacity |
| RingBuffer.AdvanceIsModulo | main/ringbuf.c:60 | it equals `(get_idx + 1) % capacity` |
| RingBuffer.GetIndex | main/ringbuf.c:49-60 | the cursor after n puts is always below the capacity |
| RingBuffer.GetIndexBeforeWrap | main/ringbuf.c:49-61 | until the buffer wraps, the k-th put lands in slot k−1, so the first put lands in slot 0 |
| RingBuffer.Slots | main/ringbuf.c:41-63 | the storage after a sequence of puts has exactly `capacity` slots |
| RingBuffer.Stored | main/include/ringbuf.h:48-51 | the retained puts in storage order number min(puts, capacity) |
| RingBuffer.StoredPosition | main/ringbuf.c:60-61 | once wrapped, slot k holds one of the puts made so far |
| RingBuffer.PositionStep | main/ringbuf.c:60-61 | a put moves only the cursor slot to the newest put; every other slot keeps its put |
| RingBuffer.StoredAt | main/ringbuf.c:60-61 | the pointwise form of the rotation once the buffer has wrapped |
| RingBuffer.StoredBeforeWrap | main/ringbuf.c:60-61 | before wrapping, the retained puts are all puts, in order |
| RingBuffer.StoredStep | main/ringbuf.c:60-61 | after wrapping, one put changes the retained puts at the cursor slot only |
| RingBuffer.SlotsLayout | main/ringbuf.c:49-61 | prefix occupancy: slot k holds the k-th retained put if k < min(puts, capacity), and is empty otherwise |
| RingBuffer.LatestAtGetIndex | main/ringbuf.c:72-79 | the slot under the cursor holds the latest put, or is empty when nothing has been put |
| RingBuffer.StoredIsWindowPermutation | main/include/ringbuf.h:48-51 | the occupied slots hold exactly the last min(puts, capacity) items put, as a multiset |
| RingBuffer.CopiedPrefixIsStored | main/ringbuf.c:85-92 | copying up to the first empty slot copies exactly the retained puts, min(puts, capacity) of them |
| RingBuffer.SortedStoredIsSortedWindow | main/ringbuf.c:93-94 | any ascending arrangement of the retained puts is the sorted window of the last puts |
| RingBuffer.RingBuf.constructor | main/ringbuf.c:41-51 | needs dst_len ≥ 1; all dst_len slots become empty, the slots beyond them are untouched, the cursor is dst_len−1, and nothing has been put |
| RingBuffer.RingBuf.Put | main/ringbuf.c:53-63 | if the lock is taken, the cursor becomes `(cursor+1) % capacity`, only that slot changes (to the item), and the history gains the item; otherwise nothing changes |
| RingBuffer.RingBuf.Get | main/ringbuf.c:65-80 | returns 1 and the latest put iff the lock is taken and something has been put; otherwise returns 0 and `*dst` is not written; the buffer is not modified |
| RingBuffer.RingBuf.CopyOccupied | main/ringbuf.c:84-92 | copies min(puts, capacity) values, exactly the retained puts in storage order; dst beyond them is unchanged |
| RingBuffer.RingBuf.GetAllSorted | main/ringbuf.c:82-95 | returns min(puts, capacity); `dst[..count]` is ascending, a permutation of the last min(puts, capacity) puts, and equals their sorted arrangement; dst beyond count and the buffer are unchanged |
| Ble.TemperatureAcceptedIsEncodable | main/ble.c:224-228 | every accepted temperature scales into [−27315, 32767], so the encoder's cast is defined |
| Ble.HumidityAcceptedIsEncodable | main/ble.c:236-240 | every accepted humidity scales into [0, 10000], so the encoder's cast is defined |
| Ble.SentinelsDiffer | main/ble.c:156-157 | the two sentinels differ, so at most one dispatch branch matches |
| Ble.CharacteristicValues.constructor | main/ble.c:151-152 | two distinct zero-filled 2-byte buffers |
| Ble.CharacteristicValues.WriteTemperature | main/ble.c:220-230 | ESP_OK iff −273.15 ≤ t ≤ 327.67; on ESP_OK the buffer holds the encoding of t; on ESP_ERR_INVALID_ARG it is unchanged; the humidity buffer is never changed |
| Ble.CharacteristicValues.WriteHumidity | main/ble.c:232-242 | ESP_OK iff 0 ≤ h ≤ 100; on ESP_OK the buffer holds the encoding of h; on ESP_ERR_INVALID_ARG it is unchanged; the temperature buffer is never changed |
| Ble.CharacteristicValues.ReadEvent | main/ble.c:254-271 | {0x80,0x00} answers with the temperature bytes and {0xFF,0xFF} with the humidity bytes, always 2 bytes; any other value, or one not 2 bytes long, fails an assertion, and only then |
| Lcd.NextView | main/lcd_manager.c:111-114 | the next view is always one of the three views |
| Lcd.NextViewCycles | main/lcd.c:102-105 | selecting the next view three times returns to the start, and never stays put |
| Lcd.PatchFont | main/lcd_manager.c:135-143 | 581 bytes, equal to the library font except bytes 46..51, which are {0,0,6,6,0,0} |
| Lcd.ReadingsBody | main/lcd_manager.c:153-166 | the readings are shown iff both gets returned 1, and then they are the two got values; otherwise "No data yet" |
| Lcd.StatisticsBody | main/lcd.c:167-180 | "No data yet" iff the snapshot is empty; otherwise entries 0, (len−1)/2 and len−1, all members of the snapshot, with min ≤ med ≤ max bounding every element when the snapshot is ascending; then med is the lower median: at most (len−1)/2 entries are below it and more than (len−1)/2 are at most it |
| Lcd.SortedRank | main/lcd.c:176 | in an ascending sequence, fewer than i+1 entries lie below entry i and at least i+1 are at most it, so entry (len−1)/2 is the lower median |
| Lcd.RankBelow | main/lcd.c:176 | an entry at most every later entry has at most its index many entries below it |
| Lcd.RankAtMost | main/lcd.c:176 | an entry at least every earlier entry has more than its index many entries at most it |
| Lcd.MedianRankOfPermutation | main/lcd_manager.c:186 | the lower median of an ascending arrangement keeps its rank in every permutation of it, which has the same length |
| Lcd.CountPermutation | main/lcd_manager.c:186 | the number of entries below, and at most, a value depends only on the multiset, so the median rank carries from the sorted snapshot to the retained puts |
| Lcd.StatisticsOfRetained | main/lcd_manager.c:175-212 | an analysis view shows "No data yet" iff nothing was put; otherwise the least and greatest retained sample and a retained sample between them that is their lower median: at most (n−1)/2 retained samples are below it and more than (n−1)/2 are at most it |
| Lcd.ExpectedScreen | main/lcd.c:107-120 | the heading matches the view, and "No data yet" is shown iff a needed buffer has had no put |
| Lcd.LcdManager.constructor | main/lcd_manager.c:84-99 | two fresh empty ring buffers of the configured length over distinct storage, the view at LAST_READINGS, and the patched font |
| Lcd.LcdManager.InitializeFont | main/lcd.c:126-134 | after the memcpy and the patch loop, the font equals `PatchFont` of the library font |
| Lcd.LcdManager.StoreTemperature | main/lcd_manager.c:101-104 | one put into the temperature buffer; only that buffer's cursor, history and slots change, its capacity and storage stay, and the humidity buffer is unchanged |
| Lcd.LcdManager.StoreHumidity | main/lcd.c:97-100 | one put into the humidity buffer; only that buffer's cursor, history and slots change, its capacity and storage stay, and the temperature buffer is unchanged |
| Lcd.LcdManager.SelectNextView | main/lcd_manager.c:111-114 | the view becomes `NextView` of the old one and stays in range |
| Lcd.LcdManager.RenderLastReadings | main/lcd.c:136-158 | the "Envi Sensor" heading; the latest temperature and humidity when both buffers have had a put, otherwise "No data yet" |
| Lcd.LcdManager.RenderAnalysis | main/lcd_manager.c:169-213 | the given heading, and the statistics of the sorted window of the buffer's last puts |
| Lcd.LcdManager.Render | main/lcd_manager.c:116-129 | the screen is `ExpectedScreen` of the view and the two histories; the default branch is unreachable |
| Scenarios.StoreNegative | test/main/main.c:10-23 | over the reals, −18.3 encodes as −1830, bytes {0xDA, 0xF8} (in single precision the test's product truncates to −1829, which the real-number model does not capture) |
| Scenarios.StoreZero | test/main/unit_tests.c:25-35 | 0 encodes as {0x00, 0x00} |
| Scenarios.StorePositive | test/main/unit_tests.c:37-47 | 23.78 encodes as 2378, bytes {0x4A, 0x09} |
| Scenarios.StoreKeepsTwoDecimals | test/main/main.c:55-68 | 9.87654321 encodes as 987, bytes {0xDB, 0x03}, and decodes as 9.87 |
| Scenarios.SortThreeSamples | test/main/main.c:105-121 | the puts 0.8, −18.63, 33.1 sort to −18.63, 0.8, 33.1 |
| Scenarios.SortRetainedSamples | test/main/main.c:141-148 | the retained puts 23.29, −7.2, 0.4 sort to −7.2, 0.4, 23.29 |
| Scenarios.GetFromFreshBuffer | test/main/main.c:74-86 | a get from a fresh buffer returns 0 |
| Scenarios.GetLastItem | test/main/unit_tests.c:76-88 | after putting 5.43 and 23.29, a get returns 1 and 23.29 |
| Scenarios.GetAllSortedAscending | test/main/main.c:105-121 | after three puts into a 5-slot buffer, the sorted snapshot has 3 entries, −18.63, 0.8, 33.1 |
| Scenarios.OverwriteOldest | test/main/main.c:123-149 | after four puts into a 3-slot buffer, a get returns 1 and 0.4, and the sorted snapshot has 3 entries, −7.2, 0.4, 23.29 |
| Scenarios.PublishOutOfRange | main/ble.c:224-240 | 400.0 °C is rejected; 100 % humidity is accepted and stored as {0x10, 0x27} |

## Left out

- The FreeRTOS mutex is not modelled as concurrency (`main/ringbuf.c:47-48`, `55-62`, `67-73`).
  - The result of `xSemaphoreTake` is the `lockTaken` parameter of `Put` and `Get`.
  - `ringbuf_put` and `ringbuf_get` take the mutex with `portMAX_DELAY` (`main/ringbuf.c:55`, `67`), so the LCD store and render functions model their calls with `true`.
  - Mutex creation and its `assert(mutex)` are left out.
  - The unlocked scan in `ringbuf_getallsorted`, a race with concurrent puts, is left out because the model is sequential.
- IEEE-754 floats are not modelled; readings are reals.
  - The rounding of `v * 100`, the double-literal range comparisons, and the exact float expectations of the tests are not modelled.
  - NAN is the `Empty` slot and is not a value, so `ringbuf_put(NAN)` cannot be expressed.
  - A NAN reading given to the BLE writers is not modelled.
- FloatSort.SortPrefix: the C library's `qsort` cannot be seen. It is modelled by an in-place insertion sort with the same contract: ascending under `compare_floats`, a permutation, nothing beyond `n` touched.
- FixedPoint.StoreFloat and FixedPoint.ReadFloat work on a value rather than writing through a pointer into `arr[2]` or `*f32_value`. Only the two bytes are produced, and the input is not changed.
- `snprintf("%.1f")` formatting, `ssd1306_*` / `pcd8544_*` drawing, and the external font table `ssd1306xled_font6x8` are not modelled. The font table is an arbitrary sequence of at least 581 bytes.
- The sorted arrays are function-`static` in `main/lcd.c:166` and `189` but locals in `main/lcd_manager.c:175` and `198`. Both are modelled as a fresh array, because render never reads them before `ringbuf_getallsorted` writes them.
- Other parts of `main/ble.c` are not modelled: `ble_init`, the GAP and GATTS event handlers, advertising, `esp_ble_gatts_get_attr_value` failing, and `esp_ble_gatts_send_response`. They are calls into the BLE stack. `ReadEvent` starts from the attribute value that the lookup returned.
- `main/main.c` (a FreeRTOS producer task and a queue consumer) is not part of this model; it is concurrency over library queues.
- These files are not part of this model: `main/gatts_table_creat_demo.c`, `main/button.c`, `main/lcd_switch_manager.c`, `main/debug_heartbeat.c`, `main/nokia_5110_lcd.c`, `main/include/iferr.h`, `main/include/envi_config.h`. They are GPIO, interrupt, display and logging plumbing; the last two hold only macros and configuration constants.
- `main/include/ringbuf.h` names the struct `ringbuf`, while the code uses `ringbuf_t`. The model follows `main/ringbuf.c`: `data`, `capacity`, `get_idx`.
