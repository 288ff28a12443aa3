/**
 * The view logic of the display module. main/lcd_manager.c and main/lcd.c
 * hold the same logic under two sets of names (lcd_manager_* / lcd_*); it is
 * modelled once. The module state is the two ring buffers of readings, the
 * selected view and the patched font; rendering is reduced to the Screen it
 * would draw (which heading, and which values or "No data yet").
 */
module Lcd {
  import opened CTypes
  import opened FloatSort
  import opened RingBuffer

  /** lcd_view_t: LAST_READINGS (CURRENT_READINGS in lcd.c), then the two analysis views. */
  const LastReadingsView: nat := 0
  const TemperatureAnalysisView: nat := 1
  const HumidityAnalysisView: nat := 2
  const ViewCount: nat := 3

  /** MY_FONT_6x8_LEN, APOSTROPHE_IDX and the bitmap for the degree sign. */
  const FontLen: nat := 581
  const ApostropheIdx: nat := 46
  const DegreeBitmap: seq<uint8> := [0x00, 0x00, 0x06, 0x06, 0x00, 0x00]

  /** `(lcd_view + 1) % LCD_VIEW_COUNT`. */
  function NextView(view: nat): (next: nat)
    ensures next < ViewCount
  {
    (view + 1) % ViewCount
  }

  /** Selecting the next view three times returns to the starting view, and never stays put. */
  lemma NextViewCycles(view: nat)
    requires view < ViewCount
    ensures NextView(NextView(NextView(view))) == view
    ensures NextView(view) != view
  {
  }

  /**
   * initialize_my_font_6x8 as a value: the first 581 bytes of the library
   * font with bytes 46..51 (the apostrophe) replaced by the degree bitmap.
   */
  function PatchFont(library: seq<uint8>): (font: seq<uint8>)
    requires FontLen <= |library|
    ensures |font| == FontLen
    ensures forall k :: 0 <= k < FontLen ==>
      font[k] == if ApostropheIdx <= k < ApostropheIdx + |DegreeBitmap| then DegreeBitmap[k - ApostropheIdx] else library[k]
  {
    library[..ApostropheIdx] + DegreeBitmap + library[ApostropheIdx + |DegreeBitmap|..FontLen]
  }

  /** The two title lines a render function prints first. */
  datatype Heading = EnviSensor | TemperatureAnalysis | HumidityAnalysis

  /** What a render function prints below the title. */
  datatype Body =
    | NoDataYet
    | Readings(temperature: real, humidity: real)
    | Statistics(min: real, med: real, max: real)

  datatype Screen = Screen(heading: Heading, body: Body)

  /**
   * render_last_readings after its two gets: `success = 0x01 & count & count`
   * is non-zero exactly when both gets returned 1, and only then are the two
   * readings shown.
   */
  function ReadingsBody(tempCount: nat, temperature: real, humCount: nat, humidity: real): (body: Body)
    requires tempCount <= 1 && humCount <= 1
    ensures body.Readings? <==> tempCount == 1 && humCount == 1
    ensures body.Readings? ==> body.temperature == temperature && body.humidity == humidity
    ensures !body.Readings? ==> body == NoDataYet
  {
    if tempCount == 0 || humCount == 0 then NoDataYet else Readings(temperature, humidity)
  }

  /** How many elements of s are below m. */
  function CountBelow(s: seq<real>, m: real): (c: nat)
    ensures c <= |s|
  {
    if s == [] then 0 else (if s[0] < m then 1 else 0) + CountBelow(s[1..], m)
  }

  /** How many elements of s are at most m. */
  function CountAtMost(s: seq<real>, m: real): (c: nat)
    ensures c <= |s|
  {
    if s == [] then 0 else (if s[0] <= m then 1 else 0) + CountAtMost(s[1..], m)
  }

  lemma {:induction false} CountAppend(a: seq<real>, b: seq<real>, m: real)
    ensures CountBelow(a + b, m) == CountBelow(a, m) + CountBelow(b, m)
    ensures CountAtMost(a + b, m) == CountAtMost(a, m) + CountAtMost(b, m)
  {
    if a == [] {
      assert a + b == b;
    } else {
      assert (a + b)[1..] == a[1..] + b;
      CountAppend(a[1..], b, m);
    }
  }

  /** Removing the element at k from s removes it from both counts. */
  lemma CountRemove(s: seq<real>, k: nat, m: real)
    requires k < |s|
    ensures CountBelow(s, m) == (if s[k] < m then 1 else 0) + CountBelow(s[..k] + s[k + 1..], m)
    ensures CountAtMost(s, m) == (if s[k] <= m then 1 else 0) + CountAtMost(s[..k] + s[k + 1..], m)
    ensures multiset(s[..k] + s[k + 1..]) == multiset(s) - multiset{s[k]}
  {
    var front, back := s[..k], s[k + 1..];
    assert s == front + ([s[k]] + back);
    CountAppend(front, [s[k]] + back, m);
    CountAppend([s[k]], back, m);
    CountAppend(front, back, m);
    assert [s[k]][1..] == [];
  }

  /** The counts depend only on the multiset of elements. */
  lemma {:induction false} CountPermutation(a: seq<real>, b: seq<real>, m: real)
    requires multiset(a) == multiset(b)
    ensures CountBelow(a, m) == CountBelow(b, m)
    ensures CountAtMost(a, m) == CountAtMost(b, m)
  {
    if a == [] {
      assert |b| == 0 by { assert |multiset(b)| == 0; }
    } else {
      assert a[0] in multiset(b) by { assert a[0] in multiset(a); }
      var k :| 0 <= k < |b| && b[k] == a[0];
      var tail, rest := a[1..], b[..k] + b[k + 1..];
      CountRemove(b, k, m);
      assert multiset(tail) == multiset(rest) by {
        assert a == [a[0]] + tail;
      }
      CountPermutation(tail, rest, m);
    }
  }

  /** No element of s is below m, when m is at most every element. */
  lemma {:induction false} CountBelowLeast(s: seq<real>, m: real)
    requires forall i :: 0 <= i < |s| ==> m <= s[i]
    ensures CountBelow(s, m) == 0
  {
    if s != [] {
      CountBelowLeast(s[1..], m);
    }
  }

  /** Every element of s is at most m, when m is at least every element. */
  lemma {:induction false} CountAtMostGreatest(s: seq<real>, m: real)
    requires forall i :: 0 <= i < |s| ==> s[i] <= m
    ensures CountAtMost(s, m) == |s|
  {
    if s != [] {
      CountAtMostGreatest(s[1..], m);
    }
  }

  /** When the entry at i is at most every later entry, at most i entries are below it. */
  lemma RankBelow(s: seq<real>, i: nat)
    requires i < |s| && forall j :: i <= j < |s| ==> s[i] <= s[j]
    ensures CountBelow(s, s[i]) <= i
  {
    var front, back := s[..i], s[i..];
    assert forall j :: 0 <= j < |back| ==> s[i] <= back[j] by {
      forall j | 0 <= j < |back| ensures s[i] <= back[j] {
        assert back[j] == s[i + j];
      }
    }
    assert s == front + back;
    CountAppend(front, back, s[i]);
    CountBelowLeast(back, s[i]);
  }

  /** When the entry at i is at least every earlier entry, more than i entries are at most it. */
  lemma RankAtMost(s: seq<real>, i: nat)
    requires i < |s| && forall j :: 0 <= j <= i ==> s[j] <= s[i]
    ensures i < CountAtMost(s, s[i])
  {
    var upTo, after := s[..i + 1], s[i + 1..];
    assert forall j :: 0 <= j < |upTo| ==> upTo[j] <= s[i] by {
      forall j | 0 <= j < |upTo| ensures upTo[j] <= s[i] {
        assert upTo[j] == s[j];
      }
    }
    assert s == upTo + after;
    CountAppend(upTo, after, s[i]);
    CountAtMostGreatest(upTo, s[i]);
  }

  /**
   * In an ascending sequence the entry at i has at most i elements below it
   * and more than i elements at most it: it is the (i + 1)-th smallest.
   */
  lemma SortedRank(s: seq<real>, i: nat)
    requires i < |s|
    ensures Sorted(s) ==> CountBelow(s, s[i]) <= i < CountAtMost(s, s[i])
  {
    if Sorted(s) {
      RankBelow(s, i);
      RankAtMost(s, i);
    }
  }

  /**
   * The analysis views after ringbuf_getallsorted: "No data yet" when the
   * snapshot is empty (and it is not indexed); otherwise the entries at 0,
   * (len - 1) / 2 (the lower median) and len - 1, all in bounds. On an
   * ascending snapshot these are its least element, a middle one and its
   * greatest element.
   */
  function StatisticsBody(sorted: seq<real>): (body: Body)
    ensures body.NoDataYet? <==> |sorted| == 0
    ensures body.NoDataYet? || body.Statistics?
    ensures body.Statistics? ==> body.min in sorted && body.med in sorted && body.max in sorted
    ensures body.Statistics? && Sorted(sorted) ==>
      body.min <= body.med <= body.max && forall x :: x in sorted ==> body.min <= x <= body.max
    ensures body.Statistics? && Sorted(sorted) ==>
      CountBelow(sorted, body.med) <= (|sorted| - 1) / 2 < CountAtMost(sorted, body.med)
  {
    if |sorted| == 0 then NoDataYet
    else
      SortedRank(sorted, (|sorted| - 1) / 2);
      Statistics(sorted[0], sorted[(|sorted| - 1) / 2], sorted[|sorted| - 1])
  }

  /** The entries a non-empty snapshot's statistics are read from. */
  lemma StatisticsOfSnapshot(sorted: seq<real>)
    requires sorted != []
    ensures StatisticsBody(sorted) == Statistics(sorted[0], sorted[(|sorted| - 1) / 2], sorted[|sorted| - 1])
  {
  }

  /**
   * The statistics an analysis view shows summarise the retained samples:
   * "No data yet" exactly when nothing has been put, and otherwise the least
   * and the greatest retained sample, with a retained sample between them.
   */
  lemma StatisticsOfRetained(samples: seq<real>, cap: nat)
    requires 1 <= cap
    ensures var body := StatisticsBody(SortAscending(Window(samples, cap)));
      && (body.NoDataYet? <==> samples == [])
      && (body.Statistics? ==> body.min <= body.med <= body.max)
      && (body.Statistics? ==> body.min in Window(samples, cap) && body.med in Window(samples, cap) && body.max in Window(samples, cap))
      && (body.Statistics? ==> forall x :: x in Window(samples, cap) ==> body.min <= x <= body.max)
      && (body.Statistics? ==> var w := Window(samples, cap);
            CountBelow(w, body.med) <= (|w| - 1) / 2 < CountAtMost(w, body.med))
  {
    var w := Window(samples, cap);
    var sorted := SortAscending(w);
    StoredIsWindowPermutation(samples, cap);
    assert |sorted| == |w| by { assert |multiset(sorted)| == |multiset(w)|; }
    forall x ensures x in w <==> x in sorted {
      assert x in w <==> x in multiset(w);
      assert x in sorted <==> x in multiset(sorted);
    }
    if sorted != [] {
      var body := StatisticsBody(sorted);
      StatisticsOfSnapshot(sorted);
      MedianRankOfPermutation(sorted, w);
      assert CountBelow(w, body.med) <= (|w| - 1) / 2 < CountAtMost(w, body.med);
      forall x | x in w ensures body.min <= x <= body.max {
        assert x in sorted;
      }
    }
  }

  /** The lower median of an ascending arrangement has the same rank in any permutation of it. */
  lemma MedianRankOfPermutation(sorted: seq<real>, w: seq<real>)
    requires sorted != [] && Sorted(sorted) && multiset(sorted) == multiset(w)
    ensures |w| == |sorted|
    ensures CountBelow(w, sorted[(|sorted| - 1) / 2]) <= (|w| - 1) / 2 < CountAtMost(w, sorted[(|sorted| - 1) / 2])
  {
    assert |w| == |sorted| by { assert |multiset(sorted)| == |multiset(w)|; }
    var mid := (|sorted| - 1) / 2;
    SortedRank(sorted, mid);
    CountPermutation(sorted, w, sorted[mid]);
  }

  /**
   * What lcd_manager_render draws for the selected view, given the readings
   * put into each buffer so far and the buffers' capacities.
   */
  function ExpectedScreen(view: nat, temps: seq<real>, humids: seq<real>, tempCap: nat, humCap: nat): (screen: Screen)
    requires view < ViewCount && 1 <= tempCap && 1 <= humCap
    ensures view == LastReadingsView ==> screen.heading == EnviSensor && (screen.body.NoDataYet? <==> temps == [] || humids == [])
    ensures view == TemperatureAnalysisView ==> screen.heading == TemperatureAnalysis && (screen.body.NoDataYet? <==> temps == [])
    ensures view == HumidityAnalysisView ==> screen.heading == HumidityAnalysis && (screen.body.NoDataYet? <==> humids == [])
  {
    if view == LastReadingsView then
      Screen(EnviSensor,
             if temps == [] || humids == [] then NoDataYet
             else Readings(temps[|temps| - 1], humids[|humids| - 1]))
    else if view == TemperatureAnalysisView then
      StatisticsOfRetained(temps, tempCap);
      Screen(TemperatureAnalysis, StatisticsBody(SortAscending(Window(temps, tempCap))))
    else
      StatisticsOfRetained(humids, humCap);
      Screen(HumidityAnalysis, StatisticsBody(SortAscending(Window(humids, humCap))))
  }

  /** The module-level state of the display module. */
  class LcdManager {
    var temperature: RingBuf
    var humidity: RingBuf
    /** lcd_view, initially LCD_VIEW_LAST_READINGS. */
    var view: nat
    /** my_font_6x8. */
    var font: array<uint8>

    ghost predicate Valid()
      reads this, temperature, humidity, temperature.data, humidity.data
    {
      && temperature != humidity
      && temperature.data != humidity.data
      && temperature.Valid()
      && humidity.Valid()
      && view < ViewCount
      && font.Length == FontLen
    }

    /**
     * lcd_manager_init: both ring buffers initialised over their own storage
     * of ringbufLen (CONFIG_LCD_RINGBUF_DATA_LEN) slots, the font patched
     * from the library font, and the view at its static initial value.
     */
    constructor (ringbufLen: nat, libraryFont: seq<uint8>)
      requires 1 <= ringbufLen && FontLen <= |libraryFont|
      ensures Valid()
      ensures fresh(temperature) && fresh(humidity) && fresh(temperature.data) && fresh(humidity.data) && fresh(font)
      ensures temperature.capacity == ringbufLen && humidity.capacity == ringbufLen
      ensures temperature.history == [] && humidity.history == []
      ensures view == LastReadingsView
      ensures font[..] == PatchFont(libraryFont)
    {
      var temperatureData := new Slot[ringbufLen](_ => Empty);
      var humidityData := new Slot[ringbufLen](_ => Empty);
      temperature := new RingBuf(temperatureData, ringbufLen);
      humidity := new RingBuf(humidityData, ringbufLen);
      view := LastReadingsView;
      font := new uint8[FontLen](_ => 0);
      new;
      InitializeFont(libraryFont);
    }

    /**
     * initialize_my_font_6x8: memcpy of 581 library bytes, then a loop
     * overwriting bytes 46..51 with the degree bitmap.
     */
    method InitializeFont(library: seq<uint8>)
      requires font.Length == FontLen && FontLen <= |library|
      modifies font
      ensures font[..] == PatchFont(library)
    {
      forall k | 0 <= k < FontLen {
        font[k] := library[k];
      }
      var i, j := ApostropheIdx, 0;
      while j < |DegreeBitmap|
        invariant 0 <= j <= |DegreeBitmap| && i == ApostropheIdx + j
        invariant forall k :: 0 <= k < FontLen ==>
          font[k] == if ApostropheIdx <= k < i then DegreeBitmap[k - ApostropheIdx] else library[k]
      {
        font[i] := DegreeBitmap[j];
        i, j := i + 1, j + 1;
      }
    }

    /** lcd_manager_store_temperature: a put into the temperature buffer only. */
    method StoreTemperature(t: real)
      requires Valid()
      modifies temperature`getIdx, temperature`history, temperature.data
      ensures Valid()
      ensures temperature.history == old(temperature.history) + [t]
      ensures humidity.history == old(humidity.history) && humidity.data[..] == old(humidity.data[..])
    {
      temperature.Put(t, true);
    }

    /** lcd_manager_store_humidity: a put into the humidity buffer only. */
    method StoreHumidity(h: real)
      requires Valid()
      modifies humidity`getIdx, humidity`history, humidity.data
      ensures Valid()
      ensures humidity.history == old(humidity.history) + [h]
      ensures temperature.history == old(temperature.history) && temperature.data[..] == old(temperature.data[..])
    {
      humidity.Put(h, true);
    }

    /** lcd_manager_select_next_view: the view stays in range, so render's default case is unreachable. */
    method SelectNextView()
      requires Valid()
      modifies this`view
      ensures Valid()
      ensures view == NextView(old(view))
    {
      view := (view + 1) % ViewCount;
    }

    /** render_last_readings: both gets are made, and the readings shown only if both return 1. */
    method RenderLastReadings() returns (screen: Screen)
      requires Valid()
      ensures screen.heading == EnviSensor
      ensures screen.body == if temperature.history == [] || humidity.history == [] then NoDataYet
        else Readings(temperature.history[|temperature.history| - 1], humidity.history[|humidity.history| - 1])
    {
      var temperatureCount, temperatureValue := temperature.Get(0.0, true);
      var humidityCount, humidityValue := humidity.Get(0.0, true);
      screen := Screen(EnviSensor, ReadingsBody(temperatureCount, temperatureValue, humidityCount, humidityValue));
    }

    /**
     * render_historical_temperature and render_historical_humidity: a sorted
     * snapshot into a local array of the buffer's capacity, then
     * "No data yet" or the min / median / max entries.
     */
    method RenderAnalysis(rb: RingBuf, heading: Heading) returns (screen: Screen)
      requires rb.Valid()
      ensures screen == Screen(heading, StatisticsBody(SortAscending(Window(rb.history, rb.capacity))))
    {
      var sorted := new real[rb.capacity];
      var len := rb.GetAllSorted(sorted);
      ghost var snapshot := sorted[..len];
      assert snapshot == SortAscending(Window(rb.history, rb.capacity));
      if len == 0 {
        return Screen(heading, NoDataYet);
      }
      StatisticsOfSnapshot(snapshot);
      screen := Screen(heading, Statistics(sorted[0], sorted[(len - 1) / 2], sorted[len - 1]));
    }

    /** lcd_manager_render: dispatch on the selected view. */
    method Render() returns (screen: Screen)
      requires Valid()
      ensures screen == ExpectedScreen(view, temperature.history, humidity.history, temperature.capacity, humidity.capacity)
    {
      if view == LastReadingsView {
        screen := RenderLastReadings();
      } else if view == TemperatureAnalysisView {
        screen := RenderAnalysis(temperature, TemperatureAnalysis);
      } else if view == HumidityAnalysisView {
        screen := RenderAnalysis(humidity, HumidityAnalysis);
      } else {
        // default: assert(0)
        assert false;
      }
    }
  }
}
