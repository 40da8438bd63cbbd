/**
 The charging controller: each call ramps the wattage up, clamps it by three tables of
 cutback rows, backs it off near the end voltage, and shares the amps among the chargers.
 Voltages are in tenths of a volt, amps in tenths of an amp, watts in hundredths of a watt.
 */
module Charging {
  import opened Bytes

  const OUTPUT_VOLTS_MIN := 500
  const MAX_12V_WATTS := 600

  /** The voltage or temperature of a row, and its C rate in tenths. */
  datatype Row = Row(threshold: int, rate: nat)

  datatype Kind = Voltage | Cold | Hot

  datatype Tables = Tables(voltage: seq<Row>, cold: seq<Row>, hot: seq<Row>)

  /** What a call finds in the globals that other code sets. */
  datatype Inputs = Inputs(
    volts: nat, lowTemp: int, highTemp: int,
    maxStationWatts: nat, rampRate: nat, cRate: nat, cPlus: nat,
    voltsEnd: int, voltsMax: int, chargerCount: nat)

  predicate WellSet(x: Inputs) {
    0 < x.volts < 0x8000 && 0 < x.chargerCount && 0 < x.rampRate && x.maxStationWatts + 3 * x.rampRate < 0x1_0000_0000
  }

  /** The products of a row stay inside 32 bits. */
  ghost predicate RowsFit(x: Inputs, rows: seq<Row>) {
    forall k :: 0 <= k < |rows| ==>
      rows[k].rate * x.cRate < 0x8000_0000 && rows[k].rate * x.cRate / 10 * x.volts < 0x8000_0000
  }

  ghost predicate Fits(x: Inputs, t: Tables) {
    WellSet(x) && RowsFit(x, t.voltage) && RowsFit(x, t.cold) && RowsFit(x, t.hot)
  }

  function MaxAmps(x: Inputs, rate: nat): nat {
    var amps := rate * x.cRate / 10;
    if x.cPlus < 1 && amps > x.cRate then x.cRate else amps
  }

  /** The most watts that a row lets through. */
  function RowLimit(x: Inputs, row: Row): (limit: nat)
    ensures limit <= x.maxStationWatts
  {
    var watts := MaxAmps(x, row.rate) * x.volts;
    if watts > x.maxStationWatts then x.maxStationWatts else watts
  }

  /** Whether a row clamps. A voltage row always does: the clamp behind the test of its
      threshold is followed by the same clamp without a test. */
  predicate InForce(x: Inputs, kind: Kind, row: Row) {
    match kind
    case Voltage => true
    case Cold => x.lowTemp <= row.threshold
    case Hot => x.highTemp >= row.threshold
  }

  /** The limits of the first `n` rows, of those in force. */
  function Limits(x: Inputs, kind: Kind, rows: seq<Row>, n: nat): seq<nat>
    requires n <= |rows|
  {
    if n == 0 then []
    else
      var front := Limits(x, kind, rows, n - 1);
      if InForce(x, kind, rows[n - 1]) then front + [RowLimit(x, rows[n - 1])] else front
  }

  function AllLimits(x: Inputs, t: Tables): seq<nat> {
    Limits(x, Voltage, t.voltage, |t.voltage|) + Limits(x, Cold, t.cold, |t.cold|) + Limits(x, Hot, t.hot, |t.hot|)
  }

  function Clamped(w: nat, limits: seq<nat>): nat {
    if limits == [] then w
    else
      var front := Clamped(w, limits[..|limits| - 1]);
      if front > limits[|limits| - 1] then limits[|limits| - 1] else front
  }

  function Ramped(w: nat, x: Inputs): nat {
    if w < x.maxStationWatts then w + x.rampRate else w
  }

  /** The back-off at the end voltage and the stop outside the voltage range. */
  function BackedOff(w: nat, x: Inputs): nat {
    var v := if x.volts >= x.voltsEnd then (if w > x.rampRate * 3 then w - x.rampRate * 3 else 0) else w;
    if x.volts > x.voltsMax || x.volts < OUTPUT_VOLTS_MIN then 0 else v
  }

  /** The cut to what the station can deliver. */
  function StationCut(x: Inputs): nat {
    (x.maxStationWatts - MAX_12V_WATTS * x.chargerCount) % 0x1_0000_0000
  }

  /** The rest of a call after the clamps. */
  function Settled(w: nat, x: Inputs): nat {
    if BackedOff(w, x) > x.maxStationWatts then StationCut(x) else BackedOff(w, x)
  }

  function NextWatts(w: nat, x: Inputs, t: Tables): nat {
    Settled(Clamped(Ramped(w, x), AllLimits(x, t)), x)
  }

  /** Amps for each charger, by way of a 16-bit variable. */
  function AmpsEach(w: nat, x: Inputs): nat
    requires x.volts > 0 && x.chargerCount > 0
  {
    var amps := w / x.volts % 0x1_0000;
    (if x.cPlus < 1 && amps > x.cRate then x.cRate else amps) / x.chargerCount
  }

  class Charger {
    var inputs: Inputs
    var watts: nat
    var chargingAmps: nat

    constructor (x: Inputs)
      ensures inputs == x && watts == 0 && chargingAmps == 0
    {
      inputs, watts, chargingAmps := x, 0, 0;
    }

    /** The first lines of each loop: the most watts that a row lets through. */
    method MaxWatts(rate: nat) returns (maxWatts: nat)
      ensures maxWatts == RowLimit(inputs, Row(0, rate))
    {
      var maxAmps := rate * inputs.cRate / 10;
      if inputs.cPlus < 1 && maxAmps > inputs.cRate {
        maxAmps := inputs.cRate;
      }
      maxWatts := maxAmps * inputs.volts;
      if maxWatts > inputs.maxStationWatts {
        maxWatts := inputs.maxStationWatts;
      }
    }

    method CutBackByVoltage(rows: seq<Row>)
      modifies this`watts
      ensures watts == Clamped(old(watts), Limits(inputs, Voltage, rows, |rows|))
    {
      for i := 0 to |rows|
        invariant watts == Clamped(old(watts), Limits(inputs, Voltage, rows, i))
      {
        var maxWatts := MaxWatts(rows[i].rate);
        if inputs.volts > rows[i].threshold && watts > maxWatts {
          watts := maxWatts;
        }
        if watts > maxWatts {
          watts := maxWatts;
        }
      }
    }

    method CutBackIfCold(rows: seq<Row>)
      modifies this`watts
      ensures watts == Clamped(old(watts), Limits(inputs, Cold, rows, |rows|))
    {
      for i := 0 to |rows|
        invariant watts == Clamped(old(watts), Limits(inputs, Cold, rows, i))
      {
        var maxWatts := MaxWatts(rows[i].rate);
        if inputs.lowTemp <= rows[i].threshold {
          if watts > maxWatts {
            watts := maxWatts;
          }
        }
      }
    }

    method CutBackIfHot(rows: seq<Row>)
      modifies this`watts
      ensures watts == Clamped(old(watts), Limits(inputs, Hot, rows, |rows|))
    {
      for i := 0 to |rows|
        invariant watts == Clamped(old(watts), Limits(inputs, Hot, rows, i))
      {
        var maxWatts := MaxWatts(rows[i].rate);
        if inputs.highTemp >= rows[i].threshold {
          if watts > maxWatts {
            watts := maxWatts;
          }
        }
      }
    }

    method SetChargingAmps(t: Tables)
      requires Fits(inputs, t)
      modifies this`watts, this`chargingAmps
      ensures watts == NextWatts(old(watts), inputs, t)
      ensures chargingAmps == AmpsEach(watts, inputs)
    {
      hide Limits, Clamped, RowsFit, Settled, AmpsEach;
      if watts < inputs.maxStationWatts {
        watts := watts + inputs.rampRate;
      }
      CutBackByVoltage(t.voltage);
      CutBackIfCold(t.cold);
      CutBackIfHot(t.hot);
      ClampedTwice(Ramped(old(watts), inputs), Limits(inputs, Voltage, t.voltage, |t.voltage|),
                   Limits(inputs, Cold, t.cold, |t.cold|));
      ClampedTwice(Ramped(old(watts), inputs),
                   Limits(inputs, Voltage, t.voltage, |t.voltage|) + Limits(inputs, Cold, t.cold, |t.cold|),
                   Limits(inputs, Hot, t.hot, |t.hot|));
      Settle();
      ShareAmps();
    }

    /** The second half of a call, up to the wattage. */
    method Settle()
      modifies this`watts
      ensures watts == Settled(old(watts), inputs)
    {
      if inputs.volts >= inputs.voltsEnd {
        if watts > inputs.rampRate * 3 {
          watts := watts - inputs.rampRate * 3;
        } else {
          watts := 0;
        }
      }
      if inputs.volts > inputs.voltsMax || inputs.volts < OUTPUT_VOLTS_MIN {
        watts := 0;
      }
      if watts > inputs.maxStationWatts {
        watts := (inputs.maxStationWatts - MAX_12V_WATTS * inputs.chargerCount) % 0x1_0000_0000;
      }
    }

    method ShareAmps()
      requires WellSet(inputs)
      modifies this`chargingAmps
      ensures chargingAmps == AmpsEach(watts, inputs)
    {
      chargingAmps := watts / inputs.volts % 0x1_0000;
      if inputs.cPlus < 1 {
        if chargingAmps > inputs.cRate {
          chargingAmps := inputs.cRate;
        }
      }
      chargingAmps := chargingAmps / inputs.chargerCount;
    }
  }

  lemma {:induction false} ClampedTwice(w: nat, a: seq<nat>, b: seq<nat>)
    ensures Clamped(w, a + b) == Clamped(Clamped(w, a), b)
  {
    if b == [] {
      assert a + b == a;
    } else {
      assert (a + b)[..|a + b| - 1] == a + b[..|b| - 1];
      ClampedTwice(w, a, b[..|b| - 1]);
    }
  }

  /** The clamp lets `l` stand as a bound just when the wattage or some limit is no
      larger than `l`. */
  predicate Bounded(w: nat, limits: seq<nat>, l: nat) {
    w <= l || exists k :: 0 <= k < |limits| && limits[k] <= l
  }

  lemma {:induction false} ClampedIsLeast(w: nat, limits: seq<nat>, l: nat)
    ensures Clamped(w, limits) <= l <==> Bounded(w, limits, l)
  {
    if limits != [] {
      var front := limits[..|limits| - 1];
      ClampedIsLeast(w, front, l);
      if Bounded(w, limits, l) && w > l {
        var k :| 0 <= k < |limits| && limits[k] <= l;
        if k < |front| {
          assert front[k] <= l;
        }
      }
      if Bounded(w, front, l) && w > l {
        var k :| 0 <= k < |front| && front[k] <= l;
        assert limits[k] <= l;
      }
    }
  }

  /** No limit is passed, and nothing but the wattage and the limits decides. */
  lemma {:induction false} ClampedWithin(w: nat, limits: seq<nat>)
    ensures Clamped(w, limits) <= w
    ensures forall k :: 0 <= k < |limits| ==> Clamped(w, limits) <= limits[k]
    ensures Clamped(w, limits) == w || Clamped(w, limits) in limits
  {
    ClampedIsLeast(w, limits, w);
    forall k | 0 <= k < |limits|
      ensures Clamped(w, limits) <= limits[k]
    {
      ClampedIsLeast(w, limits, limits[k]);
    }
    ClampedIsLeast(w, limits, Clamped(w, limits));
  }

  /** More limits, or a lower wattage, never give more watts. */
  lemma ClampedShrinks(w: nat, limits: seq<nat>, v: nat, more: seq<nat>)
    requires v <= w && forall l :: l in limits ==> l in more
    ensures Clamped(v, more) <= Clamped(w, limits)
  {
    ClampedWithin(v, more);
    ClampedWithin(w, limits);
    if Clamped(w, limits) != w {
      var l := Clamped(w, limits);
      assert l in more;
    }
  }

  /** A limit is among the limits of the first `n` rows just when one of them is in
      force and has it. */
  lemma {:induction false} LimitsOfRows(x: Inputs, kind: Kind, rows: seq<Row>, n: nat, l: nat)
    requires n <= |rows|
    ensures l in Limits(x, kind, rows, n) <==>
            exists k :: 0 <= k < n && InForce(x, kind, rows[k]) && RowLimit(x, rows[k]) == l
  {
    if n > 0 {
      LimitsOfRows(x, kind, rows, n - 1, l);
      if InForce(x, kind, rows[n - 1]) && RowLimit(x, rows[n - 1]) == l {
        assert Limits(x, kind, rows, n)[|Limits(x, kind, rows, n)| - 1] == l;
      }
    }
  }

  /** A row of one of the tables that is in force. */
  predicate CutsBack(x: Inputs, t: Tables, kind: Kind, row: Row) {
    InForce(x, kind, row) && row in (match kind case Voltage => t.voltage case Cold => t.cold case Hot => t.hot)
  }

  lemma LimitsOfTables(x: Inputs, t: Tables, l: nat)
    ensures l in AllLimits(x, t) <==> exists kind, row :: CutsBack(x, t, kind, row) && RowLimit(x, row) == l
  {
    LimitsOfRows(x, Voltage, t.voltage, |t.voltage|, l);
    LimitsOfRows(x, Cold, t.cold, |t.cold|, l);
    LimitsOfRows(x, Hot, t.hot, |t.hot|, l);
    forall k | 0 <= k < |t.voltage| && RowLimit(x, t.voltage[k]) == l
      ensures CutsBack(x, t, Voltage, t.voltage[k])
    {
    }
    forall k | 0 <= k < |t.cold| && InForce(x, Cold, t.cold[k]) && RowLimit(x, t.cold[k]) == l
      ensures CutsBack(x, t, Cold, t.cold[k])
    {
    }
    forall k | 0 <= k < |t.hot| && InForce(x, Hot, t.hot[k]) && RowLimit(x, t.hot[k]) == l
      ensures CutsBack(x, t, Hot, t.hot[k])
    {
    }
  }

  lemma Scaled(a: nat, b: nat, c: nat)
    requires a <= b
    ensures a * c <= b * c
  {
  }

  lemma QuotientFits(w: nat, d: nat)
    requires d > 0
    ensures w / d * d <= w
  {
  }

  /** An amount shared in equal whole parts, each drawn at some voltage. */
  lemma Shared(amps: nat, count: nat, volts: nat, w: nat)
    requires count > 0 && amps * volts <= w
    ensures amps / count * count <= amps && amps / count * count * volts <= w
  {
    QuotientFits(amps, count);
    Scaled(amps / count * count, amps, volts);
  }

  /** The amps handed out never draw more than the wattage, nor than the battery's
      C rate when that is the cap. */
  lemma AmpsCovered(w: nat, x: Inputs)
    requires WellSet(x)
    ensures AmpsEach(w, x) * x.chargerCount * x.volts <= w
    ensures x.cPlus < 1 ==> AmpsEach(w, x) * x.chargerCount <= x.cRate
  {
    var q := w / x.volts;
    var low := q % 0x1_0000;
    var amps := if x.cPlus < 1 && low > x.cRate then x.cRate else low;
    QuotientFits(w, x.volts);
    Scaled(amps, q, x.volts);
    Shared(amps, x.chargerCount, x.volts, w);
    assert AmpsEach(w, x) == amps / x.chargerCount;
  }

  /** So many amps for each charger draw no more than the wattage, nor than the C rate
      when that is the cap. */
  ghost predicate Draws(n: nat, w: nat, x: Inputs) {
    n * x.chargerCount * x.volts <= w && (x.cPlus < 1 ==> n * x.chargerCount <= x.cRate)
  }

  lemma AtMostQuotient(n: nat, d: nat, w: nat)
    requires d > 0 && n * d <= w
    ensures n <= w / d
  {
    var q := w / d;
    assert w < (q + 1) * d;
    if n > q {
      Scaled(q + 1, n, d);
    }
  }

  /** The amps handed out are the most that the wattage and the C rate allow, where
      the division by the voltage fits into 16 bits. */
  lemma AmpsLargest(w: nat, x: Inputs)
    requires WellSet(x) && w / x.volts < 0x1_0000
    ensures Draws(AmpsEach(w, x), w, x) && forall n: nat :: Draws(n, w, x) ==> n <= AmpsEach(w, x)
  {
    AmpsCovered(w, x);
    forall n: nat | Draws(n, w, x) ensures n <= AmpsEach(w, x) {
      AtMostQuotient(n * x.chargerCount, x.volts, w);
      var amps := if x.cPlus < 1 && w / x.volts > x.cRate then x.cRate else w / x.volts;
      AtMostQuotient(n, x.chargerCount, amps);
    }
  }

  /** Beyond 16 bits the amps start again from zero. */
  lemma AmpsWrap(w: nat, x: Inputs)
    requires WellSet(x)
    ensures AmpsEach(w + 0x1_0000 * x.volts, x) == AmpsEach(w, x)
  {
    var q := w / x.volts;
    QuotientFits(w, x.volts);
    assert (w + 0x1_0000 * x.volts) / x.volts == q + 0x1_0000 by {
      Exactly(w + 0x1_0000 * x.volts, x.volts, q + 0x1_0000, w - q * x.volts);
    }
  }

  lemma Exactly(w: nat, d: nat, q: nat, r: nat)
    requires r < d && w == q * d + r
    ensures w / d == q
  {
    AtMostQuotient(q, d, w);
    if w / d > q {
      QuotientFits(w, d);
      Scaled(q + 1, w / d, d);
    }
  }

  // ---------- what a row and a call let through ----------

  /** The amps of a row: as many as its C rate gives, and no more than the battery's own
      C rate when that is the cap. */
  lemma RowAmps(x: Inputs, rate: nat, n: nat)
    ensures n <= MaxAmps(x, rate) <==> 10 * n <= rate * x.cRate && (x.cPlus < 1 ==> n <= x.cRate)
  {
  }

  /** What a row lets through: so many amps at the voltage, and no more than the station. */
  lemma RowWatts(x: Inputs, row: Row, b: nat)
    ensures RowLimit(x, row) <= b <==>
            x.maxStationWatts <= b || forall n: nat :: AllowedAmps(x, row, n) ==> n * x.volts <= b
  {
    var most := MaxAmps(x, row.rate);
    forall n: nat ensures AllowedAmps(x, row, n) <==> n <= most {
      RowAmps(x, row.rate, n);
    }
    forall n: nat | AllowedAmps(x, row, n) ensures n * x.volts <= most * x.volts {
      Scaled(n, most, x.volts);
    }
    assert AllowedAmps(x, row, most);
  }

  predicate AllowedAmps(x: Inputs, row: Row, n: nat) {
    10 * n <= row.rate * x.cRate && (x.cPlus < 1 ==> n <= x.cRate)
  }

  /** A whole call, by what it lets through: the wattage is within a bound if and only if
      the voltage is out of range, or within that bound and the back-off at the end
      voltage lies the wattage with its ramp, or what some voltage row, some row for a
      warmer low or some row for a cooler high lets through. */
  lemma NextAtMost(w: nat, x: Inputs, t: Tables, b: nat)
    requires t.voltage != []
    ensures var room := b + if x.volts >= x.voltsEnd then 3 * x.rampRate else 0;
      NextWatts(w, x, t) <= b <==>
      || x.volts > x.voltsMax || x.volts < 500
      || (if w < x.maxStationWatts then w + x.rampRate else w) <= room
      || (exists row :: row in t.voltage && RowLimit(x, row) <= room)
      || (exists row :: row in t.cold && x.lowTemp <= row.threshold && RowLimit(x, row) <= room)
      || (exists row :: row in t.hot && x.highTemp >= row.threshold && RowLimit(x, row) <= room)
  {
    hide Limits, Clamped, RowLimit, AllLimits;
    var room := b + if x.volts >= x.voltsEnd then 3 * x.rampRate else 0;
    var limits, c := AllLimits(x, t), Clamped(Ramped(w, x), AllLimits(x, t));
    ClampedWithinStation(Ramped(w, x), x, t);
    ClampedIsLeast(Ramped(w, x), limits, room);
    SomeLimit(x, t, room);
    assert x.volts <= x.voltsMax && x.volts >= 500 ==> (NextWatts(w, x, t) <= b <==> c <= room);
  }

  lemma SomeLimit(x: Inputs, t: Tables, b: nat)
    ensures (exists k :: 0 <= k < |AllLimits(x, t)| && AllLimits(x, t)[k] <= b) <==>
      || (exists row :: row in t.voltage && RowLimit(x, row) <= b)
      || (exists row :: row in t.cold && x.lowTemp <= row.threshold && RowLimit(x, row) <= b)
      || (exists row :: row in t.hot && x.highTemp >= row.threshold && RowLimit(x, row) <= b)
  {
    hide Limits, RowLimit, AllLimits;
    var limits := AllLimits(x, t);
    if k :| 0 <= k < |limits| && limits[k] <= b {
      LimitsOfTables(x, t, limits[k]);
      var kind, row :| CutsBack(x, t, kind, row) && RowLimit(x, row) == limits[k];
    }
    forall kind, row | CutsBack(x, t, kind, row) && RowLimit(x, row) <= b
      ensures exists k :: 0 <= k < |limits| && limits[k] <= b
    {
      LimitsOfTables(x, t, RowLimit(x, row));
    }
    forall row | row in t.voltage ensures CutsBack(x, t, Voltage, row) {
    }
    forall row | row in t.cold && x.lowTemp <= row.threshold ensures CutsBack(x, t, Cold, row) {
    }
    forall row | row in t.hot && x.highTemp >= row.threshold ensures CutsBack(x, t, Hot, row) {
    }
  }

  /** Without any row in force a wattage above what the station can deliver falls to the
      station's less 6 W for each charger. */
  lemma StationCuts(w: nat, x: Inputs)
    requires w > x.maxStationWatts >= 600 * x.chargerCount && x.maxStationWatts < 0x1_0000_0000
    requires 500 <= x.volts <= x.voltsMax && x.volts < x.voltsEnd
    ensures NextWatts(w, x, Tables([], [], [])) == x.maxStationWatts - 600 * x.chargerCount
  {
  }

  /** Settling lowers a wattage that the station can deliver. */
  lemma SettledWithin(w: nat, x: Inputs)
    requires w <= x.maxStationWatts
    ensures Settled(w, x) <= w
    ensures x.volts >= x.voltsEnd ==> Settled(w, x) <= (if w > x.rampRate * 3 then w - x.rampRate * 3 else 0)
  {
  }

  /** A clamp by at least one voltage row stays within the station's limit. */
  lemma ClampedWithinStation(w: nat, x: Inputs, t: Tables)
    requires t.voltage != []
    ensures Clamped(w, AllLimits(x, t)) <= x.maxStationWatts && Clamped(w, AllLimits(x, t)) <= w
    ensures forall kind, row :: CutsBack(x, t, kind, row) ==> Clamped(w, AllLimits(x, t)) <= RowLimit(x, row)
  {
    hide Limits, Clamped;
    var limits := AllLimits(x, t);
    ClampedWithin(w, limits);
    forall kind, row | CutsBack(x, t, kind, row)
      ensures Clamped(w, limits) <= RowLimit(x, row)
    {
      LimitsOfTables(x, t, RowLimit(x, row));
    }
    assert CutsBack(x, t, Voltage, t.voltage[0]);
  }

  /** What every call keeps, with at least one voltage row: the envelope of the station
      and the battery, the slow ramp, and every row in force. */
  lemma Envelope(w: nat, x: Inputs, t: Tables)
    requires WellSet(x) && t.voltage != []
    ensures NextWatts(w, x, t) <= x.maxStationWatts && NextWatts(w, x, t) <= w + x.rampRate
    ensures AmpsEach(NextWatts(w, x, t), x) * x.chargerCount * x.volts <= NextWatts(w, x, t)
    ensures x.cPlus < 1 ==> AmpsEach(NextWatts(w, x, t), x) * x.chargerCount <= x.cRate
    ensures forall kind, row :: CutsBack(x, t, kind, row) ==> NextWatts(w, x, t) <= RowLimit(x, row)
  {
    hide Limits, Clamped, RowLimit, Settled, AmpsEach, AllLimits;
    ClampedWithinStation(Ramped(w, x), x, t);
    SettledWithin(Clamped(Ramped(w, x), AllLimits(x, t)), x);
    AmpsCovered(NextWatts(w, x, t), x);
  }

  /** The wattage after a run of calls. */
  function WattsAfter(w: nat, xs: seq<Inputs>, t: Tables): nat {
    if xs == [] then w else NextWatts(WattsAfter(w, xs[..|xs| - 1], t), xs[|xs| - 1], t)
  }

  datatype Sample = Sample(watts: nat, chargingAmps: nat)

  /** What holds after a call that found the inputs `x` and the wattage `before`. */
  ghost predicate Enveloped(before: nat, after: Sample, x: Inputs, t: Tables) {
    && after.chargingAmps * x.chargerCount * x.volts <= after.watts <= x.maxStationWatts
    && (x.cPlus < 1 ==> after.chargingAmps * x.chargerCount <= x.cRate)
    && (x.volts > 0 && after.watts / x.volts < 0x1_0000 ==>
          forall n: nat :: Draws(n, after.watts, x) ==> n <= after.chargingAmps)
    && after.watts <= before + x.rampRate
    && (forall kind, row :: CutsBack(x, t, kind, row) ==> after.watts <= RowLimit(x, row))
  }

  method Call(charger: Charger, x: Inputs, t: Tables) returns (s: Sample)
    requires t.voltage != [] && Fits(x, t)
    modifies charger
    ensures s.watts == charger.watts == NextWatts(old(charger.watts), x, t)
    ensures Enveloped(old(charger.watts), s, x, t)
  {
    hide NextWatts, Enveloped, AmpsEach;
    charger.inputs := x;
    charger.SetChargingAmps(t);
    s := Sample(charger.watts, charger.chargingAmps);
    EnvelopeHolds(old(charger.watts), x, t);
  }

  /** The wattage before call `k` of a trace. */
  function Before(trace: seq<Sample>, k: nat): nat
    requires k <= |trace|
  {
    if k == 0 then 0 else trace[k - 1].watts
  }

  lemma SameBefore(trace: seq<Sample>, s: Sample)
    ensures forall k :: 0 <= k <= |trace| ==> Before(trace + [s], k) == Before(trace, k)
    ensures Before(trace + [s], |trace| + 1) == s.watts && Before(trace, 0) == 0
  {
  }

  lemma WattsNext(xs: seq<Inputs>, i: nat, t: Tables)
    requires i <= |xs|
    ensures i == 0 ==> WattsAfter(0, xs[..i], t) == 0
    ensures i < |xs| ==> WattsAfter(0, xs[..i + 1], t) == NextWatts(WattsAfter(0, xs[..i], t), xs[i], t)
  {
    if i < |xs| {
      assert xs[..i + 1][..i] == xs[..i];
    }
  }

  /** A run of calls with any voltages, temperatures and settings between them. */
  method Run(xs: seq<Inputs>, t: Tables) returns (trace: seq<Sample>)
    requires t.voltage != [] && forall k :: 0 <= k < |xs| ==> Fits(xs[k], t)
    ensures |trace| == |xs|
    ensures forall k :: 0 <= k < |xs| ==> trace[k].watts == WattsAfter(0, xs[..k + 1], t)
    ensures forall k :: 0 <= k < |xs| ==> Enveloped(Before(trace, k), trace[k], xs[k], t)
  {
    hide NextWatts, Enveloped, AmpsEach, Fits, WattsAfter, Before;
    WattsNext(xs, 0, t);
    trace := [];
    var charger := new Charger(Inputs(0, 0, 0, 0, 0, 0, 0, 0, 0, 0));
    SameBefore(trace, Sample(0, 0));
    for i := 0 to |xs|
      invariant fresh(charger) && |trace| == i
      invariant charger.watts == Before(trace, i) == WattsAfter(0, xs[..i], t)
      invariant forall k :: 0 <= k < i ==> trace[k].watts == WattsAfter(0, xs[..k + 1], t)
      invariant forall k :: 0 <= k < i ==> Enveloped(Before(trace, k), trace[k], xs[k], t)
    {
      var s := Call(charger, xs[i], t);
      ghost var earlier := trace;
      trace := trace + [s];
      SameBefore(earlier, s);
      WattsNext(xs, i, t);
    }
  }

  lemma EnvelopeHolds(w: nat, x: Inputs, t: Tables)
    requires WellSet(x) && t.voltage != []
    ensures Enveloped(w, Sample(NextWatts(w, x, t), AmpsEach(NextWatts(w, x, t), x)), x, t)
  {
    hide NextWatts, AmpsEach, Draws;
    Envelope(w, x, t);
    if NextWatts(w, x, t) / x.volts < 0x1_0000 {
      AmpsLargest(NextWatts(w, x, t), x);
    }
  }

  /** At the end voltage a call lowers the wattage by two ramps, in spite of the ramp
      at its start, or stops the charger. */
  lemma StepsDown(w: nat, x: Inputs, t: Tables)
    requires t.voltage != [] && x.volts >= x.voltsEnd
    ensures NextWatts(w, x, t) == 0 || NextWatts(w, x, t) + 2 * x.rampRate <= w
  {
    hide Clamped, AllLimits, Settled;
    ClampedWithinStation(Ramped(w, x), x, t);
    SettledWithin(Clamped(Ramped(w, x), AllLimits(x, t)), x);
  }

  /** Every call of a run at or above the end voltage, with ramps of at least half of `drop`. */
  ghost predicate AtEnd(xs: seq<Inputs>, drop: nat) {
    forall k :: 0 <= k < |xs| ==> xs[k].volts >= xs[k].voltsEnd && 2 * xs[k].rampRate >= drop
  }

  /** Two ramps a call, until nothing is left. */
  lemma {:induction false} Falls(w: nat, xs: seq<Inputs>, t: Tables, drop: nat)
    requires t.voltage != [] && AtEnd(xs, drop)
    ensures WattsAfter(w, xs, t) == 0 || WattsAfter(w, xs, t) + drop * |xs| <= w
  {
    hide NextWatts;
    if xs != [] {
      var front := xs[..|xs| - 1];
      Falls(w, front, t, drop);
      StepsDown(WattsAfter(w, front, t), xs[|xs| - 1], t);
      assert drop * |xs| == drop * |front| + drop;
    }
  }

  lemma Exceeds(w: nat, drop: nat, n: nat)
    requires 0 < drop && n >= w / drop + 1
    ensures drop * n > w
  {
    var q := w / drop;
    assert w < drop * (q + 1);
    Scaled(q + 1, n, drop);
  }

  /** Charging winds down: while the end voltage is kept, the wattage is zero after
      `w / drop + 1` calls, where `drop` is two ramps, and stays there. */
  lemma WindsDown(w: nat, xs: seq<Inputs>, t: Tables, drop: nat)
    requires t.voltage != [] && AtEnd(xs, drop) && 0 < drop && |xs| >= w / drop + 1
    ensures WattsAfter(w, xs, t) == 0
  {
    hide WattsAfter, AtEnd;
    Falls(w, xs, t, drop);
    Exceeds(w, drop, |xs|);
  }

  /** The wattage that steady inputs charge at. */
  function Plateau(x: Inputs, t: Tables): nat {
    Clamped(x.maxStationWatts, AllLimits(x, t))
  }

  /** Away from the ends of the voltage range, steady inputs bring the wattage up ramp
      by ramp to the plateau, from any start below it, and hold it there. */
  lemma {:induction false} ChargesUp(w: nat, x: Inputs, t: Tables, n: nat)
    requires t.voltage != [] && w <= Plateau(x, t)
    requires OUTPUT_VOLTS_MIN <= x.volts < x.voltsEnd && x.volts <= x.voltsMax
    ensures WattsAfter(w, seq(n, _ => x), t) == Min(w + n * x.rampRate, Plateau(x, t))
  {
    hide NextWatts, Plateau;
    var xs := seq(n, _ => x);
    if n > 0 {
      assert xs[..n - 1] == seq(n - 1, _ => x);
      ChargesUp(w, x, t, n - 1);
      assert n * x.rampRate == (n - 1) * x.rampRate + x.rampRate;
      StepsUp(WattsAfter(w, xs[..n - 1], t), x, t);
    }
  }

  lemma StepsUp(w: nat, x: Inputs, t: Tables)
    requires t.voltage != [] && w <= Plateau(x, t)
    requires OUTPUT_VOLTS_MIN <= x.volts < x.voltsEnd && x.volts <= x.voltsMax
    ensures NextWatts(w, x, t) == Min(w + x.rampRate, Plateau(x, t))
  {
    hide Clamped, AllLimits;
    var limits, max := AllLimits(x, t), x.maxStationWatts;
    ClampedWithinStation(Ramped(w, x), x, t);
    ClampedWithinStation(max, x, t);
    var c := Clamped(Ramped(w, x), limits);
    if c < Min(Ramped(w, x), Plateau(x, t)) {
      ClampedIsLeast(Ramped(w, x), limits, c);
      ClampedIsLeast(max, limits, c);
    }
    if c > Plateau(x, t) {
      ClampedIsLeast(max, limits, Plateau(x, t));
      ClampedIsLeast(Ramped(w, x), limits, Plateau(x, t));
    }
  }

  ghost predicate SameRows(t: Tables, u: Tables) {
    && (forall row :: row in t.voltage <==> row in u.voltage)
    && (forall row :: row in t.cold <==> row in u.cold)
    && (forall row :: row in t.hot <==> row in u.hot)
  }

  /** Neither the order of rows nor their repetition matters. */
  lemma OrderFree(w: nat, x: Inputs, t: Tables, u: Tables)
    requires SameRows(t, u)
    ensures NextWatts(w, x, t) == NextWatts(w, x, u)
  {
    hide Limits, Clamped, RowLimit, Settled, AllLimits;
    forall l: nat
      ensures l in AllLimits(x, t) <==> l in AllLimits(x, u)
    {
      LimitsOfTables(x, t, l);
      LimitsOfTables(x, u, l);
      forall kind, row
        ensures CutsBack(x, t, kind, row) <==> CutsBack(x, u, kind, row)
      {
      }
    }
    ClampedShrinks(Ramped(w, x), AllLimits(x, t), Ramped(w, x), AllLimits(x, u));
    ClampedShrinks(Ramped(w, x), AllLimits(x, u), Ramped(w, x), AllLimits(x, t));
  }

  /** A colder pack or a hotter one, all else equal, never charges faster. */
  lemma TemperatureNeverHelps(w: nat, x: Inputs, t: Tables, lowTemp: int, highTemp: int)
    requires t.voltage != [] && lowTemp <= x.lowTemp && x.highTemp <= highTemp
    ensures NextWatts(w, x.(lowTemp := lowTemp, highTemp := highTemp), t) <= NextWatts(w, x, t)
  {
    hide Limits, Clamped, AllLimits;
    var y := x.(lowTemp := lowTemp, highTemp := highTemp);
    forall l | l in AllLimits(x, t)
      ensures l in AllLimits(y, t)
    {
      LimitsOfTables(x, t, l);
      var kind, row :| CutsBack(x, t, kind, row) && RowLimit(x, row) == l;
      assert CutsBack(y, t, kind, row) && RowLimit(y, row) == l;
      LimitsOfTables(y, t, l);
    }
    ClampedShrinks(Ramped(w, x), AllLimits(x, t), Ramped(w, y), AllLimits(y, t));
    ClampedWithinStation(Ramped(w, x), x, t);
    ClampedWithinStation(Ramped(w, y), y, t);
  }

  /** What the voltage table is for: only rows whose threshold the voltage has passed
      cut back. */
  function Passed(x: Inputs, rows: seq<Row>, n: nat): seq<Row>
    requires n <= |rows|
  {
    if n == 0 then []
    else if x.volts > rows[n - 1].threshold then Passed(x, rows, n - 1) + [rows[n - 1]]
    else Passed(x, rows, n - 1)
  }

  function Intended(x: Inputs, t: Tables): Tables {
    t.(voltage := Passed(x, t.voltage, |t.voltage|))
  }

  lemma {:induction false} PassedRows(x: Inputs, rows: seq<Row>, n: nat, row: Row)
    requires n <= |rows|
    ensures row in Passed(x, rows, n) <==> row in rows[..n] && x.volts > row.threshold
  {
    if n > 0 {
      PassedRows(x, rows, n - 1, row);
      assert rows[..n] == rows[..n - 1] + [rows[n - 1]];
    }
  }

  /** Whether a row that the voltage has not reached would lower the wattage: neither
      the ramped wattage nor a row meant to cut back is as low as its limit. */
  predicate IdleRowBites(w: nat, x: Inputs, t: Tables) {
    exists row :: row in t.voltage && x.volts <= row.threshold &&
      !Bounded(Ramped(w, x), AllLimits(x, Intended(x, t)), RowLimit(x, row))
  }

  /** Rows can only lower the wattage: the table as it is meant never gives less. */
  lemma IntendedIsHigher(w: nat, x: Inputs, t: Tables)
    ensures Clamped(Ramped(w, x), AllLimits(x, t)) <= Clamped(Ramped(w, x), AllLimits(x, Intended(x, t)))
  {
    hide Limits, Clamped, RowLimit, AllLimits;
    var u := Intended(x, t);
    forall kind, row | CutsBack(x, u, kind, row)
      ensures CutsBack(x, t, kind, row)
    {
      PassedRows(x, t.voltage, |t.voltage|, row);
      assert t.voltage[..|t.voltage|] == t.voltage;
    }
    forall l | l in AllLimits(x, u)
      ensures l in AllLimits(x, t)
    {
      LimitsOfTables(x, u, l);
      LimitsOfTables(x, t, l);
    }
    ClampedShrinks(Ramped(w, x), AllLimits(x, u), Ramped(w, x), AllLimits(x, t));
  }

  /** The clamps do what the voltage table is for just when no row that the voltage has
      not reached bites. */
  lemma ThresholdsKept(w: nat, x: Inputs, t: Tables)
    ensures Clamped(Ramped(w, x), AllLimits(x, t)) == Clamped(Ramped(w, x), AllLimits(x, Intended(x, t))) <==>
            !IdleRowBites(w, x, t)
  {
    hide Limits, Clamped, RowLimit, AllLimits, Bounded;
    var u := Intended(x, t);
    var all, meant := Clamped(Ramped(w, x), AllLimits(x, t)), Clamped(Ramped(w, x), AllLimits(x, u));
    forall kind, row
      ensures CutsBack(x, t, kind, row) <==>
              CutsBack(x, u, kind, row) || (kind == Voltage && row in t.voltage && x.volts <= row.threshold)
    {
      PassedRows(x, t.voltage, |t.voltage|, row);
      assert t.voltage[..|t.voltage|] == t.voltage;
    }
    IntendedIsHigher(w, x, t);
    forall row | row in t.voltage && x.volts <= row.threshold
      ensures all <= RowLimit(x, row)
      ensures meant <= RowLimit(x, row) <==> Bounded(Ramped(w, x), AllLimits(x, u), RowLimit(x, row))
    {
      assert CutsBack(x, t, Voltage, row);
      LimitsOfTables(x, t, RowLimit(x, row));
      ClampedWithin(Ramped(w, x), AllLimits(x, t));
      ClampedIsLeast(Ramped(w, x), AllLimits(x, u), RowLimit(x, row));
    }
    if all < meant {
      ClampedWithin(Ramped(w, x), AllLimits(x, t));
      ClampedWithin(Ramped(w, x), AllLimits(x, u));
      LimitsOfTables(x, t, all);
      var kind, row :| CutsBack(x, t, kind, row) && RowLimit(x, row) == all;
      if CutsBack(x, u, kind, row) {
        LimitsOfTables(x, u, all);
        assert false;
      }
    }
  }

  /** The rest of a call gives the same in spite of a row that bites: when the voltage
      is out of range; when it is at its end and the wattage meant is within three
      ramps, as the ramped wattage or a row meant to cut back is; and when no row is
      meant to cut back, the ramped wattage is above what the station can deliver even
      after the back-off, and the lowest row lets through just what the cut to the
      station leaves and the back-off takes. */
  predicate Hides(w: nat, x: Inputs, t: Tables) {
    var back := if x.volts >= x.voltsEnd then x.rampRate * 3 else 0;
    || x.volts > x.voltsMax || x.volts < OUTPUT_VOLTS_MIN
    || (x.volts >= x.voltsEnd && Bounded(Ramped(w, x), AllLimits(x, Intended(x, t)), back))
    || (AllLimits(x, Intended(x, t)) == [] && Ramped(w, x) > x.maxStationWatts + back
        && if StationCut(x) > 0 then Lowest(AllLimits(x, t), StationCut(x) + back)
           else exists l :: l in AllLimits(x, t) && l <= back)
  }

  predicate Lowest(limits: seq<nat>, l: nat) {
    l in limits && forall m :: m in limits ==> l <= m
  }

  /** The plateau is the lowest limit, as no limit is above the station's. */
  lemma PlateauIsLowest(x: Inputs, t: Tables)
    requires AllLimits(x, t) != []
    ensures Lowest(AllLimits(x, t), Plateau(x, t))
  {
    hide Limits, RowLimit, AllLimits;
    var limits := AllLimits(x, t);
    LimitsOfTables(x, t, limits[0]);
    ClampedWithin(x.maxStationWatts, limits);
    ClampedIsLeast(x.maxStationWatts, limits, limits[0]);
  }

  /** A whole call does what the voltage table is for just when no idle row bites or
      the rest of the call hides it. */
  lemma CallKeepsThresholds(w: nat, x: Inputs, t: Tables)
    ensures NextWatts(w, x, t) == NextWatts(w, x, Intended(x, t)) <==> !IdleRowBites(w, x, t) || Hides(w, x, t)
  {
    hide Limits, Clamped, AllLimits, IdleRowBites, StationCut, Passed, Bounded, Intended;
    var meant := AllLimits(x, Intended(x, t));
    ThresholdsKept(w, x, t);
    IntendedIsHigher(w, x, t);
    ClampedIsLeast(Ramped(w, x), meant, x.rampRate * 3);
    LimitsWithinStation(Ramped(w, x), x, Intended(x, t));
    if AllLimits(x, t) == [] {
      NoneIntended(x, t);
    } else {
      LimitsWithinStation(Ramped(w, x), x, t);
      PlateauIsLowest(x, t);
    }
  }

  /** Limits are within the station's own; so a wattage above that is clamped to the
      plateau, if anything clamps it. */
  lemma LimitsWithinStation(w: nat, x: Inputs, t: Tables)
    ensures AllLimits(x, t) == [] ==> Clamped(w, AllLimits(x, t)) == w
    ensures AllLimits(x, t) != [] ==> Clamped(w, AllLimits(x, t)) <= x.maxStationWatts
    ensures AllLimits(x, t) != [] && w > x.maxStationWatts ==> Clamped(w, AllLimits(x, t)) == Plateau(x, t)
  {
    hide Limits, RowLimit, AllLimits;
    var limits := AllLimits(x, t);
    if limits != [] {
      LimitsOfTables(x, t, limits[0]);
      ClampedWithin(w, limits);
      ClampedWithin(x.maxStationWatts, limits);
      if w > x.maxStationWatts {
        ClampedShrinks(w, limits, x.maxStationWatts, limits);
        ClampedIsLeast(x.maxStationWatts, limits, Clamped(w, limits));
        ClampedIsLeast(w, limits, Plateau(x, t));
        forall l | l in limits
          ensures l <= x.maxStationWatts
        {
          LimitsOfTables(x, t, l);
        }
        if Clamped(x.maxStationWatts, limits) == x.maxStationWatts {
          assert limits[0] <= x.maxStationWatts && x.maxStationWatts <= limits[0];
        }
      }
    }
  }

  lemma NoneIntended(x: Inputs, t: Tables)
    requires AllLimits(x, t) == []
    ensures AllLimits(x, Intended(x, t)) == []
  {
    hide Limits, RowLimit, AllLimits, Passed;
    if AllLimits(x, Intended(x, t)) != [] {
      var l := AllLimits(x, Intended(x, t))[0];
      LimitsOfTables(x, Intended(x, t), l);
      var kind, row :| CutsBack(x, Intended(x, t), kind, row) && RowLimit(x, row) == l;
      PassedRows(x, t.voltage, |t.voltage|, row);
      assert t.voltage[..|t.voltage|] == t.voltage && CutsBack(x, t, kind, row);
      LimitsOfTables(x, t, l);
      assert false;
    }
  }

  /** The basic table at a steady 100.0 V, far below its row of 0.1 C for 132.0 V: from
      rest the chargers climb to 960 W and stay there, where the table is meant to let
      them climb to the 6600 W of the station. */
  lemma IdleRowBitesBelowItsThreshold(n: nat)
    ensures var x := Inputs(1000, 25, 25, 660000, 5000, 960, 0, 1400, 1400, 1);
            var t := Tables([Row(200, 30), Row(1320, 1)], [], []);
            var xs := seq(n, _ => x);
            && WattsAfter(0, xs, t) == Min(n * 5000, 96000)
            && WattsAfter(0, xs, Intended(x, t)) == Min(n * 5000, 660000)
  {
    hide NextWatts;
    var x := Inputs(1000, 25, 25, 660000, 5000, 960, 0, 1400, 1400, 1);
    var t := Tables([Row(200, 30), Row(1320, 1)], [], []);
    assert Passed(x, t.voltage, 1) == [Row(200, 30)];
    assert Intended(x, t) == Tables([Row(200, 30)], [], []);
    assert Limits(x, Voltage, t.voltage, 1) == [660000];
    assert AllLimits(x, t) == [660000, 96000];
    assert AllLimits(x, Intended(x, t)) == [660000];
    assert [660000, 96000][..1] == [660000];
    assert Clamped(660000, [660000]) == 660000;
    ChargesUp(0, x, t, n);
    ChargesUp(0, x, Intended(x, t), n);
  }
}
