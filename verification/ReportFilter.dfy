/** The silent-window and deviation filter on property reports, over exact reals. */
module ReportFilter {
  import opened Wrappers

  const SECOND := 1_000_000_000

  /** A property value: a number of one of the calculable types, or anything else. */
  datatype Reading = Numeric(x: real) | Opaque(text: string)

  /** What was passed on last, and when; times are in nanoseconds. */
  datatype Record = Record(time: int, value: Reading)

  datatype Mapping = Mapping(attribute: string, silentWin: int, deviation: real)

  /** The clock as read for one property: for the comparison and for the two places that record. */
  datatype Times = Times(compared: int, recorded: int, recordedAgain: int)

  predicate Monotone(t: Times) {
    t.compared <= t.recorded <= t.recordedAgain
  }

  predicate OutOfWindow(last: Option<Record>, m: Mapping, t: Times) {
    last == None || t.compared - last.value.time > m.silentWin * SECOND
  }

  /** By how much a number must have grown: the deviation, in percent of the record. */
  function Threshold(last: real, m: Mapping): real {
    last * m.deviation / 100.0
  }

  predicate Deviates(last: Reading, m: Mapping, value: Reading) {
    value.Numeric? && last.Numeric? && value.x - last.x >= Threshold(last.x, m)
  }

  /** The record after one property has been filtered; the value was passed on exactly when this is another record. */
  function NewRecord(last: Option<Record>, m: Mapping, value: Reading, t: Times): (r: Record)
    ensures r.value == value || last == Some(r)
  {
    var first := if OutOfWindow(last, m, t) then Record(t.recorded, value) else last.value;
    if Deviates(first.value, m, value) then Record(t.recordedAgain, value) else first
  }

  predicate Passes(last: Option<Record>, m: Mapping, value: Reading, t: Times) {
    OutOfWindow(last, m, t) || Deviates(last.value.value, m, value)
  }

  lemma KeptRecord(last: Option<Record>, m: Mapping, value: Reading, t: Times)
    ensures if Passes(last, m, value, t) then NewRecord(last, m, value, t).value == value else last == Some(NewRecord(last, m, value, t))
  {
  }

  // ---------- Runs of one property ----------

  /** One report of a property under the mapping then in force. */
  datatype Offer = Offer(mapping: Mapping, value: Reading, times: Times)

  /** The record a run leaves, and the values passed on with the times recorded for them. */
  function Run(last: Option<Record>, offers: seq<Offer>): (Option<Record>, seq<Record>)
    decreases |offers|
  {
    if offers == [] then (last, [])
    else
      var o := offers[0];
      var r := NewRecord(last, o.mapping, o.value, o.times);
      var (end, passed) := Run(Some(r), offers[1..]);
      (end, (if Passes(last, o.mapping, o.value, o.times) then [r] else []) + passed)
  }

  /** The stored record is always the value passed on last. */
  lemma {:induction false} RecordIsLastPassed(last: Option<Record>, offers: seq<Offer>)
    ensures var (end, passed) := Run(last, offers);
            end == if passed == [] then last else Some(passed[|passed| - 1])
    decreases |offers|
  {
    if offers != [] {
      var o := offers[0];
      var r := NewRecord(last, o.mapping, o.value, o.times);
      RecordIsLastPassed(Some(r), offers[1..]);
      if !Passes(last, o.mapping, o.value, o.times) {
        KeptRecord(last, o.mapping, o.value, o.times);
      }
    }
  }

  ghost predicate Spaced(previous: Option<Record>, passed: seq<Record>, win: int)
    decreases |passed|
  {
    passed == [] ||
    ((previous != None && !(passed[0].value.Numeric? && previous.value.value.Numeric?) ==>
        passed[0].time - previous.value.time > win * SECOND) &&
     Spaced(Some(passed[0]), passed[1..], win))
  }

  /** While a mapping stays, two values passed on in a row that are not both numbers are more than the window apart. */
  lemma {:induction false} PassedAreSpaced(last: Option<Record>, offers: seq<Offer>, m: Mapping)
    requires forall o <- offers :: o.mapping == m && Monotone(o.times)
    ensures Spaced(last, Run(last, offers).1, m.silentWin)
    decreases |offers|
  {
    if offers != [] {
      var o := offers[0];
      var r := NewRecord(last, o.mapping, o.value, o.times);
      PassedAreSpaced(Some(r), offers[1..], m);
      var rest := Run(Some(r), offers[1..]).1;
      if Passes(last, o.mapping, o.value, o.times) {
        assert ([r] + rest)[1..] == rest;
      } else {
        KeptRecord(last, o.mapping, o.value, o.times);
        assert [] + rest == rest;
      }
    }
  }

  lemma {:induction false} RunSplits(last: Option<Record>, a: seq<Offer>, b: seq<Offer>)
    ensures var (mid, passed) := Run(last, a); var (end, more) := Run(mid, b); Run(last, a + b) == (end, passed + more)
    decreases |a|
  {
    if a == [] {
      assert a + b == b;
      assert [] + Run(last, b).1 == Run(last, b).1;
    } else {
      hide Run, NewRecord, Passes;
      var o, rest := a[0], a[1..];
      assert a == [o] + rest && a + b == [o] + (rest + b);
      FirstPassed(last, o, rest);
      FirstPassed(last, o, rest + b);
      var r := NewRecord(last, o.mapping, o.value, o.times);
      RunSplits(Some(r), rest, b);
      var first := if Passes(last, o.mapping, o.value, o.times) then [r] else [];
      var (mid, passed) := Run(Some(r), rest);
      assert first + (passed + Run(mid, b).1) == first + passed + Run(mid, b).1;
    }
  }

  /** The value passed on last, before the first one the record that was there. */
  function Previous(last: Option<Record>, passed: seq<Record>): Option<Record> {
    if passed == [] then last else Some(passed[|passed| - 1])
  }

  /** In every run, each offer is held against the last value passed on, and what is passed on is recorded with the reading of the clock at that place. */
  lemma NextInRun(last: Option<Record>, offers: seq<Offer>, i: nat)
    requires i < |offers|
    ensures var (passed, o) := (Run(last, offers[..i]).1, offers[i]);
            var previous := Previous(last, passed);
            Run(last, offers[..i + 1]).1 ==
              passed + if Passes(previous, o.mapping, o.value, o.times) then [Record(PassedTime(previous, o), o.value)] else []
  {
    var before, o := offers[..i], offers[i];
    assert offers[..i + 1] == before + [o];
    RunSplits(last, before, [o]);
    RecordIsLastPassed(last, before);
    var previous := Previous(last, Run(last, before).1);
    FirstPassed(previous, o, []);
    assert [o] + [] == [o];
    if Passes(previous, o.mapping, o.value, o.times) {
      RecordedWhen(previous, o);
    }
  }

  /** Out of the window the first place records, unless a number then deviates from itself, because it or the deviation is zero or they differ in sign. */
  function PassedTime(previous: Option<Record>, o: Offer): int {
    if OutOfWindow(previous, o.mapping, o.times) && !(o.value.Numeric? && o.value.x * o.mapping.deviation <= 0.0) then o.times.recorded
    else o.times.recordedAgain
  }

  lemma RecordedWhen(previous: Option<Record>, o: Offer)
    requires Passes(previous, o.mapping, o.value, o.times)
    ensures NewRecord(previous, o.mapping, o.value, o.times) == Record(PassedTime(previous, o), o.value)
  {
  }

  /** In every run, a value that was not passed on came within the window of the last one that was, and a number stayed below that one plus the deviation. */
  lemma SuppressedIsSmall(last: Option<Record>, offers: seq<Offer>, i: nat)
    requires i < |offers| && |Run(last, offers[..i + 1]).1| == |Run(last, offers[..i]).1|
    ensures var previous, o := Previous(last, Run(last, offers[..i]).1), offers[i];
            && previous != None
            && o.times.compared - previous.value.time <= o.mapping.silentWin * SECOND
            && (o.value.Numeric? && previous.value.value.Numeric? ==>
                  o.value.x < previous.value.value.x + previous.value.value.x * o.mapping.deviation / 100.0)
  {
    var before, o := offers[..i], offers[i];
    assert offers[..i + 1] == before + [o];
    RunSplits(last, before, [o]);
    RecordIsLastPassed(last, before);
    assert [o][1..] == [];
  }

  // ---------- What the deviation test sees ----------

  predicate InWindow(last: Record, m: Mapping, t: Times) {
    !OutOfWindow(Some(last), m, t)
  }

  function Abs(x: real): (a: real)
    ensures a >= 0.0 && (a == x || a == -x)
  {
    if x < 0.0 then -x else x
  }

  /** A change in either direction, measured against the size of the record. */
  predicate DeviatesEitherWay(last: real, m: Mapping, x: real) {
    Abs(x - last) >= Abs(Threshold(last, m))
  }

  /**
   Inside the window the filter is not the two-sided test. They agree on a number exactly when it has not fallen by the
   threshold, or has risen by it; and where the threshold is negative, because the record or the deviation is, exactly when
   the number has risen by the threshold's size or fallen by precisely that.
   */
  lemma TwoSidedIff(last: Record, m: Mapping, x: real, t: Times)
    requires last.value.Numeric? && InWindow(last, m, t)
    ensures var rise, least := x - last.value.x, Threshold(last.value.x, m);
            (Passes(Some(last), m, Numeric(x), t) <==> DeviatesEitherWay(last.value.x, m, x)) <==>
            if least >= 0.0 then -rise < least || rise >= least else rise >= -least || rise == least
  {
  }

  /** Inside the window all falls are suppressed, however far, if and only if the record and the deviation do not differ in sign. */
  lemma FallsAreSuppressed(last: Record, m: Mapping, t: Times)
    requires last.value.Numeric? && InWindow(last, m, t)
    ensures (forall x: real | x < last.value.x :: !Passes(Some(last), m, Numeric(x), t)) <==> last.value.x * m.deviation >= 0.0
  {
    var least := Threshold(last.value.x, m);
    if least < 0.0 {
      assert Passes(Some(last), m, Numeric(last.value.x + least), t);
    }
  }

  /** Inside the window a number equal to the record is passed on again if and only if the record or the deviation is zero or they differ in sign. */
  lemma UnchangedIsRepeated(last: Record, m: Mapping, t: Times)
    requires last.value.Numeric? && InWindow(last, m, t)
    ensures Passes(Some(last), m, last.value, t) <==> last.value.x * m.deviation <= 0.0
  {
  }

  // ---------- The method ----------

  /** The mapping that counts for a property is the last one with its name. */
  function MappingOf(mappings: seq<Mapping>, key: string): Option<Mapping> {
    if mappings == [] then None
    else if mappings[|mappings| - 1].attribute == key then Some(mappings[|mappings| - 1])
    else MappingOf(mappings[..|mappings| - 1], key)
  }

  lemma {:induction false} MappingIsLast(mappings: seq<Mapping>, key: string)
    ensures match MappingOf(mappings, key)
            case None => forall i | 0 <= i < |mappings| :: mappings[i].attribute != key
            case Some(m) =>
              exists i :: 0 <= i < |mappings| && mappings[i] == m && m.attribute == key
                          && forall j | i < j < |mappings| :: mappings[j].attribute != key
    decreases |mappings|
  {
    if mappings != [] && mappings[|mappings| - 1].attribute != key {
      MappingIsLast(mappings[..|mappings| - 1], key);
    }
  }

  function Last(records: map<string, Record>, key: string): Option<Record> {
    if key in records then Some(records[key]) else None
  }

  // ---------- Sequences of calls ----------

  /** One call of the filter: the templates found for the device, the report, and the clock as read for each property. */
  datatype Call = Call(templates: Option<seq<Mapping>>, report: map<string, Reading>, clock: map<string, Times>)

  /** The offer that a call makes for a property: none without templates, without a mapping, or when it is not reported. */
  function OfferOf(call: Call, key: string): Option<Offer> {
    if call.templates == None || key !in call.report || key !in call.clock then None
    else match MappingOf(call.templates.value, key)
      case None => None
      case Some(m) => Some(Offer(m, call.report[key], call.clock[key]))
  }

  /** What a call does: each property that it offers is filtered against its own record, all other records stay. */
  ghost predicate Filters(before: map<string, Record>, call: Call, after: map<string, Record>, passed: map<string, Reading>) {
    forall key :: FiltersAt(before, call, after, passed, key)
  }

  ghost predicate FiltersAt(before: map<string, Record>, call: Call, after: map<string, Record>, passed: map<string, Reading>, key: string) {
    match OfferOf(call, key)
    case None => key !in passed && Last(after, key) == Last(before, key)
    case Some(o) =>
      && (key in passed <==> Passes(Last(before, key), o.mapping, o.value, o.times))
      && (key in passed ==> passed[key] == o.value)
      && Last(after, key) == Some(NewRecord(Last(before, key), o.mapping, o.value, o.times))
  }

  function OffersOf(calls: seq<Call>, key: string): seq<Offer> {
    if calls == [] then []
    else (match OfferOf(calls[0], key) case Some(o) => [o] case None => []) + OffersOf(calls[1..], key)
  }

  function PassedOf(reports: seq<map<string, Reading>>, key: string): seq<Reading> {
    if reports == [] then [] else (if key in reports[0] then [reports[0][key]] else []) + PassedOf(reports[1..], key)
  }

  function ValuesOf(records: seq<Record>): seq<Reading> {
    if records == [] then [] else [records[0].value] + ValuesOf(records[1..])
  }

  /** A sequence of calls is, for each property by itself, a run over the offers that the calls make for it. */
  lemma {:induction false} CallsAreRuns(states: seq<map<string, Record>>, calls: seq<Call>, reports: seq<map<string, Reading>>, key: string)
    requires |states| == |calls| + 1 && |reports| == |calls|
    requires forall i | 0 <= i < |calls| :: Filters(states[i], calls[i], states[i + 1], reports[i])
    ensures var (end, passed) := Run(Last(states[0], key), OffersOf(calls, key));
            Last(states[|calls|], key) == end && PassedOf(reports, key) == ValuesOf(passed)
    decreases |calls|
  {
    if calls != [] {
      assert Filters(states[0], calls[0], states[1], reports[0]);
      assert FiltersAt(states[0], calls[0], states[1], reports[0], key);
      forall i | 0 <= i < |calls| - 1
        ensures Filters(states[1..][i], calls[1..][i], states[1..][i + 1], reports[1..][i])
      {
        assert Filters(states[i + 1], calls[i + 1], states[i + 2], reports[i + 1]);
      }
      CallsAreRuns(states[1..], calls[1..], reports[1..], key);
      FirstOffer(Last(states[0], key), calls, key);
    }
  }

  lemma FirstOffer(last: Option<Record>, calls: seq<Call>, key: string)
    requires calls != []
    ensures var rest := OffersOf(calls[1..], key);
            match OfferOf(calls[0], key)
            case None => Run(last, OffersOf(calls, key)) == Run(last, rest)
            case Some(o) =>
              var r := NewRecord(last, o.mapping, o.value, o.times);
              var (end, passed) := Run(Some(r), rest);
              Run(last, OffersOf(calls, key)) == (end, (if Passes(last, o.mapping, o.value, o.times) then [r] else []) + passed) &&
              ValuesOf(Run(last, OffersOf(calls, key)).1) ==
                (if Passes(last, o.mapping, o.value, o.times) then [o.value] else []) + ValuesOf(passed)
  {
    var rest := OffersOf(calls[1..], key);
    hide Run, NewRecord, Passes, MappingOf;
    if OfferOf(calls[0], key) == None {
      assert OffersOf(calls, key) == rest;
    } else {
      assert OffersOf(calls, key) == [OfferOf(calls[0], key).value] + rest;
      FirstPassed(last, OfferOf(calls[0], key).value, rest);
    }
  }

  lemma FirstPassed(last: Option<Record>, o: Offer, rest: seq<Offer>)
    ensures var r := NewRecord(last, o.mapping, o.value, o.times);
            var (end, passed) := Run(Some(r), rest);
            var first := Passes(last, o.mapping, o.value, o.times);
            Run(last, [o] + rest) == (end, (if first then [r] else []) + passed) &&
            ValuesOf(Run(last, [o] + rest).1) == (if first then [o.value] else []) + ValuesOf(passed)
  {
    hide NewRecord, Passes;
    assert ([o] + rest)[1..] == rest;
    KeptRecord(last, o.mapping, o.value, o.times);
    var r := NewRecord(last, o.mapping, o.value, o.times);
    assert ([r] + Run(Some(r), rest).1)[1..] == Run(Some(r), rest).1;
    assert [] + Run(Some(r), rest).1 == Run(Some(r), rest).1;
  }

  class DmCtx {
    var lastReportProperties: map<string, Record>

    constructor ()
      ensures lastReportProperties == map[]
    {
      lastReportProperties := map[];
    }

    /**
     Filters a report. Properties without a mapping are dropped; the others are passed on or not, each against its own record.
     The records are updated before the report is published, so they stand even when publishing fails.
     */
    method ReportDevicePropertiesWithFilter(templates: Option<seq<Mapping>>, report: map<string, Reading>, clock: map<string, Times>)
      returns (filterReport: Option<map<string, Reading>>)
      requires report.Keys <= clock.Keys
      modifies this
      ensures filterReport == None <==> templates == None
      ensures Filters(old(lastReportProperties), Call(templates, report, clock), lastReportProperties,
                      if filterReport == None then map[] else filterReport.value)
    {
      hide NewRecord, Passes;
      if templates == None {
        return None;
      }
      var mappings := templates.value;
      var propMapping: map<string, Mapping> := map[];
      for i := 0 to |mappings|
        invariant forall k :: (if k in propMapping then Some(propMapping[k]) else None) == MappingOf(mappings[..i], k)
      {
        propMapping := propMapping[mappings[i].attribute := mappings[i]];
        assert mappings[..i + 1][..i] == mappings[..i];
      }
      assert mappings[..|mappings|] == mappings;
      var filtered: map<string, Reading> := map[];
      var todo := report.Keys;
      ghost var before := lastReportProperties;
      while todo != {}
        invariant todo <= report.Keys
        invariant forall k :: k in filtered <==>
                    k in report && k !in todo && k in propMapping && Passes(Last(before, k), propMapping[k], report[k], clock[k])
        invariant forall k :: k in filtered ==> filtered[k] == report[k]
        invariant forall k :: Last(lastReportProperties, k) ==
                    if k in report && k !in todo && k in propMapping then Some(NewRecord(Last(before, k), propMapping[k], report[k], clock[k]))
                    else Last(before, k)
      {
        var key :| key in todo;
        todo := todo - {key};
        if key in propMapping {
          var passes := FilterProperty(key, report[key], propMapping[key], clock[key]);
          if passes {
            filtered := filtered[key := report[key]];
          }
        }
      }
      forall key
        ensures FiltersAt(before, Call(templates, report, clock), lastReportProperties, filtered, key)
      {
        assert (if key in propMapping then Some(propMapping[key]) else None) == MappingOf(mappings, key);
      }
      return Some(filtered);
    }

    /** The loop body: first the silent window, then the deviation against the record as it then stands. */
    method FilterProperty(key: string, value: Reading, mapping: Mapping, t: Times) returns (passes: bool)
      modifies this
      ensures passes == Passes(Last(old(lastReportProperties), key), mapping, value, t)
      ensures lastReportProperties == old(lastReportProperties)[key := NewRecord(Last(old(lastReportProperties), key), mapping, value, t)]
    {
      passes := false;
      if key !in lastReportProperties || t.compared - lastReportProperties[key].time > mapping.silentWin * SECOND {
        passes := true;
        lastReportProperties := lastReportProperties[key := Record(t.recorded, value)];
      }
      if value.Numeric? {
        var lastVal := lastReportProperties[key].value;
        if lastVal.Numeric? && value.x - lastVal.x >= lastVal.x * mapping.deviation / 100.0 {
          passes := true;
          lastReportProperties := lastReportProperties[key := Record(t.recordedAgain, value)];
        }
      }
      assert !passes ==> lastReportProperties[key := lastReportProperties[key]] == lastReportProperties;
    }
  }
}
