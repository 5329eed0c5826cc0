/**
 * The per-record loop of `main`: each harvested record takes the next call
 * number, is transformed, checked against the catalogue's search, validated
 * and created, and leaves at most one line in the report. Whatever the
 * harvest, the search, the schemas and the catalogue answer for a record is
 * given as a `RecordRun`; the model decides what the loop does with it.
 */
module Pipeline {
  import opened Wrappers
  import opened Numerals
  import opened Marc
  import opened Mapper
  import opened Extract
  import opened Validation
  import opened Holdings
  import opened Report

  /** The options the loop reads: CLI arguments merged with the configuration. */
  datatype Settings = Settings(
    maxRecords: int,
    skipSruCheck: bool,
    checkXsd: bool,
    dryRun: bool,
    callNumberPrefix: string,
    locations: seq<string>)

  /** What happened when one configured location was handled. */
  datatype LocationRun =
    /** `creer_holding` or `creer_item_pour_une_holding` raised with this message. */
    | LocationRaised(message: string)
    /** Both ran to an outcome (the item outcome is only looked at when a holding is returned). */
    | LocationRan(holding: HoldingOutcome, item: ItemOutcome)

  /** What the outside world does for one harvested record. */
  datatype RecordRun = RecordRun(
    /** What `extract_marc_info` read from the final record, `None` when it or `build_final_record` raised. */
    summary: Option<MarcInfo>,
    /** The search answer, `Failed` when the search raised. */
    sruAnswer: Result<bool>,
    /** `build_bib_with_record` raised. */
    bibPrepRaised: bool,
    /**
     * `None` when `validate_bib_and_record` raised; else whether `<record>`
     * exists and what the MARC and the bib schemas say of it, each `None`
     * when that schema file was missing or failed to load.
     */
    validation: Option<(bool, Option<Verdict>, Option<Verdict>)>,
    /** The catalogue's answer to the bib creation: the MMS id, or the error text. */
    bibAnswer: CreateAnswer<string>,
    /** One run per configured location, in order. */
    locationRuns: seq<LocationRun>)

  const HoldingFailed: string := "Holding creation failed (see logs)"
  const ItemFailed: string := "Item creation failed (see logs)"
  const XsdFailed: string := "Bib/Record XSD validation failed (see logs)"
  /** Python's message for the attribute lookup on the missing holding. */
  const NoHoldingMessage: string := "'NoneType' object has no attribute 'get_holding_id'"

  /** `f"{call_number_prefix} {call_number_value}"`. */
  function CallNumberText(prefix: string, value: int): (s: string)
    ensures |s| > |prefix| + 1 && s[..|prefix|] == prefix && s[|prefix|] == ' '
  {
    prefix + " " + IntToString(value)
  }

  /** Two records never share a call number: distinct values give distinct texts. */
  lemma CallNumberTextInjective(prefix: string, a: int, b: int)
    ensures CallNumberText(prefix, a) == CallNumberText(prefix, b) <==> a == b
  {
    if CallNumberText(prefix, a) == CallNumberText(prefix, b) {
      assert CallNumberText(prefix, a)[|prefix| + 1..] == IntToString(a);
      assert CallNumberText(prefix, b)[|prefix| + 1..] == IntToString(b);
      IntToStringInjective(a, b);
    }
  }

  /**
   * The summary the loop gets for a harvested record as the code computes it:
   * `build_final_record` then `extract_marc_info`, `None` when either raises.
   */
  function SummaryAsWritten(src: Record): (info: Option<MarcInfo>)
    ensures info.Some? ==> info.value == ExtractMarcInfo(BuildFinalRecord(src))
    ensures info.None? <==> !Truthy(SourceId(src))
  {
    match BuildFinalRecordAsWritten(src)
    case Failed(_) => None
    case Ok(r) =>
      IdentifierCopied(ReadValues(src));
      FirstWithTagIsFirst(r.fields, "001");
      match ExtractMarcInfoAsWritten(r)
      case Failed(_) => None
      case Ok(info) => Some(info)
  }

  /** A harvested record without 001 gets no summary, so it leaves no report line although it used a call number. */
  lemma SourceWithoutIdentifierDropped(s: Settings, index: nat, callNumber: string, src: Record, run: RecordRun)
    requires |run.locationRuns| == |s.locations|
    requires forall i :: 0 <= i < |src.fields| ==> src.fields[i].tag != "001"
    requires run.summary == SummaryAsWritten(src)
    ensures run.summary.None?
    ensures ProcessRecord(s, index, callNumber, run).report.None?
  {
    assert BuildFinalRecordAsWritten(src).Failed?;
  }

  /** The line `add_location` receives for one location. */
  function LocationReport(location: string, run: LocationRun): (row: LocationRow)
    ensures row.location == Some(location)
    ensures row.holdingStatus == Some("CREATED") <==> run.LocationRan? && run.holding.Returned().Some?
    ensures run.LocationRan? && run.holding.HoldingCrashed? ==> row.holdingError == Some(NoHoldingMessage)
    ensures row.holdingStatus != Some("CREATED") ==>
              (row.holdingStatus == Some("ERROR") && row.itemStatus == Some("SKIPPED") && row.holdingId.None? && row.itemId.None?)
    ensures row.itemStatus == Some("CREATED") <==> run.LocationRan? && run.holding.Returned().Some? && Truthy(run.item.Returned())
    ensures row.itemStatus == Some("CREATED") ==> row.itemId == run.item.Returned() && row.itemError.None?
    ensures run.LocationRan? && run.holding.Returned().Some? ==> row.holdingId == Some(run.holding.Returned().value.id)
    ensures run.LocationRaised? ==> row.holdingError == Some(run.message)
    ensures run.LocationRan? && !run.holding.HoldingCrashed? && run.holding.Returned().None? ==>
              row.holdingError == Some(HoldingFailed)
    ensures run.LocationRan? && run.holding.Returned().Some? && !Truthy(run.item.Returned()) ==>
              row.itemStatus == Some("ERROR") && row.itemError == Some(ItemFailed)
  {
    match run
    case LocationRaised(msg) =>
      LocationRow(Some(location), None, Some("ERROR"), Some(msg), None, Some("SKIPPED"), None)
    case LocationRan(h, it) =>
      if h.HoldingCrashed? then
        LocationRow(Some(location), None, Some("ERROR"), Some(NoHoldingMessage), None, Some("SKIPPED"), None)
      else match h.Returned()
      case None =>
        LocationRow(Some(location), None, Some("ERROR"), Some(HoldingFailed), None, Some("SKIPPED"), None)
      case Some(holding) =>
        if Truthy(it.Returned()) then
          LocationRow(Some(location), Some(holding.id), Some("CREATED"), None, it.Returned(), Some("CREATED"), None)
        else
          LocationRow(Some(location), Some(holding.id), Some("CREATED"), None, None, Some("ERROR"), Some(ItemFailed))
  }

  /** The per-location loop: one `add_location` per configured location, in order. */
  function AddLocations(n: NoticeReport, locations: seq<string>, runs: seq<LocationRun>): (m: NoticeReport)
    requires |runs| == |locations|
    ensures |m.locations| == |n.locations| + |locations|
    ensures m.locations[..|n.locations|] == n.locations
    ensures forall k :: 0 <= k < |locations| ==> m.locations[|n.locations| + k] == LocationReport(locations[k], runs[k])
    ensures m.(locations := n.locations) == n
    decreases |locations|
  {
    if |locations| == 0 then n
    else
      var m := AddLocations(AddLocation(n, LocationReport(locations[0], runs[0])), locations[1..], runs[1..]);
      assert forall k :: 1 <= k < |locations| ==> locations[1..][k - 1] == locations[k] && runs[1..][k - 1] == runs[k];
      m
  }

  /**
   * Whether the bib passes validation: always without XSD checks, never when
   * validation raised, else when `<record>` exists and no loaded schema rejects.
   */
  function BibAccepted(checkXsd: bool, validation: Option<(bool, Option<Verdict>, Option<Verdict>)>): (ok: bool)
    ensures !checkXsd ==> ok
    ensures checkXsd && validation.None? ==> !ok
    ensures checkXsd && validation.Some? ==>
              (ok <==> validation.value.0
                       && (validation.value.1.None? || validation.value.1.value.Accepts?)
                       && (validation.value.2.None? || validation.value.2.value.Accepts?))
  {
    if !checkXsd then true
    else match validation
      case None => false
      case Some(v) =>
        var result := ValidateBibAndRecord(v.0, v.1, v.2);
        result.recordValid && result.bibValid
  }

  /** What the loop did with one record it took. */
  datatype RecordOutcome = RecordOutcome(report: Option<NoticeReport>, bibRequested: bool)

  /**
   * One pass of the loop body for the record numbered `index`, whose call
   * number is `callNumber`. Records the transform, the search or the bib
   * preparation fails on leave no report line.
   */
  function ProcessRecord(s: Settings, index: nat, callNumber: string, run: RecordRun): (o: RecordOutcome)
    requires |run.locationRuns| == |s.locations|
    ensures o.report.Some? ==> o.report.value.recordIndex == index && o.report.value.callNumber == Some(callNumber)
    ensures o.report.None? <==> run.summary.None? || (!s.skipSruCheck && run.sruAnswer.Failed?)
                                || (!(!s.skipSruCheck && run.sruAnswer == Ok(true)) && run.bibPrepRaised)
    ensures o.bibRequested ==> o.report.Some? && !s.dryRun && BibAccepted(s.checkXsd, run.validation)
    ensures o.bibRequested <==> o.report.Some? && o.report.value.bibStatus in {Some("CREATED"), Some("ERROR")}
  {
    if run.summary.None? then RecordOutcome(None, false)
    else
      var info := run.summary.value;
      var n := NewReport(index, info.id, info.title, info.author, Some(callNumber));
      if !s.skipSruCheck && run.sruAnswer.Failed? then RecordOutcome(None, false)
      else
        var n := if s.skipSruCheck then n else n.(sruExists := Some(run.sruAnswer.value));
        if !s.skipSruCheck && run.sruAnswer.value then RecordOutcome(Some(n.(bibStatus := Some("SKIPPED_SRU_EXISTS"))), false)
        else if run.bibPrepRaised then RecordOutcome(None, false)
        else if !BibAccepted(s.checkXsd, run.validation) then
          RecordOutcome(Some(n.(bibStatus := Some("XSD_ERROR"), bibError := Some(XsdFailed))), false)
        else if s.dryRun then RecordOutcome(Some(n.(bibStatus := Some("DRY_RUN_OK"), bibError := Some(""))), false)
        else match run.bibAnswer
          case CreateError(msg) => RecordOutcome(Some(n.(bibStatus := Some("ERROR"), bibError := Some(msg))), true)
          case Created(mmsId) =>
            var n := n.(mmsId := Some(mmsId), bibStatus := Some("CREATED"));
            RecordOutcome(Some(AddLocations(n, s.locations, run.locationRuns)), true)
  }

  /** A report line carries exactly one of the five bib statuses, with an MMS id exactly when the bib was created. */
  lemma ReportStatuses(s: Settings, index: nat, callNumber: string, run: RecordRun)
    requires |run.locationRuns| == |s.locations|
    ensures var o := ProcessRecord(s, index, callNumber, run);
            o.report.Some? ==>
              var n := o.report.value;
              n.bibStatus in {Some("SKIPPED_SRU_EXISTS"), Some("XSD_ERROR"), Some("DRY_RUN_OK"), Some("CREATED"), Some("ERROR")}
              && (n.mmsId.Some? <==> n.bibStatus == Some("CREATED"))
              && (n.bibStatus == Some("CREATED") ==> |n.locations| == |s.locations| && n.mmsId == Some(run.bibAnswer.value))
              && (n.bibStatus != Some("CREATED") ==> n.locations == [])
  {
  }

  /**
   * The search result and the bib status a report line carries. `sru_exists`
   * is `None` when the search is skipped and its answer otherwise, and only a
   * positive answer skips the record. A record that got past the search and
   * the bib preparation is reported `XSD_ERROR` exactly when validation did
   * not pass, then `DRY_RUN_OK` in a dry run, then `CREATED` with the MMS id
   * or `ERROR` with the catalogue's message, as the catalogue answered.
   */
  lemma BibStatusDecision(s: Settings, index: nat, callNumber: string, run: RecordRun)
    requires |run.locationRuns| == |s.locations|
    ensures var o := ProcessRecord(s, index, callNumber, run);
            o.report.Some? ==>
              (s.skipSruCheck ==> o.report.value.sruExists.None?)
              && (!s.skipSruCheck ==> run.sruAnswer.Ok? && o.report.value.sruExists == Some(run.sruAnswer.value))
              && (o.report.value.bibStatus == Some("SKIPPED_SRU_EXISTS") <==> !s.skipSruCheck && run.sruAnswer == Ok(true))
    ensures var o := ProcessRecord(s, index, callNumber, run);
            run.summary.Some? && (s.skipSruCheck || run.sruAnswer == Ok(false)) && !run.bibPrepRaised ==>
              o.report.Some?
              && var n := o.report.value;
                 var accepted := BibAccepted(s.checkXsd, run.validation);
                 (!accepted ==> n.bibStatus == Some("XSD_ERROR") && n.bibError == Some(XsdFailed))
                 && (accepted && s.dryRun ==> n.bibStatus == Some("DRY_RUN_OK") && n.bibError == Some(""))
                 && (accepted && !s.dryRun && run.bibAnswer.CreateError? ==>
                       n.bibStatus == Some("ERROR") && n.bibError == Some(run.bibAnswer.message) && n.mmsId.None?)
                 && (accepted && !s.dryRun && run.bibAnswer.Created? ==>
                       n.bibStatus == Some("CREATED") && n.mmsId == Some(run.bibAnswer.value) && n.bibError.None?)
  {
  }

  /** A record built from thesis values is reported under the identifier, title and author it was built from. */
  lemma ReportOfThesis(s: Settings, index: nat, callNumber: string, v: ThesisValues, run: RecordRun)
    requires |run.locationRuns| == |s.locations|
    requires run.summary == Some(ExtractMarcInfo(Assemble(v)))
    ensures var o := ProcessRecord(s, index, callNumber, run);
            o.report.Some? ==> o.report.value.infoscienceId == NonEmpty(v.id)
                               && o.report.value.title == TitleFrom(v.title, v.subtitle)
                               && o.report.value.author == NonEmpty(v.author)
  {
    ExtractOfAssemble(v);
    ReportSummary(s, index, callNumber, run);
  }

  /** A record the search already finds is reported as skipped and never sent to the catalogue. */
  lemma ExistingRecordSkipped(s: Settings, index: nat, callNumber: string, run: RecordRun)
    requires |run.locationRuns| == |s.locations|
    requires run.summary.Some? && !s.skipSruCheck && run.sruAnswer == Ok(true)
    ensures var o := ProcessRecord(s, index, callNumber, run);
            !o.bibRequested && o.report.Some? && o.report.value.bibStatus == Some("SKIPPED_SRU_EXISTS")
            && o.report.value.sruExists == Some(true)
  {
  }

  /** In a dry run nothing is sent to the catalogue, and a valid record is reported DRY_RUN_OK. */
  lemma DryRunCreatesNothing(s: Settings, index: nat, callNumber: string, run: RecordRun)
    requires |run.locationRuns| == |s.locations|
    requires s.dryRun
    ensures var o := ProcessRecord(s, index, callNumber, run);
            !o.bibRequested
            && (o.report.Some? && BibAccepted(s.checkXsd, run.validation) && (s.skipSruCheck || run.sruAnswer == Ok(false))
                ==> o.report.value.bibStatus == Some("DRY_RUN_OK"))
  {
  }

  /** The report's identifier, title and author are those of the record's summary. */
  lemma ReportSummary(s: Settings, index: nat, callNumber: string, run: RecordRun)
    requires |run.locationRuns| == |s.locations|
    ensures var o := ProcessRecord(s, index, callNumber, run);
            o.report.Some? ==> o.report.value.infoscienceId == run.summary.value.id
                               && o.report.value.title == run.summary.value.title
                               && o.report.value.author == run.summary.value.author
  {
  }

  /** The loop's state: records taken so far, the last call number used, the report lines, bib requests made. */
  datatype LoopState = LoopState(recordIndex: nat, callNumberValue: int, reports: seq<NoticeReport>, bibRequests: nat)

  /** Whether the record after `st` is past the `max_records` cap (0 or less means no cap). */
  predicate CapReached(s: Settings, st: LoopState) {
    s.maxRecords > 0 && st.recordIndex + 1 > s.maxRecords
  }

  /** One iteration for a record the cap lets through. */
  function Step(s: Settings, st: LoopState, run: RecordRun): (st': LoopState)
    requires |run.locationRuns| == |s.locations|
    ensures st'.recordIndex == st.recordIndex + 1 && st'.callNumberValue == st.callNumberValue + 1
    ensures |st.reports| <= |st'.reports| <= |st.reports| + 1 && st'.reports[..|st.reports|] == st.reports
    ensures st'.bibRequests <= st.bibRequests + 1
    ensures |st'.reports| > |st.reports| ==>
              st'.reports[|st.reports|].recordIndex == st'.recordIndex
              && st'.reports[|st.reports|].callNumber == Some(CallNumberText(s.callNumberPrefix, st'.callNumberValue))
  {
    var index := st.recordIndex + 1;
    var value := st.callNumberValue + 1;
    var o := ProcessRecord(s, index, CallNumberText(s.callNumberPrefix, value), run);
    LoopState(index, value,
              st.reports + (if o.report.Some? then [o.report.value] else []),
              st.bibRequests + (if o.bibRequested then 1 else 0))
  }

  /** Every record run gives one outcome per configured location. */
  predicate WellFormedRuns(s: Settings, runs: seq<RecordRun>) {
    forall i :: 0 <= i < |runs| ==> |runs[i].locationRuns| == |s.locations|
  }

  /** The loop over the harvested records, stopping at the cap. */
  function Loop(s: Settings, st: LoopState, runs: seq<RecordRun>): (st': LoopState)
    requires WellFormedRuns(s, runs)
    ensures |st.reports| <= |st'.reports| && st'.reports[..|st.reports|] == st.reports
    decreases |runs|
  {
    if |runs| == 0 || CapReached(s, st) then st
    else
      var next := Step(s, st, runs[0]);
      var fin := Loop(s, next, runs[1..]);
      assert fin.reports[..|st.reports|] == fin.reports[..|next.reports|][..|st.reports|];
      fin
  }

  /** How many of `n` remaining records the loop takes from record index `done`. */
  function Taken(s: Settings, done: nat, n: nat): (t: nat)
    ensures t <= n
    ensures s.maxRecords <= 0 ==> t == n
  {
    if s.maxRecords <= 0 then n
    else if done >= s.maxRecords then 0
    else if n < s.maxRecords - done then n else s.maxRecords - done
  }

  /**
   * Each record taken uses exactly one call number, whatever becomes of it;
   * records past the cap use none. The value written to `last_call_number.txt`
   * is the seed plus the number of records taken.
   */
  lemma {:induction false} CallNumbersConsumed(s: Settings, st: LoopState, runs: seq<RecordRun>)
    requires WellFormedRuns(s, runs)
    ensures var fin := Loop(s, st, runs);
            fin.recordIndex == st.recordIndex + Taken(s, st.recordIndex, |runs|)
            && fin.callNumberValue == st.callNumberValue + Taken(s, st.recordIndex, |runs|)
    decreases |runs|
  {
    if |runs| > 0 && !CapReached(s, st) {
      var next := Step(s, st, runs[0]);
      CallNumbersConsumed(s, next, runs[1..]);
    }
  }

  /** The run as `main` starts it: record index 0 and the last call number the catalogue reported. */
  function Run(s: Settings, seed: int, runs: seq<RecordRun>): (fin: LoopState)
    requires WellFormedRuns(s, runs)
    ensures |fin.reports| <= fin.recordIndex
  {
    ReportsBounded(s, LoopState(0, seed, [], 0), runs);
    Loop(s, LoopState(0, seed, [], 0), runs)
  }

  /** No more report lines than records taken since the start. */
  lemma {:induction false} ReportsBounded(s: Settings, st: LoopState, runs: seq<RecordRun>)
    requires WellFormedRuns(s, runs)
    requires |st.reports| <= st.recordIndex
    ensures |Loop(s, st, runs).reports| <= Loop(s, st, runs).recordIndex
    decreases |runs|
  {
    if |runs| > 0 && !CapReached(s, st) {
      ReportsBounded(s, Step(s, st, runs[0]), runs[1..]);
    }
  }

  /** A report line of a record taken by `upto`, carrying that record's call number. */
  predicate LineOk(s: Settings, seed: int, r: NoticeReport, upto: nat) {
    1 <= r.recordIndex <= upto
    && r.callNumber == Some(CallNumberText(s.callNumberPrefix, seed + r.recordIndex))
  }

  /** Report lines in strictly increasing record order. */
  predicate Increasing(reports: seq<NoticeReport>) {
    forall j, k :: 0 <= j < k < |reports| ==> reports[j].recordIndex < reports[k].recordIndex
  }

  /**
   * What the loop keeps true: the call number is the seed plus the records
   * taken, and every report line carries the call number of its own record,
   * lines in increasing record order.
   */
  predicate Consistent(s: Settings, seed: int, st: LoopState) {
    st.callNumberValue == seed + st.recordIndex
    && (forall k :: 0 <= k < |st.reports| ==> LineOk(s, seed, st.reports[k], st.recordIndex))
    && Increasing(st.reports)
  }

  lemma StepConsistent(s: Settings, seed: int, st: LoopState, run: RecordRun)
    requires |run.locationRuns| == |s.locations|
    requires Consistent(s, seed, st)
    ensures Consistent(s, seed, Step(s, st, run))
  {
    var st' := Step(s, st, run);
    var n := |st.reports|;
    if |st'.reports| == n {
      assert st'.reports == st'.reports[..n];
      ConsistentKeeps(s, seed, st, st'.recordIndex);
    } else {
      var r := st'.reports[n];
      assert st'.reports == st'.reports[..n] + [r];
      ConsistentSnoc(s, seed, st, r);
    }
  }

  /** Taking a record without reporting it keeps the state consistent. */
  lemma ConsistentKeeps(s: Settings, seed: int, st: LoopState, upto: nat)
    requires Consistent(s, seed, st) && upto == st.recordIndex + 1
    ensures Consistent(s, seed, LoopState(upto, st.callNumberValue + 1, st.reports, st.bibRequests))
    ensures Consistent(s, seed, LoopState(upto, st.callNumberValue + 1, st.reports, st.bibRequests + 1))
  {
    assert forall k :: 0 <= k < |st.reports| ==> LineOk(s, seed, st.reports[k], upto);
  }

  /** Taking a record and reporting it under its own index and call number keeps the state consistent. */
  lemma ConsistentSnoc(s: Settings, seed: int, st: LoopState, r: NoticeReport)
    requires Consistent(s, seed, st)
    requires r.recordIndex == st.recordIndex + 1
    requires r.callNumber == Some(CallNumberText(s.callNumberPrefix, st.callNumberValue + 1))
    ensures Consistent(s, seed, LoopState(r.recordIndex, st.callNumberValue + 1, st.reports + [r], st.bibRequests))
    ensures Consistent(s, seed, LoopState(r.recordIndex, st.callNumberValue + 1, st.reports + [r], st.bibRequests + 1))
  {
    var rs := st.reports + [r];
    forall k | 0 <= k < |rs| ensures LineOk(s, seed, rs[k], r.recordIndex) {
      if k < |st.reports| {
        assert rs[k] == st.reports[k];
      }
    }
    forall j, k | 0 <= j < k < |rs| ensures rs[j].recordIndex < rs[k].recordIndex {
      assert rs[j] == st.reports[j];
      if k < |st.reports| {
        assert rs[k] == st.reports[k];
      }
    }
  }

  /** The loop keeps `Consistent`, so the call numbers of the report lines are those of their records. */
  lemma {:induction false} LoopConsistent(s: Settings, seed: int, st: LoopState, runs: seq<RecordRun>)
    requires WellFormedRuns(s, runs)
    requires Consistent(s, seed, st)
    ensures Consistent(s, seed, Loop(s, st, runs))
    decreases |runs|
  {
    if |runs| > 0 && !CapReached(s, st) {
      StepConsistent(s, seed, st, runs[0]);
      LoopConsistent(s, seed, Step(s, st, runs[0]), runs[1..]);
    }
  }

  /** In a whole run, distinct report lines carry distinct call numbers. */
  lemma DistinctCallNumbers(s: Settings, seed: int, runs: seq<RecordRun>, j: nat, k: nat)
    requires WellFormedRuns(s, runs)
    requires j < k < |Run(s, seed, runs).reports|
    ensures Run(s, seed, runs).reports[j].callNumber != Run(s, seed, runs).reports[k].callNumber
  {
    LoopConsistent(s, seed, LoopState(0, seed, [], 0), runs);
    ConsistentDistinct(s, seed, Run(s, seed, runs), j, k);
  }

  /** In a consistent state, distinct report lines carry distinct call numbers. */
  lemma ConsistentDistinct(s: Settings, seed: int, st: LoopState, j: nat, k: nat)
    requires Consistent(s, seed, st)
    requires j < k < |st.reports|
    ensures st.reports[j].callNumber != st.reports[k].callNumber
  {
    var a, b := st.reports[j], st.reports[k];
    assert LineOk(s, seed, a, st.recordIndex) && LineOk(s, seed, b, st.recordIndex);
    assert a.recordIndex < b.recordIndex;
    CallNumberTextInjective(s.callNumberPrefix, seed + a.recordIndex, seed + b.recordIndex);
  }

  /** A dry run never sends a bib to the catalogue. */
  lemma {:induction false} DryRunLoopCreatesNothing(s: Settings, st: LoopState, runs: seq<RecordRun>)
    requires WellFormedRuns(s, runs)
    requires s.dryRun
    ensures Loop(s, st, runs).bibRequests == st.bibRequests
    decreases |runs|
  {
    if |runs| > 0 && !CapReached(s, st) {
      DryRunCreatesNothing(s, st.recordIndex + 1, CallNumberText(s.callNumberPrefix, st.callNumberValue + 1), runs[0]);
      DryRunLoopCreatesNothing(s, Step(s, st, runs[0]), runs[1..]);
    }
  }
}
