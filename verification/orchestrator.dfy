/**
 * The run: `main` and `printRepoToCsv`. Everything outside the pipeline is an
 * oracle in World: the environment, whether creating the temporary directory,
 * cloning, opening and closing the output, each page fetch, each printRecord
 * and the deletion succeed, and the history the clone holds.
 *
 * The code as written is modelled: the temporary directory is deleted only
 * after the CSV block finishes (normally or through a caught IOException);
 * a clone failure, and an unchecked exception from a page fetch, both leave
 * it in place.
 */
module Orchestrator {
  import opened Optional
  import opened Commits
  import opened Walker
  import opened Extraction
  import opened Logging
  import opened Sink
  import opened Env

  /** The outside world of one run. */
  datatype World<V> = World(
    env: map<string, string>,
    tempDirOk: bool,
    cloneOk: bool,
    history: seq<Commit>,
    extractors: seq<Extractor<V>>,
    writerOpenOk: bool,
    printerOpenOk: bool,
    fetchOk: nat -> bool,
    printOk: nat -> bool,
    printerCloseOk: bool,
    writerCloseOk: bool,
    deleteOk: bool)

  /** The unchecked exceptions that can leave `main`. */
  datatype Failure =
    | NoSuchElement           // orElseThrow on a missing REMOTE
    | TempDirCreation         // rethrown after createTempDirectory fails
    | PageFetch(skip: nat)    // rethrown after a log() call fails

  datatype Exit = Returned | Threw(failure: Failure)

  /**
   * output.csv: the header, whether the CSVPrinter got to write it, and the
   * records handed to printRecord successfully.
   */
  datatype CsvFile<V> = CsvFile(header: seq<string>, headerWritten: bool, records: seq<seq<V>>)

  /** What printRepoToCsv leaves behind. */
  datatype CsvRun<V> = CsvRun(
    output: Option<CsvFile<V>>,
    log: seq<Record<V>>,
    escaped: Option<Failure>,
    deleteAttempted: bool,
    tempRemoved: bool)

  /** What `main` leaves behind. */
  datatype Outcome<V> = Outcome(
    tempCreated: bool,
    cloned: bool,
    output: Option<CsvFile<V>>,
    deleteAttempted: bool,
    tempRemains: bool,
    log: seq<Record<V>>,
    exit: Exit)

  /** The history walk starts only once the FileWriter and the CSVPrinter are open. */
  predicate WalkStarts<V>(w: World<V>) {
    w.writerOpenOk && w.printerOpenOk
  }

  /** The walk ends with an unchecked exception. */
  predicate WalkAborts<V>(w: World<V>) {
    WalkStarts(w) && Paginate(w.history, w.fetchOk).end.FetchFailed?
  }

  /** The rows that reach the forEach: none unless the walk starts. */
  function ProducedRows<V>(w: World<V>, since: LocalDay): seq<seq<V>> {
    if WalkStarts(w) then InterestingThings(w.history, since, w.extractors, w.fetchOk) else []
  }

  /** Nothing the run depends on fails. */
  ghost predicate AllSucceed<V>(w: World<V>) {
    && "REMOTE" in w.env
    && w.tempDirOk && w.cloneOk
    && w.writerOpenOk && w.printerOpenOk && w.printerCloseOk && w.writerCloseOk
    && w.deleteOk
    && (forall s :: w.fetchOk(s))
    && (forall i :: w.printOk(i))
  }

  /**
   * The inner try-with-resources block of printRepoToCsv, entered with
   * output.csv open: open the CSVPrinter (which writes the header), print the
   * rows, close the printer. An IOException is caught and logged; a
   * page-fetch exception escapes.
   */
  method PrinterBlock<V>(w: World<V>, since: LocalDay) returns (records: seq<seq<V>>, log: seq<Record<V>>, escaped: Option<Failure>)
    requires w.writerOpenOk
    ensures escaped.Some? <==> WalkAborts(w)
    ensures WalkAborts(w) ==> escaped == Some(PageFetch(Paginate(w.history, w.fetchOk).end.skip))
    ensures var rows := ProducedRows(w, since);
      records == Kept(rows, Outcomes(w.printOk, |rows|))
    ensures !w.printerOpenOk ==> log == [Record(Severe, CsvPrinterFailed)]
    ensures WalkAborts(w) ==>
      var rows := ProducedRows(w, since);
      var skip := Paginate(w.history, w.fetchOk).end.skip;
      log == FailureLog(Dropped(rows, Outcomes(w.printOk, |rows|)))
             + (if skip == 0 then [] else [Record(Severe, PageFetchFailed)])
    ensures WalkStarts(w) && !WalkAborts(w) ==>
      var rows := ProducedRows(w, since);
      log == FailureLog(Dropped(rows, Outcomes(w.printOk, |rows|)))
             + (if w.printerCloseOk then [] else [Record(Severe, CsvPrinterFailed)])
  {
    if !w.printerOpenOk {
      return [], [Record(Severe, CsvPrinterFailed)], None;
    }
    var rows := InterestingThings(w.history, since, w.extractors, w.fetchOk);
    var failed;
    records, failed := PrintRecords(rows, w.printOk);
    log := FailureLog(failed);
    escaped := None;
    var end := Paginate(w.history, w.fetchOk).end;
    if end.FetchFailed? {
      // Only a fetch after the first logs before rethrowing.
      if end.skip != 0 {
        log := log + [Record(Severe, PageFetchFailed)];
      }
      escaped := Some(PageFetch(end.skip));
    } else if !w.printerCloseOk {
      log := log + [Record(Severe, CsvPrinterFailed)];
    }
  }

  /**
   * The outer try-with-resources block of printRepoToCsv: open output.csv,
   * run the printer block, close the file. An IOException is caught and
   * logged; a page-fetch exception escapes.
   */
  method CsvBlock<V>(w: World<V>, since: LocalDay) returns (output: Option<CsvFile<V>>, log: seq<Record<V>>, escaped: Option<Failure>)
    ensures escaped.Some? <==> WalkAborts(w)
    ensures WalkAborts(w) ==> escaped == Some(PageFetch(Paginate(w.history, w.fetchOk).end.skip))
    ensures output.Some? <==> w.writerOpenOk
    ensures output.Some? ==>
      var rows := ProducedRows(w, since);
      output.value == CsvFile(Header(w.extractors), w.printerOpenOk, Kept(rows, Outcomes(w.printOk, |rows|)))
    ensures forall k :: 0 <= k < |log| ==> log[k].level == Severe
    ensures !w.writerOpenOk ==> log == [Record(Severe, FileWriterFailed)]
    ensures w.writerOpenOk && !w.printerOpenOk ==>
      log == [Record(Severe, CsvPrinterFailed)] + (if w.writerCloseOk then [] else [Record(Severe, FileWriterFailed)])
    ensures WalkAborts(w) ==>
      var rows := ProducedRows(w, since);
      var skip := Paginate(w.history, w.fetchOk).end.skip;
      log == FailureLog(Dropped(rows, Outcomes(w.printOk, |rows|)))
             + (if skip == 0 then [] else [Record(Severe, PageFetchFailed)])
    ensures WalkStarts(w) && !WalkAborts(w) ==>
      var rows := ProducedRows(w, since);
      log == FailureLog(Dropped(rows, Outcomes(w.printOk, |rows|)))
             + (if w.printerCloseOk then [] else [Record(Severe, CsvPrinterFailed)])
             + (if w.writerCloseOk then [] else [Record(Severe, FileWriterFailed)])
  {
    if !w.writerOpenOk {
      return None, [Record(Severe, FileWriterFailed)], None;
    }
    var records;
    records, log, escaped := PrinterBlock(w, since);
    output := Some(CsvFile(Header(w.extractors), w.printerOpenOk, records));
    if escaped.None? && !w.writerCloseOk {
      log := log + [Record(Severe, FileWriterFailed)];
    }
  }

  /**
   * printRepoToCsv: the CSV block, then the deletion of the temporary
   * directory, which a page-fetch exception skips. A failed deletion is only
   * a warning.
   */
  method PrintRepoToCsv<V>(w: World<V>, since: LocalDay) returns (r: CsvRun<V>)
    ensures r.escaped.Some? <==> WalkAborts(w)
    ensures WalkAborts(w) ==> r.escaped == Some(PageFetch(Paginate(w.history, w.fetchOk).end.skip))
    ensures r.deleteAttempted <==> !WalkAborts(w)
    ensures r.tempRemoved <==> r.deleteAttempted && w.deleteOk
    ensures r.deleteAttempted && !w.deleteOk ==> |r.log| > 0 && r.log[|r.log| - 1] == Record(Warning, TempDeleteFailed)
    ensures forall k :: 0 <= k < |r.log| && r.log[k].level == Warning ==> r.log[k].event == TempDeleteFailed
    ensures r.output.Some? <==> w.writerOpenOk
    ensures r.output.Some? ==>
      var rows := ProducedRows(w, since);
      r.output.value == CsvFile(Header(w.extractors), w.printerOpenOk, Kept(rows, Outcomes(w.printOk, |rows|)))
    ensures WalkStarts(w) ==>
      var rows := ProducedRows(w, since);
      FailureLog(Dropped(rows, Outcomes(w.printOk, |rows|))) <= r.log
    ensures WalkStarts(w) && !WalkAborts(w) && w.printerCloseOk && w.writerCloseOk ==>
      var rows := ProducedRows(w, since);
      r.log == FailureLog(Dropped(rows, Outcomes(w.printOk, |rows|)))
               + (if w.deleteOk then [] else [Record(Warning, TempDeleteFailed)])
  {
    var output, log, escaped := CsvBlock(w, since);
    if escaped.Some? {
      return CsvRun(output, log, escaped, false, false);
    }
    var removed := w.deleteOk;
    if !removed {
      log := log + [Record(Warning, TempDeleteFailed)];
    }
    return CsvRun(output, log, None, true, removed);
  }

  /**
   * main: read REMOTE, create the temporary directory, clone into it, and
   * run printRepoToCsv with the cutoff LocalDate.MIN.
   */
  method Run<V>(w: World<V>) returns (o: Outcome<V>)
    ensures "REMOTE" !in w.env ==>
      o == Outcome(false, false, None, false, false, [Record(Warning, EnvUnset("REMOTE"))], Threw(NoSuchElement))
    ensures "REMOTE" in w.env && !w.tempDirOk ==>
      o == Outcome(false, false, None, false, false, [Record(Severe, TempDirFailed)], Threw(TempDirCreation))
    ensures o.tempCreated <==> "REMOTE" in w.env && w.tempDirOk
    ensures o.cloned <==> o.tempCreated && w.cloneOk
    ensures o.output.Some? ==> o.cloned
    ensures o.tempCreated && !w.cloneOk ==>
      o.exit == Returned && !o.deleteAttempted && o.tempRemains
      && o.log == [Record(Severe, OpenRepoFailed(w.env["REMOTE"]))]
    ensures o.deleteAttempted <==> o.cloned && !WalkAborts(w)
    ensures o.tempRemains <==> o.tempCreated && !(o.deleteAttempted && w.deleteOk)
    ensures o.exit.Threw? && o.tempCreated ==> o.exit.failure.PageFetch? && o.tempRemains
    ensures o.exit == Returned <==> "REMOTE" in w.env && w.tempDirOk && !(o.cloned && WalkAborts(w))
    ensures o.cloned && WalkAborts(w) ==> o.exit == Threw(PageFetch(Paginate(w.history, w.fetchOk).end.skip))
    ensures o.cloned ==> (o.output.Some? <==> w.writerOpenOk)
    ensures o.cloned && o.output.Some? ==>
      var rows := ProducedRows(w, LocalDateMin);
      o.output.value == CsvFile(Header(w.extractors), w.printerOpenOk, Kept(rows, Outcomes(w.printOk, |rows|)))
    ensures o.cloned && WalkStarts(w) ==>
      var rows := ProducedRows(w, LocalDateMin);
      FailureLog(Dropped(rows, Outcomes(w.printOk, |rows|))) <= o.log
    ensures o.deleteAttempted && !w.deleteOk ==> |o.log| > 0 && o.log[|o.log| - 1] == Record(Warning, TempDeleteFailed)
    ensures o.cloned && WalkStarts(w) && !WalkAborts(w) && w.printerCloseOk && w.writerCloseOk ==>
      var rows := ProducedRows(w, LocalDateMin);
      o.log == FailureLog(Dropped(rows, Outcomes(w.printOk, |rows|)))
               + (if w.deleteOk then [] else [Record(Warning, TempDeleteFailed)])
    ensures AllSucceed(w) ==>
      && o.output == Some(CsvFile(Header(w.extractors), true, Rows(w.extractors, w.history)))
      && o.log == []
      && !o.tempRemains
      && o.exit == Returned
  {
    var remote := GetFromEnv(w.env, "REMOTE");
    if remote.value.None? {
      return Outcome(false, false, None, false, false, [Record(Warning, EnvUnset("REMOTE"))], Threw(NoSuchElement));
    }
    var since := LocalDateMin;
    if !w.tempDirOk {
      return Outcome(false, false, None, false, false, [Record(Severe, TempDirFailed)], Threw(TempDirCreation));
    }
    if !w.cloneOk {
      return Outcome(true, false, None, false, true, [Record(Severe, OpenRepoFailed(remote.value.value))], Returned);
    }
    var run := PrintRepoToCsv(w, since);
    var exit := if run.escaped.Some? then Threw(run.escaped.value) else Returned;
    if AllSucceed(w) {
      SinceMinKeepsAll(w.history, w.fetchOk);
      AllFetchesOkExhausts(w.history, w.fetchOk);
      ghost var rows := ProducedRows(w, since);
      AllWritten(rows, Outcomes(w.printOk, |rows|));
    }
    return Outcome(true, true, run.output, run.deleteAttempted, !run.tempRemoved, run.log, exit);
  }

  /**
   * A walk that ends normally feeds the forEach one row per commit authored
   * after the cutoff, in history order.
   */
  lemma CompletedWalkRows<V>(w: World<V>, since: LocalDay)
    requires WalkStarts(w) && !WalkAborts(w)
    ensures ProducedRows(w, since) == Rows(w.extractors, After(w.history, since))
  {
    WalkCoversHistory(w.history, w.fetchOk);
  }

  /**
   * When the fetch at skip `s` throws, the rows already handed to
   * printRecord are exactly those of the qualifying commits before `s`.
   */
  lemma AbortedWalkRows<V>(w: World<V>, since: LocalDay)
    requires WalkAborts(w)
    ensures var s := Paginate(w.history, w.fetchOk).end.skip;
      && !w.fetchOk(s)
      && ProducedRows(w, since) == Rows(w.extractors, After(w.history[.. Min(s, |w.history|)], since))
  {
    AbortedWalkPrefix(w.history, w.fetchOk);
  }
}
