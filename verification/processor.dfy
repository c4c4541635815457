/** The application's processing state and `process_file`: validate, sort, concatenate, translate. */
module Processor {
  import opened Wrappers
  import opened Columns
  import opened Concatenation
  import opened Records
  import opened Progress
  import opened Translation

  /** The processed table handed back to the page. */
  datatype Processed = Processed(
    columns: seq<string>,
    rows: seq<Record>,
    concatenated: seq<string>,
    translated: seq<string>)

  /** `process_file`'s outcome: no upload, a table lacking required columns, or the processed table. */
  datatype Outcome = NoFile | Rejected | Done(table: Processed)

  /** The header after `df[name] = ...`: an existing column is replaced in place, a new one goes last. */
  function WithColumn(columns: seq<string>, name: string): (r: seq<string>)
    ensures name in r
    ensures forall c :: c in r <==> c in columns || c == name
    ensures |columns| <= |r| && r[..|columns|] == columns
    ensures |r| == |columns| + (if name in columns then 0 else 1)
  {
    if name in columns then columns else columns + [name]
  }

  /** The PRODUCT_DESCRIPTION column, in row order. */
  function Descriptions(rows: seq<Record>): (column: seq<Option<string>>)
    ensures |column| == |rows|
    ensures forall i :: 0 <= i < |rows| ==> column[i] == rows[i].description
  {
    seq(|rows|, i requires 0 <= i < |rows| => rows[i].description)
  }

  /** The Concatenated column: one value per row, derived from that row's brand fields. */
  function ConcatenatedColumn(rows: seq<Record>): (column: seq<string>)
    ensures |column| == |rows|
    ensures forall i :: 0 <= i < |rows| ==>
              column[i] == Concatenate(rows[i].brandOwner, rows[i].brand1, rows[i].brandExtension)
  {
    seq(|rows|, i requires 0 <= i < |rows| => Concatenate(rows[i].brandOwner, rows[i].brand1, rows[i].brandExtension))
  }

  /** The module-level state of the application: the translator and the translation cache,
      created by lines 9-10. Each execution of the page script builds them afresh, so a processed
      upload normally starts from a new object; the methods accept any valid state, which covers that
      case and also repeated calls on one object. */
  class Processor {
    const translator: Translator
    var cache: map<string, string>

    ghost predicate Valid()
      reads this, translator
    {
      translator.Valid() && Consistent(translator.answer, cache, translator.log)
    }

    constructor (answer: Backend)
      ensures Valid() && fresh(translator)
      ensures translator.answer == answer && translator.log == [] && cache == map[]
    {
      translator := new Translator(answer);
      cache := map[];
    }

    /** `translate_text`: the memoising lookup of one description. */
    method TranslateText(text: Option<string>) returns (r: string)
      requires Valid()
      modifies this, translator
      ensures Valid()
      ensures var s := Lookup(translator.answer, old(cache), old(translator.log), text);
              r == s.value && cache == s.cache && translator.log == s.log
    {
      LookupKeepsConsistent(translator.answer, cache, translator.log, text);
      match text {
        case None =>
          r := "";
        case Some(t) =>
          if t in cache {
            r := cache[t];
          } else {
            var reply := translator.Translate(t);
            match reply {
              case Some(v) =>
                cache := cache[t := v];
                r := v;
              case None =>
                r := TranslationError;
            }
          }
      }
    }

    /** The translation loop of `process_file`: one lookup per row, in row order, and a progress
        report at every row whose index is a multiple of 100. */
    method TranslateDescriptions(descs: seq<Option<string>>) returns (translated: seq<string>, events: seq<Event>)
      requires Valid()
      modifies this, translator
      ensures Valid()
      ensures var s := Scan(translator.answer, old(cache), old(translator.log), descs);
              translated == s.translated && cache == s.cache && translator.log == s.log
      ensures events == ScanEvents(|descs|, |descs|)
    {
      var total := |descs|;
      translated, events := [], [];
      for i := 0 to total
        invariant Valid()
        invariant ScanState(translated, cache, translator.log)
               == Scan(translator.answer, old(cache), old(translator.log), descs[..i])
        invariant events == ScanEvents(total, i)
      {
        assert descs[..i + 1][..i] == descs[..i];
        var value := TranslateText(descs[i]);
        translated := translated + [value];
        if i % ReportEvery == 0 {
          events := events + [Bar(Percent(i, total)), Text(RowsProcessed(i, total))];
        }
      }
      assert descs[..total] == descs;
    }

    /** `process_file`. Without an upload nothing happens. A table lacking required columns is
        rejected with the full list of missing columns, before any sorting or translation. Otherwise
        the rows are sorted by RCT, the Concatenated column is derived from the brand fields and
        every description is translated through the cache. */
    method ProcessFile(upload: Option<Table>) returns (outcome: Outcome, events: seq<Event>)
      requires Valid()
      modifies this, translator
      ensures Valid()
      ensures upload.None? ==>
        outcome == NoFile && events == [] && cache == old(cache) && translator.log == old(translator.log)
      ensures upload.Some? && MissingColumns(upload.value.columns) != [] ==>
        && outcome == Rejected
        && events == [MissingColumnsError(MissingColumns(upload.value.columns))]
        && cache == old(cache) && translator.log == old(translator.log)
      ensures upload.Some? && MissingColumns(upload.value.columns) == [] ==>
        && outcome.Done?
        && outcome.table.columns
           == WithColumn(WithColumn(upload.value.columns, "Concatenated"), "Translated_Description")
        && SortedByRct(outcome.table.rows)
        && multiset(outcome.table.rows) == multiset(upload.value.rows)
        && |outcome.table.rows| == |upload.value.rows|
        && outcome.table.concatenated == ConcatenatedColumn(outcome.table.rows)
        && events == RunEvents(|outcome.table.rows|)
      ensures upload.Some? && MissingColumns(upload.value.columns) == [] ==>
        var s := Scan(translator.answer, old(cache), old(translator.log), Descriptions(outcome.table.rows));
        outcome.table.translated == s.translated && cache == s.cache && translator.log == s.log
    {
      if upload.None? {
        return NoFile, [];
      }
      var table := upload.value;
      var missing := MissingColumns(table.columns);
      if missing != [] {
        return Rejected, [MissingColumnsError(missing)];
      }
      var rows := SortByRct(table.rows);
      SortKeepsCount(table.rows);
      var concatenated := ConcatenatedColumn(rows);
      var translated, scanEvents := TranslateDescriptions(Descriptions(rows));
      events := [Bar(10), Text(Sorted), Bar(30), Text(Concatenated), Text(TranslationStarted)]
                + scanEvents
                + [Bar(80), Text(TranslationCompleted), Bar(100), Text(ProcessingComplete)];
      var columns := WithColumn(WithColumn(table.columns, "Concatenated"), "Translated_Description");
      outcome := Done(Processed(columns, rows, concatenated, translated));
    }
  }
}
