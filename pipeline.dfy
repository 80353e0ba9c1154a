/** The two passes over a corpus of records: SCAN merges the names of every
    record into one column list; the header is written from it; EMIT builds
    one row per record against that frozen list. Reading, parsing and
    printing are left out: the corpus is given as parsed values. */
module Pipeline {
  import opened Basics
  import opened Json
  import opened Schema
  import opened Rows
  import Csv

  /** The SCAN pass: `cols = merge_vecs(cols, get_names("", &json))` for
      each record in turn, starting from no columns. */
  function ScanColumns(records: seq<Value>): seq<string>
  {
    if records == [] then []
    else Merge(ScanColumns(records[..|records| - 1]), Names("", records[|records| - 1]))
  }

  /** The column set never lists a name twice. */
  lemma {:induction false} ScanNoDup(records: seq<Value>)
    ensures NoDup(ScanColumns(records))
  {
    if records != [] {
      ScanNoDup(records[..|records| - 1]);
      MergeNoDup(ScanColumns(records[..|records| - 1]), Names("", records[|records| - 1]));
    }
  }

  /** The column set holds exactly the names of the records. */
  lemma {:induction false} ScanMembers(records: seq<Value>, c: string)
    ensures c in ScanColumns(records) <==> exists r :: r in records && c in Names("", r)
  {
    if records != [] {
      var init := records[..|records| - 1];
      var last := records[|records| - 1];
      ScanMembers(init, c);
      MergeMembers(ScanColumns(init), Names("", last), c);
      assert records == init + [last];
      if c in ScanColumns(records) && c !in Names("", last) {
        var r :| r in init && c in Names("", r);
        assert r in records;
      }
      if exists r :: r in records && c in Names("", r) {
        var r :| r in records && c in Names("", r);
        if r != last {
          assert r in init;
        }
      }
    }
  }

  /** The columns found by an earlier part of the scan keep their positions
      when more records are scanned. */
  lemma {:induction false} ScanExtends(records: seq<Value>, n: nat)
    requires n <= |records|
    ensures ScanColumns(records[..n]) <= ScanColumns(records)
  {
    if n < |records| {
      var init := records[..|records| - 1];
      assert init[..n] == records[..n];
      ScanExtends(init, n);
      MergeExtends(ScanColumns(init), Names("", records[|records| - 1]));
    } else {
      assert records[..n] == records;
    }
  }

  /** Every record's names, record after record, in the order SCAN meets
      them (duplicates kept). */
  function AllNames(records: seq<Value>): seq<string>
  {
    if records == [] then [] else AllNames(records[..|records| - 1]) + Names("", records[|records| - 1])
  }

  /** SCAN is one merge of all the names met, in order, into no columns. */
  lemma {:induction false} ScanIsMergeOfAllNames(records: seq<Value>)
    ensures ScanColumns(records) == Merge([], AllNames(records))
  {
    if records != [] {
      var init := records[..|records| - 1];
      ScanIsMergeOfAllNames(init);
      MergeAppend([], AllNames(init), Names("", records[|records| - 1]));
    }
  }

  /** Corpus-wide first-seen order: of two columns, the earlier one was met
      first in the corpus. */
  lemma ScanFirstSeenOrder(records: seq<Value>, i: nat, j: nat)
    requires i < j < |ScanColumns(records)|
    ensures Position(AllNames(records), ScanColumns(records)[i]).Some?
    ensures Position(AllNames(records), ScanColumns(records)[j]).Some?
    ensures Position(AllNames(records), ScanColumns(records)[i]).value
          < Position(AllNames(records), ScanColumns(records)[j]).value
  {
    ScanIsMergeOfAllNames(records);
    MergeFirstSeenOrder([], AllNames(records), i, j);
  }

  // ---------------------------------------------------------------------
  // What construction looks up

  lemma LookupsAppend(ws1: seq<Write>, ws2: seq<Write>)
    ensures Lookups(ws1 + ws2) == Lookups(ws1) + Lookups(ws2)
  {
  }

  lemma ArrLookups(key: string, items: seq<Value>)
    ensures Lookups(ArrWrites(key, items)) == ArrayNames(key, |items|)
  {
  }

  /** Under a nested object reached at `key`, construction looks up the
      intended names with prefix `key.`. */
  lemma {:induction false} ObjLookups(key: string, obj: Value)
    requires obj.Object?
    ensures Lookups(ObjWrites(key, obj)) == CorrectedNames(key + ".", obj)
    decreases obj, 1, 0
  {
    EntriesLookups(key, obj, |obj.entries|);
  }

  lemma {:induction false} EntriesLookups(key: string, obj: Value, n: nat)
    requires obj.Object? && n <= |obj.entries|
    ensures Lookups(EntriesWrites(key, obj, n)) == CorrectedNamesUpTo(key + ".", obj, n)
    decreases obj, 0, n
  {
    if n > 0 {
      var (k, v) := obj.entries[n - 1];
      EntriesLookups(key, obj, n - 1);
      LookupsAppend(EntriesWrites(key, obj, n - 1), FieldWrites(key, obj, n - 1));
      if v.Array? {
        ArrLookups(key + "." + k, v.items);
      } else if v.Object? {
        ObjLookups(key + "." + k, v);
      }
    }
  }

  lemma {:induction false} TopLookups(rec: Value, n: nat)
    requires rec.Object? && n <= |rec.entries|
    ensures Lookups(TopWrites(rec, n)) == CorrectedNamesUpTo("", rec, n)
  {
    if n > 0 {
      var (k, v) := rec.entries[n - 1];
      TopLookups(rec, n - 1);
      assert "" + k == k;
      LookupsAppend(TopWrites(rec, n - 1), EntryWrites(rec, n - 1));
      if v.Array? {
        ArrLookups(k, v.items);
      } else if v.Object? {
        ObjLookups(k, v);
      }
    }
  }

  /** The names `construct_row` looks up for a record are exactly its names
      under the intended single-dot naming, in the same order. */
  lemma RowLookupsAreCorrectedNames(rec: Value)
    ensures Lookups(RowWrites(rec)) == CorrectedNames("", rec)
  {
    if rec.Object? {
      TopLookups(rec, |rec.entries|);
    }
  }

  /** A row can be built for a record exactly when every name it looks up is
      a column; otherwise it stops on its first missing name. */
  lemma RowSucceedsIff(cols: seq<string>, rec: Value, escape: string -> string, dump: Value -> string)
    ensures RowCells(cols, rec, escape, dump).Ok? <==> forall c :: c in CorrectedNames("", rec) ==> c in cols
  {
    RowLookupsAreCorrectedNames(rec);
    var ws := RowWrites(rec);
    ApplyFailsIff(cols, ws, Blank(|cols|), escape, dump);
    if forall c :: c in CorrectedNames("", rec) ==> c in cols {
      forall k | 0 <= k < |ws| ensures ws[k].name in cols {
        assert Lookups(ws)[k] == ws[k].name;
      }
    } else {
      var c :| c in CorrectedNames("", rec) && c !in cols;
      var k :| 0 <= k < |ws| && Lookups(ws)[k] == c;
    }
  }

  /** EMIT never stops on a record of the scanned corpus that has no object
      inside a nested object: every name it looks up was scanned. */
  lemma ScanThenEmitShallow(records: seq<Value>, rec: Value, escape: string -> string, dump: Value -> string)
    requires rec in records && Shallow(rec)
    ensures RowCells(ScanColumns(records), rec, escape, dump).Ok?
  {
    ShallowNamesAgree(rec);
    forall c | c in CorrectedNames("", rec) ensures c in ScanColumns(records) {
      ScanMembers(records, c);
    }
    RowSucceedsIff(ScanColumns(records), rec, escape, dump);
  }

  /** One level deeper it breaks: for `{"a": {"b": {"c": null}}}` the scan
      yields the single column `a..b.c`, while construction looks up
      `a.b.c` and stops with "Column not found: a.b.c". */
  lemma DoubleDotRowFails(escape: string -> string, dump: Value -> string)
    ensures var rec := Object([("a", Object([("b", Object([("c", Null)]))]))]);
            ScanColumns([rec]) == ["a..b.c"]
            && RowLine(ScanColumns([rec]), rec, escape, dump) == Err(ColumnNotFound("a.b.c"))
  {
    var rec := Object([("a", Object([("b", Object([("c", Null)]))]))]);
    DoubleDotScan();
    DoubleDotWrites();
    assert "a.b.c" !in ["a..b.c"] by {
      assert "a.b.c"[2] != "a..b.c"[2];
    }
  }

  /** The scan half of the example above. */
  lemma DoubleDotScan()
    ensures ScanColumns([Object([("a", Object([("b", Object([("c", Null)]))]))])]) == ["a..b.c"]
  {
    var rec := Object([("a", Object([("b", Object([("c", Null)]))]))]);
    DoubleDotNames();
    assert [rec][..0] == [];
    assert ScanColumns([rec]) == Merge([], ["a..b.c"]);
    assert ["a..b.c"][..0] == [];
  }

  /** The names of `{"a": {"b": {"c": null}}}`. */
  lemma DoubleDotNames()
    ensures Names("", Object([("a", Object([("b", Object([("c", Null)]))]))])) == ["a..b.c"]
  {
    var inner := Object([("c", Null)]);
    assert "a..b." + "c" == "a..b.c";
    assert NamesUpTo("a..b.", inner, 0) == [];
    assert Names("a..b.", inner) == ["a..b.c"];
    assert "a" + ".." + "b" + "." == "a..b.";
    DoubleDotAtDepthTwo("a", "b", [("c", Null)]);
  }

  /** The construction half: the only write of the record goes to `a.b.c`. */
  lemma DoubleDotWrites()
    ensures RowWrites(Object([("a", Object([("b", Object([("c", Null)]))]))]))
            == [Write("a.b.c", EscapedAtSlot(Object([("c", Null)])))]
  {
    var rec := Object([("a", Object([("b", Object([("c", Null)]))]))]);
    var inner := Object([("c", Null)]);
    var mid := Object([("b", inner)]);
    assert "a.b" + "." + "c" == "a.b.c";
    assert "a" + "." + "b" == "a.b";
    assert EntriesWrites("a.b", inner, 0) == [];
    assert EntriesWrites("a.b", inner, 1) == [Write("a.b.c", EscapedAtSlot(inner))];
    assert EntriesWrites("a", mid, 0) == [];
    assert EntriesWrites("a", mid, 1) == [Write("a.b.c", EscapedAtSlot(inner))];
    assert TopWrites(rec, 0) == [];
  }

  /** The stop needs `a.b.c` to be missing from the columns. When an
      earlier record `{"a.b": {"c": null}}` supplies that column, the record
      `{"a": {"b": {"c": null}}}` builds: its leaf lands in the column
      `a.b.c`, and its own column `a..b.c` keeps the empty default. */
  lemma DoubleDotMisplaced(escape: string -> string, dump: Value -> string)
    ensures var r1 := Object([("a.b", Object([("c", Null)]))]);
            var r2 := Object([("a", Object([("b", Object([("c", Null)]))]))]);
            ScanColumns([r1, r2]) == ["a.b.c", "a..b.c"]
            && RowCells(ScanColumns([r1, r2]), r2, escape, dump) == Ok([escape(dump(Null)), ""])
  {
    var inner := Object([("c", Null)]);
    var r2 := Object([("a", Object([("b", inner)]))]);
    MisplacedScan();
    DoubleDotWrites();
    var cols := ["a.b.c", "a..b.c"];
    var w := Write("a.b.c", EscapedAtSlot(inner));
    assert Position(cols, "a.b.c") == Some(0);
    assert Blank(2) == ["", ""];
    assert Apply(cols, [], ["", ""], escape, dump) == Ok(["", ""]);
    ApplySnoc(cols, [], w, ["", ""], ["", ""], escape, dump);
    assert [] + [w] == [w];
    assert ["", ""][0 := escape(dump(Null))] == [escape(dump(Null)), ""];
  }

  /** A scan of two records merges the second's names into the first's. */
  lemma ScanPair(r1: Value, r2: Value)
    ensures ScanColumns([r1, r2]) == Merge(Merge([], Names("", r1)), Names("", r2))
  {
    assert [r1][..0] == [];
    assert ScanColumns([r1]) == Merge([], Names("", r1));
    assert [r1, r2][..1] == [r1];
    assert ScanColumns([r1, r2]) == Merge(ScanColumns([r1]), Names("", r2));
  }

  /** Merging a single name appends it when it is new. */
  lemma MergeOne(v: seq<string>, x: string)
    ensures Merge(v, [x]) == if x in v then v else v + [x]
  {
    assert [x][..0] == [];
  }

  /** The scan half of the example above. */
  lemma MisplacedScan()
    ensures ScanColumns([Object([("a.b", Object([("c", Null)]))]),
                         Object([("a", Object([("b", Object([("c", Null)]))]))])]) == ["a.b.c", "a..b.c"]
  {
    var r1 := Object([("a.b", Object([("c", Null)]))]);
    var r2 := Object([("a", Object([("b", Object([("c", Null)]))]))]);
    ScanPair(r1, r2);
    DottedKeyNames();
    DoubleDotNames();
    MergeOne([], "a.b.c");
    MergeOne(["a.b.c"], "a..b.c");
    assert "a..b.c" !in ["a.b.c"] by {
      assert "a.b.c"[2] != "a..b.c"[2];
    }
  }

  /** A top-level key that itself holds a dot names the column `a.b.c`. */
  lemma DottedKeyNames()
    ensures Names("", Object([("a.b", Object([("c", Null)]))])) == ["a.b.c"]
  {
    var inner := Object([("c", Null)]);
    assert "a.b" + "." == "a.b.";
    assert "a.b." + "c" == "a.b.c";
    assert NamesUpTo("a.b.", inner, 0) == [];
    assert Names("a.b.", inner) == ["a.b.c"];
    assert NamesUpTo("", Object([("a.b", inner)]), 0) == [];
  }

  /** The intended SCAN, with the single-dot naming. */
  function CorrectedScanColumns(records: seq<Value>): seq<string>
  {
    if records == [] then []
    else Merge(CorrectedScanColumns(records[..|records| - 1]), CorrectedNames("", records[|records| - 1]))
  }

  /** With the intended naming EMIT never stops on a scanned record, however
      deeply its objects nest. */
  lemma {:induction false} CorrectedScanThenEmit(records: seq<Value>, rec: Value,
                                                 escape: string -> string, dump: Value -> string)
    requires rec in records
    ensures RowCells(CorrectedScanColumns(records), rec, escape, dump).Ok?
  {
    forall c | c in CorrectedNames("", rec) ensures c in CorrectedScanColumns(records) {
      CorrectedScanCovers(records, rec, c);
    }
    RowSucceedsIff(CorrectedScanColumns(records), rec, escape, dump);
  }

  lemma {:induction false} CorrectedScanCovers(records: seq<Value>, rec: Value, c: string)
    requires rec in records && c in CorrectedNames("", rec)
    ensures c in CorrectedScanColumns(records)
  {
    var init := records[..|records| - 1];
    var last := records[|records| - 1];
    assert records == init + [last];
    MergeMembers(CorrectedScanColumns(init), CorrectedNames("", last), c);
    if rec != last {
      CorrectedScanCovers(init, rec, c);
    }
  }

  // ---------------------------------------------------------------------
  // The whole conversion

  /** The EMIT pass: one line per record, in order, stopping at the first
      record whose row cannot be built. */
  function EmitRows(cols: seq<string>, records: seq<Value>, escape: string -> string, dump: Value -> string)
    : Result<seq<string>, Failure>
  {
    if records == [] then Ok([])
    else
      match EmitRows(cols, records[..|records| - 1], escape, dump)
      case Err(f) => Err(f)
      case Ok(lines) =>
        match RowLine(cols, records[|records| - 1], escape, dump)
        case Err(f) => Err(f)
        case Ok(line) => Ok(lines + [line])
  }

  /** The output of a run that completes: the header, then one row per
      record; a failure stands for the whole run stopping (what it printed
      before stopping is `Run`). */
  function Convert(records: seq<Value>, escape: string -> string, dump: Value -> string)
    : Result<seq<string>, Failure>
  {
    var cols := ScanColumns(records);
    match EmitRows(cols, records, escape, dump)
    case Err(f) => Err(f)
    case Ok(lines) => Ok([Csv.Join(Csv.Quoted(cols))] + lines)
  }

  /** What EMIT prints before it stops: the lines of the records before the
      first one whose row cannot be built, and that record's failure, if
      any. Each line is printed as soon as its row is built. */
  datatype Emitted = Emitted(lines: seq<string>, failure: Option<Failure>)

  function EmitPrinted(cols: seq<string>, records: seq<Value>, escape: string -> string, dump: Value -> string)
    : Emitted
  {
    Printed(rec => RowLine(cols, rec, escape, dump), records)
  }

  /** The printing loop for any way `row` of building one record's line. */
  function Printed(row: Value -> Result<string, Failure>, records: seq<Value>): Emitted
  {
    if records == [] then Emitted([], None)
    else
      var e := Printed(row, records[..|records| - 1]);
      if e.failure.Some? then e
      else
        match row(records[|records| - 1])
        case Ok(line) => Emitted(e.lines + [line], None)
        case Err(f) => Emitted(e.lines, Some(f))
  }

  /** The printed lines are the rows of a prefix of the corpus, in order; the
      run stops exactly at the first record whose row fails, with its failure,
      and otherwise prints every row. */
  lemma EmitPrintedPrefix(cols: seq<string>, records: seq<Value>,
                          escape: string -> string, dump: Value -> string)
    ensures var e := EmitPrinted(cols, records, escape, dump);
            |e.lines| <= |records|
            && (forall j :: 0 <= j < |e.lines| ==> RowLine(cols, records[j], escape, dump) == Ok(e.lines[j]))
            && (e.failure.None? <==> |e.lines| == |records|)
            && (e.failure.Some? ==> RowLine(cols, records[|e.lines|], escape, dump) == Err(e.failure.value))
  {
    PrintedPrefix(rec => RowLine(cols, rec, escape, dump), records);
  }

  lemma {:induction false} PrintedPrefix(row: Value -> Result<string, Failure>, records: seq<Value>)
    ensures var e := Printed(row, records);
            |e.lines| <= |records|
            && (forall j :: 0 <= j < |e.lines| ==> row(records[j]) == Ok(e.lines[j]))
            && (e.failure.None? <==> |e.lines| == |records|)
            && (e.failure.Some? ==> row(records[|e.lines|]) == Err(e.failure.value))
  {
    if records != [] {
      var init := records[..|records| - 1];
      PrintedPrefix(row, init);
      var e := Printed(row, init);
      forall j | 0 <= j < |e.lines| ensures records[j] == init[j] {
      }
    }
  }

  /** EMIT as a result value agrees with what it prints: it succeeds with the
      printed lines exactly when nothing failed, and otherwise carries the
      failure the run stopped with. */
  lemma {:induction false} EmitPrintedAgrees(cols: seq<string>, records: seq<Value>,
                                             escape: string -> string, dump: Value -> string)
    ensures var e := EmitPrinted(cols, records, escape, dump);
            EmitRows(cols, records, escape, dump)
              == if e.failure.None? then Ok(e.lines) else Err(e.failure.value)
  {
    if records != [] {
      EmitPrintedAgrees(cols, records[..|records| - 1], escape, dump);
    }
  }

  /** Everything a run prints: the header, written before EMIT starts, then
      what EMIT prints before it stops. */
  function Run(records: seq<Value>, escape: string -> string, dump: Value -> string): Emitted
  {
    var cols := ScanColumns(records);
    var e := EmitPrinted(cols, records, escape, dump);
    Emitted([Csv.Join(Csv.Quoted(cols))] + e.lines, e.failure)
  }

  /** A run prints the header even when a row fails, and `Convert` is its
      output exactly when no row fails. */
  lemma RunAgreesWithConvert(records: seq<Value>, escape: string -> string, dump: Value -> string)
    ensures |Run(records, escape, dump).lines| >= 1
    ensures Run(records, escape, dump).lines[0] == Csv.Join(Csv.Quoted(ScanColumns(records)))
    ensures Convert(records, escape, dump)
              == if Run(records, escape, dump).failure.None? then Ok(Run(records, escape, dump).lines)
                 else Err(Run(records, escape, dump).failure.value)
  {
    EmitPrintedAgrees(ScanColumns(records), records, escape, dump);
  }

  lemma {:induction false} EmitRowsOk(cols: seq<string>, records: seq<Value>,
                                           escape: string -> string, dump: Value -> string)
    requires forall r :: r in records ==> RowCells(cols, r, escape, dump).Ok?
    ensures EmitRows(cols, records, escape, dump).Ok?
    ensures |EmitRows(cols, records, escape, dump).value| == |records|
    ensures forall k :: 0 <= k < |records| ==>
              Ok(EmitRows(cols, records, escape, dump).value[k]) == RowLine(cols, records[k], escape, dump)
  {
    if records != [] {
      var init := records[..|records| - 1];
      forall r | r in init ensures RowCells(cols, r, escape, dump).Ok? {
        assert r in records;
      }
      EmitRowsOk(cols, init, escape, dump);
      var last := records[|records| - 1];
      assert last in records;
      RowShape(cols, last, escape, dump);
      var lines := EmitRows(cols, init, escape, dump).value;
      var line := RowLine(cols, last, escape, dump).value;
      EmitRowsSnoc(cols, records, escape, dump);
      forall k | 0 <= k < |records|
        ensures Ok((lines + [line])[k]) == RowLine(cols, records[k], escape, dump)
      {
        if k < |init| {
          assert records[k] == init[k];
        }
      }
    }
  }

  /** One more record after a successful prefix adds its line. */
  lemma EmitRowsSnoc(cols: seq<string>, records: seq<Value>, escape: string -> string, dump: Value -> string)
    requires records != []
    requires EmitRows(cols, records[..|records| - 1], escape, dump).Ok?
    requires RowLine(cols, records[|records| - 1], escape, dump).Ok?
    ensures EmitRows(cols, records, escape, dump)
         == Ok(EmitRows(cols, records[..|records| - 1], escape, dump).value
               + [RowLine(cols, records[|records| - 1], escape, dump).value])
  {
  }

  /** For a corpus without objects inside nested objects the conversion
      succeeds: one header line listing every scanned column once, then one
      line per record, each the row built against the scanned columns. */
  lemma ConvertShallow(records: seq<Value>, escape: string -> string, dump: Value -> string)
    requires forall r :: r in records ==> Shallow(r)
    ensures Convert(records, escape, dump).Ok?
    ensures |Convert(records, escape, dump).value| == |records| + 1
    ensures Convert(records, escape, dump).value[0] == Csv.Join(Csv.Quoted(ScanColumns(records)))
    ensures forall k :: 0 <= k < |records| ==>
              Ok(Convert(records, escape, dump).value[k + 1]) == RowLine(ScanColumns(records), records[k], escape, dump)
  {
    var cols := ScanColumns(records);
    forall r | r in records ensures RowCells(cols, r, escape, dump).Ok? {
      ScanThenEmitShallow(records, r, escape, dump);
    }
    EmitRowsOk(cols, records, escape, dump);
    var lines := EmitRows(cols, records, escape, dump).value;
    assert Convert(records, escape, dump) == Ok([Csv.Join(Csv.Quoted(cols))] + lines);
  }
}
