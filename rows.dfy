/** Construction mode: `construct_arr`, `construct_obj` and `construct_row`
    walk one record against the frozen column list and fill a buffer of
    `cols.len()` cells in place.

    What one walk does is described as a sequence of writes, each a column
    name to look up and the text to store in the slot found; `Apply` is the
    specification of performing them one after the other on the buffer. The
    methods are proved to have exactly the effect of `Apply` on the writes of
    the value they walk. `escape` (from the escape_string crate) and `dump`
    (`JsonValue::to_string`) are external and stay uninterpreted. */
module Rows {
  import opened Basics
  import opened Json
  import Csv

  /** Where the text stored in a slot comes from. */
  datatype Cell =
    | Dumped(v: Value)              // a top-level scalar: `val.to_string()`, stored as it is
    | EscapedDump(v: Value)         // an array element: `escape(&v.to_string())`
    | EscapedAtSlot(parent: Value)  // a nested scalar: `escape(&obj[i].to_string())`,
                                    // where `obj` is the enclosing object and `i` the slot found

  /** One step of the walk: find `name` among the columns, store `cell`. */
  datatype Write = Write(name: string, cell: Cell)

  /** Why construction stops: a nested or array leaf whose column is missing
      ends the process with "Column not found: <name>"; a missing top-level
      scalar column makes `unwrap` panic. */
  datatype Failure = ColumnNotFound(column: string) | UnwrapOnNone

  datatype Outcome = Pass | Fail(failure: Failure)

  /** The text a write stores when its column is found at `slot`. */
  function CellText(c: Cell, slot: nat, escape: string -> string, dump: Value -> string): string
  {
    match c
    case Dumped(v) => dump(v)
    case EscapedDump(v) => escape(dump(v))
    case EscapedAtSlot(parent) => escape(dump(IndexAt(parent, slot)))
  }

  /** The failure a write reports when its column is missing. */
  function MissingFailure(w: Write): Failure
  {
    if w.cell.Dumped? then UnwrapOnNone else ColumnNotFound(w.name)
  }

  /** The column names a sequence of writes looks up, in order. */
  function Lookups(ws: seq<Write>): seq<string>
  {
    seq(|ws|, k requires 0 <= k < |ws| => ws[k].name)
  }

  /** The writes of `construct_arr`: element x goes to column `key_x`. */
  function ArrWrites(key: string, items: seq<Value>): seq<Write>
  {
    seq(|items|, x requires 0 <= x < |items| => Write(key + "_" + NatToString(x), EscapedDump(items[x])))
  }

  /** The writes of `construct_obj` on object `obj` reached under `key`. */
  function ObjWrites(key: string, obj: Value): seq<Write>
    requires obj.Object?
    decreases obj, 2, 0
  {
    EntriesWrites(key, obj, |obj.entries|)
  }

  /** The writes of the first `n` entries of `obj`, in order. */
  function EntriesWrites(key: string, obj: Value, n: nat): seq<Write>
    requires obj.Object? && n <= |obj.entries|
    decreases obj, 1, n
  {
    if n == 0 then [] else EntriesWrites(key, obj, n - 1) + FieldWrites(key, obj, n - 1)
  }

  /** The writes of entry `i` of `obj`: arrays and objects one level down are
      reached under `key.k`, and a scalar at `k` looks up `key.k` and stores
      the enclosing object indexed by the slot found. */
  function FieldWrites(key: string, obj: Value, i: nat): seq<Write>
    requires obj.Object? && i < |obj.entries|
    decreases obj, 0, i
  {
    var (k, v) := obj.entries[i];
    if v.Array? then ArrWrites(key + "." + k, v.items)
    else if v.Object? then ObjWrites(key + "." + k, v)
    else [Write(key + "." + k, EscapedAtSlot(obj))]
  }

  /** The writes of the first `n` entries of a record, in order. */
  function TopWrites(rec: Value, n: nat): seq<Write>
    requires rec.Object? && n <= |rec.entries|
  {
    if n == 0 then [] else TopWrites(rec, n - 1) + EntryWrites(rec, n - 1)
  }

  /** The writes of entry `i` of a record, as `construct_row` visits it:
      arrays and objects at `key` are handed on with `key` itself, a scalar
      stores its own text unescaped. */
  function EntryWrites(rec: Value, i: nat): seq<Write>
    requires rec.Object? && i < |rec.entries|
  {
    var (k, v) := rec.entries[i];
    if v.Array? then ArrWrites(k, v.items)
    else if v.Object? then ObjWrites(k, v)
    else [Write(k, Dumped(v))]
  }

  /** All writes for one record; a record that is not an object has no
      entries and so no writes. */
  function RowWrites(rec: Value): seq<Write>
  {
    if rec.Object? then TopWrites(rec, |rec.entries|) else []
  }

  /** Performs the writes in order on a buffer of one cell per column: each
      name is looked up by linear search (first match) and the slot found is
      overwritten; the first name that is missing stops everything. */
  function Apply(cols: seq<string>, ws: seq<Write>, vals: seq<string>,
                 escape: string -> string, dump: Value -> string): (r: Result<seq<string>, Failure>)
    requires |vals| == |cols|
    ensures r.Ok? ==> |r.value| == |cols|
    decreases |ws|
  {
    if ws == [] then Ok(vals)
    else
      match Position(cols, ws[0].name)
      case None => Err(MissingFailure(ws[0]))
      case Some(i) => Apply(cols, ws[1..], vals[i := CellText(ws[0].cell, i, escape, dump)], escape, dump)
  }

  /** Performing two sequences of writes is performing the first and then,
      unless it failed, the second. */
  lemma {:induction false} ApplyAppend(cols: seq<string>, ws1: seq<Write>, ws2: seq<Write>, vals: seq<string>,
                                       escape: string -> string, dump: Value -> string)
    requires |vals| == |cols|
    ensures Apply(cols, ws1 + ws2, vals, escape, dump)
         == match Apply(cols, ws1, vals, escape, dump)
            case Ok(s) => Apply(cols, ws2, s, escape, dump)
            case Err(f) => Err(f)
  {
    if ws1 == [] {
      assert ws1 + ws2 == ws2;
    } else {
      assert (ws1 + ws2)[0] == ws1[0];
      assert (ws1 + ws2)[1..] == ws1[1..] + ws2;
      match Position(cols, ws1[0].name)
      case None =>
      case Some(i) =>
        ApplyAppend(cols, ws1[1..], ws2, vals[i := CellText(ws1[0].cell, i, escape, dump)], escape, dump);
    }
  }

  /** One more write after a successful prefix. */
  lemma ApplySnoc(cols: seq<string>, ws: seq<Write>, w: Write, vals: seq<string>, s: seq<string>,
                  escape: string -> string, dump: Value -> string)
    requires |vals| == |cols|
    requires Apply(cols, ws, vals, escape, dump) == Ok(s)
    ensures Apply(cols, ws + [w], vals, escape, dump)
         == match Position(cols, w.name)
            case None => Err(MissingFailure(w))
            case Some(i) => Ok(s[i := CellText(w.cell, i, escape, dump)])
  {
    ApplyAppend(cols, ws, [w], vals, escape, dump);
  }

  /** Once a prefix of the writes has failed, the whole sequence fails the
      same way: nothing after the first missing column is looked at. */
  lemma ApplyStopsAtFailure(cols: seq<string>, pre: seq<Write>, ws: seq<Write>, vals: seq<string>,
                            escape: string -> string, dump: Value -> string)
    requires |vals| == |cols|
    requires pre <= ws && Apply(cols, pre, vals, escape, dump).Err?
    ensures Apply(cols, ws, vals, escape, dump) == Apply(cols, pre, vals, escape, dump)
  {
    assert ws == pre + ws[|pre|..];
    ApplyAppend(cols, pre, ws[|pre|..], vals, escape, dump);
  }

  /** The writes succeed exactly when every name they look up is a column;
      otherwise the failure is the one of the first write whose name is
      missing. */
  lemma {:induction false} ApplyFailsIff(cols: seq<string>, ws: seq<Write>, vals: seq<string>,
                                         escape: string -> string, dump: Value -> string)
    requires |vals| == |cols|
    ensures Apply(cols, ws, vals, escape, dump).Ok? <==> forall k :: 0 <= k < |ws| ==> ws[k].name in cols
    ensures Apply(cols, ws, vals, escape, dump).Err? ==>
              exists k :: 0 <= k < |ws| && ws[k].name !in cols
                && (forall m :: 0 <= m < k ==> ws[m].name in cols)
                && Apply(cols, ws, vals, escape, dump).error == MissingFailure(ws[k])
  {
    if ws != [] {
      match Position(cols, ws[0].name)
      case None =>
        assert ws[0].name !in cols;
      case Some(i) =>
        var vals' := vals[i := CellText(ws[0].cell, i, escape, dump)];
        ApplyFailsIff(cols, ws[1..], vals', escape, dump);
        if Apply(cols, ws, vals, escape, dump).Err? {
          var k :| 0 <= k < |ws[1..]| && ws[1..][k].name !in cols
                   && (forall m :: 0 <= m < k ==> ws[1..][m].name in cols)
                   && Apply(cols, ws[1..], vals', escape, dump).error == MissingFailure(ws[1..][k]);
          assert ws[k + 1].name !in cols;
          forall m | 0 <= m < k + 1 ensures ws[m].name in cols {
            if m > 0 {
              assert ws[m] == ws[1..][m - 1];
            }
          }
        } else {
          forall k | 0 <= k < |ws| ensures ws[k].name in cols {
            if k > 0 {
              assert ws[k] == ws[1..][k - 1];
            }
          }
        }
    }
  }

  /** Only matched slots change: a column that no write names keeps the
      text it had. */
  lemma {:induction false} ApplyUntouched(cols: seq<string>, ws: seq<Write>, vals: seq<string>,
                                          escape: string -> string, dump: Value -> string, j: nat)
    requires |vals| == |cols| && j < |cols|
    requires Apply(cols, ws, vals, escape, dump).Ok?
    requires forall k :: 0 <= k < |ws| ==> ws[k].name != cols[j]
    ensures Apply(cols, ws, vals, escape, dump).value[j] == vals[j]
  {
    if ws != [] {
      var i := Position(cols, ws[0].name).value;
      assert ws[0].name != cols[j];
      forall k | 0 <= k < |ws[1..]| ensures ws[1..][k].name != cols[j] {
        assert ws[1..][k] == ws[k + 1];
      }
      ApplyUntouched(cols, ws[1..], vals[i := CellText(ws[0].cell, i, escape, dump)], escape, dump, j);
    }
  }

  /** The last write naming a column decides its slot: the slot found for
      that name (its first occurrence among the columns) ends up holding that
      write's text. */
  lemma {:induction false} ApplyLastWriteWins(cols: seq<string>, ws: seq<Write>, vals: seq<string>,
                                              escape: string -> string, dump: Value -> string, k: nat, j: nat)
    requires |vals| == |cols| && k < |ws|
    requires Apply(cols, ws, vals, escape, dump).Ok?
    requires Position(cols, ws[k].name) == Some(j)
    requires forall m :: k < m < |ws| ==> ws[m].name != ws[k].name
    ensures Apply(cols, ws, vals, escape, dump).value[j] == CellText(ws[k].cell, j, escape, dump)
  {
    var i := Position(cols, ws[0].name).value;
    var vals' := vals[i := CellText(ws[0].cell, i, escape, dump)];
    if k == 0 {
      forall m | 0 <= m < |ws[1..]| ensures ws[1..][m].name != cols[j] {
        assert ws[1..][m] == ws[m + 1];
      }
      ApplyUntouched(cols, ws[1..], vals', escape, dump, j);
    } else {
      forall m | k - 1 < m < |ws[1..]| ensures ws[1..][m].name != ws[1..][k - 1].name {
        assert ws[1..][m] == ws[m + 1];
      }
      ApplyLastWriteWins(cols, ws[1..], vals', escape, dump, k - 1, j);
    }
  }

  /** The writes of fewer entries are a prefix of the writes of more. */
  lemma {:induction false} EntriesWritesPrefix(key: string, obj: Value, n: nat, m: nat)
    requires obj.Object? && n <= m <= |obj.entries|
    ensures EntriesWrites(key, obj, n) <= EntriesWrites(key, obj, m)
  {
    if n < m {
      EntriesWritesPrefix(key, obj, n, m - 1);
    }
  }

  lemma {:induction false} TopWritesPrefix(rec: Value, n: nat, m: nat)
    requires rec.Object? && n <= m <= |rec.entries|
    ensures TopWrites(rec, n) <= TopWrites(rec, m)
  {
    if n < m {
      TopWritesPrefix(rec, n, m - 1);
    }
  }

  /** Whether a method's outcome and buffer agree with a specified result:
      on success the buffer holds the specified cells; on failure the
      failure is the specified one (the buffer is then abandoned). */
  predicate Reflects(r: Outcome, spec: Result<seq<string>, Failure>, now: seq<string>)
  {
    match spec
    case Ok(s) => r == Pass && now == s
    case Err(f) => r == Fail(f)
  }

  /** One step of an entry loop that hands an entry on to a nested call:
      when the writes so far succeeded with `before` and the nested call
      reflects the entry's writes `ws`, the loop's invariant carries over on
      success, and on failure the call's outcome is that of all the writes. */
  lemma ApplyStep(cols: seq<string>, pre: seq<Write>, ws: seq<Write>, all: seq<Write>,
                  start: seq<string>, before: seq<string>, now: seq<string>, r: Outcome,
                  escape: string -> string, dump: Value -> string)
    requires |start| == |cols| && |before| == |cols|
    requires Apply(cols, pre, start, escape, dump) == Ok(before)
    requires Reflects(r, Apply(cols, ws, before, escape, dump), now)
    requires pre + ws <= all
    ensures r.Pass? ==> Apply(cols, pre + ws, start, escape, dump) == Ok(now)
    ensures r.Fail? ==> Reflects(r, Apply(cols, all, start, escape, dump), now)
  {
    ApplyAppend(cols, pre, ws, start, escape, dump);
    if r.Fail? {
      ApplyStopsAtFailure(cols, pre + ws, all, start, escape, dump);
    }
  }

  /** `construct_arr`: stores each element, escaped, into column `key_x`,
      or stops at the first missing column. */
  method ConstructArr(cols: seq<string>, key: string, obj: Value, vals: array<string>,
                      escape: string -> string, dump: Value -> string) returns (r: Outcome)
    requires obj.Array? && vals.Length == |cols|
    modifies vals
    ensures Reflects(r, Apply(cols, ArrWrites(key, obj.items), old(vals[..]), escape, dump), vals[..])
  {
    ghost var ws := ArrWrites(key, obj.items);
    for x := 0 to |obj.items|
      invariant Apply(cols, ws[..x], old(vals[..]), escape, dump) == Ok(vals[..])
    {
      assert ws[..x + 1] == ws[..x] + [ws[x]];
      ApplySnoc(cols, ws[..x], ws[x], old(vals[..]), vals[..], escape, dump);
      var colname := key + "_" + NatToString(x);
      var i := Position(cols, colname);
      if i.None? {
        ApplyStopsAtFailure(cols, ws[..x + 1], ws, old(vals[..]), escape, dump);
        return Fail(ColumnNotFound(colname));
      }
      vals[i.value] := escape(dump(obj.items[x]));
    }
    assert ws[..|obj.items|] == ws;
    return Pass;
  }

  /** `construct_obj`: walks the entries of `obj` in order, or stops at the
      first missing column. */
  method ConstructObj(cols: seq<string>, key: string, obj: Value, vals: array<string>,
                      escape: string -> string, dump: Value -> string) returns (r: Outcome)
    requires obj.Object? && vals.Length == |cols|
    modifies vals
    ensures Reflects(r, Apply(cols, ObjWrites(key, obj), old(vals[..]), escape, dump), vals[..])
    decreases obj, 1
  {
    ghost var start := vals[..];
    for n := 0 to |obj.entries|
      invariant Apply(cols, EntriesWrites(key, obj, n), start, escape, dump) == Ok(vals[..])
    {
      ghost var before := vals[..];
      EntriesWritesPrefix(key, obj, n + 1, |obj.entries|);
      r := StoreField(cols, key, obj, n, vals, escape, dump);
      ApplyStep(cols, EntriesWrites(key, obj, n), FieldWrites(key, obj, n), ObjWrites(key, obj),
                start, before, vals[..], r, escape, dump);
      if r.Fail? {
        return;
      }
    }
    return Pass;
  }

  /** The body of `construct_obj`'s loop for entry `n` (`k`, `v`): an array
      or object is handed on under `key.k`; a scalar looks up `key.k` and
      stores `escape(obj[i].to_string())` at the slot `i` found. */
  method StoreField(cols: seq<string>, key: string, obj: Value, n: nat, vals: array<string>,
                    escape: string -> string, dump: Value -> string) returns (r: Outcome)
    requires obj.Object? && n < |obj.entries| && vals.Length == |cols|
    modifies vals
    ensures Reflects(r, Apply(cols, FieldWrites(key, obj, n), old(vals[..]), escape, dump), vals[..])
    decreases obj, 0
  {
    var (k, v) := obj.entries[n];
    if v.Array? {
      r := ConstructArr(cols, key + "." + k, v, vals, escape, dump);
    } else if v.Object? {
      r := ConstructObj(cols, key + "." + k, v, vals, escape, dump);
    } else {
      var i := Position(cols, key + "." + k);
      if i.None? {
        return Fail(ColumnNotFound(key + "." + k));
      }
      vals[i.value] := escape(dump(IndexAt(obj, i.value)));
      r := Pass;
    }
  }

  /** The empty row buffer: one empty string per column. */
  function Blank(n: nat): seq<string>
  {
    seq(n, _ => "")
  }

  function EscapeAll(cells: seq<string>, escape: string -> string): seq<string>
  {
    seq(|cells|, j requires 0 <= j < |cells| => escape(cells[j]))
  }

  /** The cells of one record's row, or why construction stops. */
  function RowCells(cols: seq<string>, rec: Value, escape: string -> string, dump: Value -> string)
    : Result<seq<string>, Failure>
  {
    Apply(cols, RowWrites(rec), Blank(|cols|), escape, dump)
  }

  /** The CSV line of one record: every cell escaped (once more) and quoted,
      comma-joined. */
  function RowLine(cols: seq<string>, rec: Value, escape: string -> string, dump: Value -> string)
    : Result<string, Failure>
  {
    match RowCells(cols, rec, escape, dump)
    case Ok(cells) => Ok(Csv.Join(Csv.Quoted(EscapeAll(cells, escape))))
    case Err(f) => Err(f)
  }

  /** The closing loop of `construct_row`: pushes `"escape(cell)",` for each
      cell and pops the last comma. */
  method JoinRow(vals: array<string>, escape: string -> string) returns (row: string)
    ensures row == Csv.Join(Csv.Quoted(EscapeAll(vals[..], escape)))
  {
    row := "";
    for k := 0 to vals.Length
      invariant row == Csv.Terminated(Csv.Quoted(EscapeAll(vals[..k], escape)))
    {
      assert Csv.Quoted(EscapeAll(vals[..k + 1], escape))
          == Csv.Quoted(EscapeAll(vals[..k], escape)) + [Csv.Quote(escape(vals[k]))];
      Csv.TerminatedSnoc(Csv.Quoted(EscapeAll(vals[..k], escape)), Csv.Quote(escape(vals[k])));
      row := row + Csv.Quote(escape(vals[k])) + ",";
    }
    assert vals[..vals.Length] == vals[..];
    Csv.PopTerminatedIsJoin(Csv.Quoted(EscapeAll(vals[..], escape)));
    row := Csv.Pop(row);
  }

  /** The entry loop of `construct_row`: stores each entry of the record
      into the buffer, or stops at the first missing column. */
  method FillRow(cols: seq<string>, obj: Value, vals: array<string>,
                 escape: string -> string, dump: Value -> string) returns (r: Outcome)
    requires vals.Length == |cols|
    modifies vals
    ensures Reflects(r, Apply(cols, RowWrites(obj), old(vals[..]), escape, dump), vals[..])
  {
    ghost var start := vals[..];
    if !obj.Object? {
      return Pass;
    }
    for n := 0 to |obj.entries|
      invariant Apply(cols, TopWrites(obj, n), start, escape, dump) == Ok(vals[..])
    {
      ghost var before := vals[..];
      TopWritesPrefix(obj, n + 1, |obj.entries|);
      r := StoreEntry(cols, obj, n, vals, escape, dump);
      ApplyStep(cols, TopWrites(obj, n), EntryWrites(obj, n), RowWrites(obj),
                start, before, vals[..], r, escape, dump);
      if r.Fail? {
        return;
      }
    }
    return Pass;
  }

  /** The body of `construct_row`'s loop for entry `n` (`key`, `val`): an
      array or object is handed on under `key`; a scalar stores
      `val.to_string()` at the column named `key`, and a missing one makes
      the `unwrap` fail. */
  method StoreEntry(cols: seq<string>, obj: Value, n: nat, vals: array<string>,
                    escape: string -> string, dump: Value -> string) returns (r: Outcome)
    requires obj.Object? && n < |obj.entries| && vals.Length == |cols|
    modifies vals
    ensures Reflects(r, Apply(cols, EntryWrites(obj, n), old(vals[..]), escape, dump), vals[..])
  {
    var (key, val) := obj.entries[n];
    if val.Array? {
      r := ConstructArr(cols, key, val, vals, escape, dump);
    } else if val.Object? {
      r := ConstructObj(cols, key, val, vals, escape, dump);
    } else {
      var i := Position(cols, key);
      if i.None? {
        return Fail(UnwrapOnNone);
      }
      vals[i.value] := dump(val);
      r := Pass;
    }
  }

  /** `construct_row`: fills a fresh buffer from the record's entries, then
      joins the escaped, quoted cells with commas. */
  method ConstructRow(cols: seq<string>, obj: Value, escape: string -> string, dump: Value -> string)
    returns (r: Result<string, Failure>)
    ensures r == RowLine(cols, obj, escape, dump)
  {
    var vals := new string[|cols|](_ => "");
    assert vals[..] == Blank(|cols|);
    var filled := FillRow(cols, obj, vals, escape, dump);
    if filled.Fail? {
      return Err(filled.failure);
    }
    var row := JoinRow(vals, escape);
    return Ok(row);
  }

  // ---------------------------------------------------------------------
  // What a row holds

  /** A row has one cell per column, and a column that no leaf of the record
      names keeps the empty default. The clause about the line only recalls
      how `RowLine` lays those cells out (escaped, quoted, joined by commas)
      so that callers need not unfold it. */
  lemma RowShape(cols: seq<string>, rec: Value, escape: string -> string, dump: Value -> string)
    ensures RowLine(cols, rec, escape, dump).Ok? <==> RowCells(cols, rec, escape, dump).Ok?
    ensures RowCells(cols, rec, escape, dump).Ok? ==>
              var cells := RowCells(cols, rec, escape, dump).value;
              |cells| == |cols|
              && RowLine(cols, rec, escape, dump).value == Csv.Join(Csv.Quoted(EscapeAll(cells, escape)))
              && forall j :: 0 <= j < |cols| && cols[j] !in Lookups(RowWrites(rec)) ==> cells[j] == ""
  {
    if RowCells(cols, rec, escape, dump).Ok? {
      var ws := RowWrites(rec);
      forall j | 0 <= j < |cols| && cols[j] !in Lookups(ws)
        ensures RowCells(cols, rec, escape, dump).value[j] == ""
      {
        forall k | 0 <= k < |ws| ensures ws[k].name != cols[j] {
          assert Lookups(ws)[k] == ws[k].name;
        }
        ApplyUntouched(cols, ws, Blank(|cols|), escape, dump, j);
      }
    }
  }

  /** Every nested-scalar write reads from the object that encloses it. */
  predicate ParentsAreObjects(ws: seq<Write>)
  {
    forall k :: 0 <= k < |ws| && ws[k].cell.EscapedAtSlot? ==> ws[k].cell.parent.Object?
  }

  lemma {:induction false} ObjParents(key: string, obj: Value)
    requires obj.Object?
    ensures ParentsAreObjects(ObjWrites(key, obj))
    decreases obj, 2, 0
  {
    EntriesParents(key, obj, |obj.entries|);
  }

  lemma {:induction false} EntriesParents(key: string, obj: Value, n: nat)
    requires obj.Object? && n <= |obj.entries|
    ensures ParentsAreObjects(EntriesWrites(key, obj, n))
    decreases obj, 1, n
  {
    if n > 0 {
      var (k, v) := obj.entries[n - 1];
      EntriesParents(key, obj, n - 1);
      if v.Object? {
        ObjParents(key + "." + k, v);
      }
    }
  }

  lemma {:induction false} TopParents(rec: Value, n: nat)
    requires rec.Object? && n <= |rec.entries|
    ensures ParentsAreObjects(TopWrites(rec, n))
  {
    if n > 0 {
      var (k, v) := rec.entries[n - 1];
      TopParents(rec, n - 1);
      if v.Object? {
        ObjParents(k, v);
      }
    }
  }

  /** Since `obj[i]` on an object is `null` for every `i`, each nested scalar
      is stored as the escaped text of `null`, whatever its value and
      whichever slot it lands in. */
  lemma NestedScalarCellIsNull(rec: Value, k: nat, slot: nat, escape: string -> string, dump: Value -> string)
    requires k < |RowWrites(rec)| && RowWrites(rec)[k].cell.EscapedAtSlot?
    ensures CellText(RowWrites(rec)[k].cell, slot, escape, dump) == escape(dump(Null))
  {
    if rec.Object? {
      TopParents(rec, |rec.entries|);
    }
  }

  lemma NestedScalarWrites(a: string, b: string, v: Value)
    requires IsScalar(v)
    ensures RowWrites(Object([(a, Object([(b, v)]))])) == [Write(a + "." + b, EscapedAtSlot(Object([(b, v)])))]
  {
    var o := Object([(b, v)]);
    assert EntriesWrites(a, o, 0) == [];
    assert EntriesWrites(a, o, 1) == [Write(a + "." + b, EscapedAtSlot(o))];
    assert TopWrites(Object([(a, o)]), 0) == [];
  }

  /** Hence two records that differ only in the value of a nested scalar get
      the same line. */
  lemma NestedScalarValueIgnored(cols: seq<string>, a: string, b: string, v1: Value, v2: Value,
                                 escape: string -> string, dump: Value -> string)
    requires IsScalar(v1) && IsScalar(v2)
    ensures RowLine(cols, Object([(a, Object([(b, v1)]))]), escape, dump)
         == RowLine(cols, Object([(a, Object([(b, v2)]))]), escape, dump)
  {
    var o1, o2 := Object([(b, v1)]), Object([(b, v2)]);
    var r1, r2 := Object([(a, o1)]), Object([(a, o2)]);
    var w1, w2 := Write(a + "." + b, EscapedAtSlot(o1)), Write(a + "." + b, EscapedAtSlot(o2));
    NestedScalarWrites(a, b, v1);
    NestedScalarWrites(a, b, v2);
    forall slot: nat ensures CellText(w1.cell, slot, escape, dump) == CellText(w2.cell, slot, escape, dump) {
      NestedScalarCellIsNull(r1, 0, slot, escape, dump);
      NestedScalarCellIsNull(r2, 0, slot, escape, dump);
    }
    assert [w1][1..] == [] && [w2][1..] == [];
    assert RowCells(cols, r1, escape, dump) == RowCells(cols, r2, escape, dump);
  }

  /** Array elements are escaped when stored and once more when the row is
      joined: the cell of `key_x` in a row of `{key: [...]}` is
      `escape(escape(to_string(element x)))`. */
  lemma ArrayCellEscapedTwice(cols: seq<string>, key: string, items: seq<Value>, x: nat, j: nat,
                              escape: string -> string, dump: Value -> string)
    requires x < |items| && Position(cols, key + "_" + NatToString(x)) == Some(j)
    requires RowCells(cols, Object([(key, Array(items))]), escape, dump).Ok?
    ensures EscapeAll(RowCells(cols, Object([(key, Array(items))]), escape, dump).value, escape)[j]
         == escape(escape(dump(items[x])))
  {
    var rec := Object([(key, Array(items))]);
    assert TopWrites(rec, 0) == [];
    var ws := RowWrites(rec);
    assert ws == ArrWrites(key, items);
    forall m | x < m < |ws| ensures ws[m].name != ws[x].name {
      if ws[m].name == ws[x].name {
        assert NatToString(m) == (ws[m].name)[|key| + 1..];
        assert NatToString(x) == (ws[x].name)[|key| + 1..];
        NatToStringInjective(m, x);
      }
    }
    ApplyLastWriteWins(cols, ws, Blank(|cols|), escape, dump, x, j);
  }

  /** A top-level scalar is stored unescaped and escaped once, on joining. */
  lemma TopScalarEscapedOnce(cols: seq<string>, key: string, v: Value, j: nat,
                             escape: string -> string, dump: Value -> string)
    requires IsScalar(v) && Position(cols, key) == Some(j)
    ensures RowCells(cols, Object([(key, v)]), escape, dump).Ok?
    ensures EscapeAll(RowCells(cols, Object([(key, v)]), escape, dump).value, escape)[j] == escape(dump(v))
  {
    var rec := Object([(key, v)]);
    assert TopWrites(rec, 0) == [];
    assert RowWrites(rec) == [Write(key, Dumped(v))];
    var filled := Blank(|cols|)[j := dump(v)];
    assert [Write(key, Dumped(v))][1..] == [];
    assert Apply(cols, [], filled, escape, dump) == Ok(filled);
    assert RowCells(cols, rec, escape, dump) == Ok(filled);
  }
}
