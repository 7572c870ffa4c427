/**
 * The record level of the CSV export and import: the fixed column labels,
 * the mapping from a diary to an export record and row, the per-row checks of
 * the importer, its line-tagged error messages, and what a whole file of rows
 * yields. Tokenising and quoting of the CSV text itself are not modelled: a
 * row is the map from column label to cell that the parser produces.
 */
module DiaryCsv {
  import opened Wrappers
  import opened Text
  import opened DiaryModel

  const IdLabel := "ID"
  const TitleLabel := "标题"
  const ContentLabel := "内容"
  const DateLabel := "日记日期"
  const MoodLabel := "心情"
  const CreatedLabel := "创建时间"
  const UpdatedLabel := "更新时间"

  /** The writer's header: record field and column label, in column order. */
  const Header: seq<(string, string)> := [
    ("id", IdLabel), ("title", TitleLabel), ("content", ContentLabel), ("journalDate", DateLabel),
    ("mood", MoodLabel), ("createdAt", CreatedLabel), ("updatedAt", UpdatedLabel)]

  /** A parsed CSV row: column label to cell text; a label the file lacks is missing. */
  type Row = map<string, string>

  /** One exported record; `mood` is already the empty string when the diary has none. */
  datatype ExportRecord = ExportRecord(
    id: nat,
    title: string,
    content: string,
    journalDate: string,
    mood: string,
    createdAt: nat,
    updatedAt: nat)

  /** `diary.mood || ''` */
  function MoodCell(mood: Option<string>): (c: string)
    ensures mood.None? ==> c == ""
    ensures mood.Some? ==> c == mood.value
  {
    if mood.Some? then mood.value else ""
  }

  function ToRecord(d: Diary): (r: ExportRecord)
    ensures r.id == d.id && r.title == d.title && r.content == d.content && r.journalDate == d.journalDate
    ensures r.mood == MoodCell(d.mood) && r.createdAt == d.createdAt && r.updatedAt == d.updatedAt
  {
    ExportRecord(d.id, d.title, d.content, d.journalDate, MoodCell(d.mood), d.createdAt, d.updatedAt)
  }

  function ToRecords(ds: seq<Diary>): (rs: seq<ExportRecord>)
    ensures |rs| == |ds|
    ensures forall k :: 0 <= k < |ds| ==> rs[k] == ToRecord(ds[k])
  {
    if ds == [] then [] else [ToRecord(ds[0])] + ToRecords(ds[1..])
  }

  /** Records of a concatenation are the concatenated records. */
  lemma ToRecordsAppend(a: seq<Diary>, b: seq<Diary>)
    ensures ToRecords(a + b) == ToRecords(a) + ToRecords(b)
  {
    assert forall k :: 0 <= k < |a + b| ==> ToRecords(a + b)[k] == (ToRecords(a) + ToRecords(b))[k];
  }

  /** A sequence is what comes before position `j`, the element at `j`, and what comes after it. */
  lemma SplitAround<T>(b: seq<T>, j: nat)
    requires j < |b|
    ensures b == b[..j] + [b[j]] + b[j + 1..]
  {
  }

  /** The records around one diary are the records of its two sides. */
  lemma ToRecordsAround(b1: seq<Diary>, x: Diary, b2: seq<Diary>)
    ensures ToRecords(b1 + [x] + b2) == ToRecords(b1) + [ToRecord(x)] + ToRecords(b2)
  {
    ToRecordsAppend(b1 + [x], b2);
    ToRecordsAppend(b1, [x]);
    assert ToRecords([x]) == [ToRecord(x)];
  }

  /** Taking one diary out of a sequence takes its record out of the records. */
  lemma ToRecordsRemove(b: seq<Diary>, j: nat)
    requires j < |b|
    ensures multiset(ToRecords(b)) == multiset(ToRecords(b[..j] + b[j + 1..])) + multiset{ToRecord(b[j])}
  {
    var b1, x, b2 := b[..j], b[j], b[j + 1..];
    SplitAround(b, j);
    ToRecordsAround(b1, x, b2);
    ToRecordsAppend(b1, b2);
    var r1, r2 := ToRecords(b1), ToRecords(b2);
    assert multiset(r1 + [ToRecord(x)] + r2) == multiset(r1 + r2) + multiset{ToRecord(x)};
  }

  /** Rearranging the diaries rearranges their records: the same diaries give the same records. */
  lemma {:induction false} ToRecordsPermutation(a: seq<Diary>, b: seq<Diary>)
    requires multiset(a) == multiset(b)
    ensures multiset(ToRecords(a)) == multiset(ToRecords(b))
    decreases |a|
  {
    if a != [] {
      var n := |a| - 1;
      var x := a[n];
      assert x in multiset(b);
      var j :| 0 <= j < |b| && b[j] == x;
      var a', b' := a[..n] + a[n + 1..], b[..j] + b[j + 1..];
      assert multiset(a') == multiset(b') by {
        assert a == a[..n] + [x] + a[n + 1..];
        assert b == b[..j] + [x] + b[j + 1..];
        assert multiset(a') == multiset(a) - multiset{x};
        assert multiset(b') == multiset(b) - multiset{x};
      }
      ToRecordsPermutation(a', b');
      ToRecordsRemove(a, n);
      ToRecordsRemove(b, j);
    }
  }

  /** Every diary has its record among the records, and every record is some diary's. */
  lemma RecordsOfDiaries(ds: seq<Diary>)
    ensures forall d :: d in ds ==> ToRecord(d) in ToRecords(ds)
    ensures forall r :: r in ToRecords(ds) ==> exists d :: d in ds && r == ToRecord(d)
  {
    var rs := ToRecords(ds);
    forall d | d in ds ensures ToRecord(d) in rs {
      var k :| 0 <= k < |ds| && ds[k] == d;
      assert rs[k] == ToRecord(d);
    }
    forall r | r in rs ensures exists d :: d in ds && r == ToRecord(d) {
      var k :| 0 <= k < |rs| && rs[k] == r;
      assert ds[k] in ds;
    }
  }

  /** The labels are pairwise distinct, so a row keyed by them keeps every column. */
  lemma HeaderLabelsDistinct()
    ensures forall i, j :: 0 <= i < j < |Header| ==> Header[i].1 != Header[j].1
  {
    assert TitleLabel[0] != ContentLabel[0] && TitleLabel[0] != MoodLabel[0] && ContentLabel[0] != MoodLabel[0];
    assert |IdLabel| == 2 && |TitleLabel| == 2 && |DateLabel| == 4 && |CreatedLabel| == 4;
    assert DateLabel[0] != CreatedLabel[0] && DateLabel[0] != UpdatedLabel[0] && CreatedLabel[0] != UpdatedLabel[0];
    assert IdLabel[0] != TitleLabel[0] && IdLabel[0] != ContentLabel[0] && IdLabel[0] != MoodLabel[0];
  }

  /**
   * The row a CSV reader gets back for an exported record. `iso` stands for
   * the timestamp rendering (`toISOString`), which is not modelled.
   */
  function ToRow(r: ExportRecord, iso: nat -> string): (row: Row)
    ensures IdLabel in row && row[IdLabel] == DecimalString(r.id)
    ensures TitleLabel in row && row[TitleLabel] == r.title
    ensures ContentLabel in row && row[ContentLabel] == r.content
    ensures DateLabel in row && row[DateLabel] == r.journalDate
    ensures MoodLabel in row && row[MoodLabel] == r.mood
    ensures CreatedLabel in row && row[CreatedLabel] == iso(r.createdAt)
    ensures UpdatedLabel in row && row[UpdatedLabel] == iso(r.updatedAt)
  {
    HeaderLabelsDistinct();
    map[IdLabel := DecimalString(r.id), TitleLabel := r.title, ContentLabel := r.content,
        DateLabel := r.journalDate, MoodLabel := r.mood,
        CreatedLabel := iso(r.createdAt), UpdatedLabel := iso(r.updatedAt)]
  }

  /** The cell under `column`, missing when the row has no such column. */
  function Cell(row: Row, column: string): Option<string> {
    if column in row then Some(row[column]) else None
  }

  /** Why a row was not imported. */
  datatype RowFailure =
    | MissingField              // a title, content or journal date cell is missing or empty
    | BadDateFormat             // the journal date is not of the shape YYYY-MM-DD
    | SaveFailed(message: string)  // the store refused the insert

  /** An error of the importer: the row's line in the file and the reason. */
  datatype RowError = RowError(line: nat, failure: RowFailure)

  /** The importer's first two checks; on success, the input it hands to `create`. */
  function Screen(row: Row): (r: Result<CreateInput, RowFailure>)
    ensures r.Failure? ==> r.error == MissingField || r.error == BadDateFormat
    ensures r.Success? <==>
      && Truthy(Cell(row, TitleLabel)) && Truthy(Cell(row, ContentLabel)) && Truthy(Cell(row, DateLabel))
      && DateShape(row[DateLabel])
    ensures r == Failure(MissingField) <==>
      !Truthy(Cell(row, TitleLabel)) || !Truthy(Cell(row, ContentLabel)) || !Truthy(Cell(row, DateLabel))
    ensures r.Success? ==> DateShape(r.value.journalDate) && r.value.title != "" && r.value.content != ""
    ensures r.Success? ==>
      r.value.title == row[TitleLabel] && r.value.content == row[ContentLabel] && r.value.journalDate == row[DateLabel]
    ensures r.Success? ==> (r.value.mood.Defined? <==> Truthy(Cell(row, MoodLabel)))
    ensures r.Success? && r.value.mood.Defined? ==> r.value.mood.value == row[MoodLabel]
  {
    if !Truthy(Cell(row, TitleLabel)) || !Truthy(Cell(row, ContentLabel)) || !Truthy(Cell(row, DateLabel)) then
      Failure(MissingField)
    else if !DateShape(row[DateLabel]) then
      Failure(BadDateFormat)
    else
      // `row['心情'] || null`
      var mood := if Truthy(Cell(row, MoodLabel)) then Defined(row[MoodLabel]) else Null;
      Success(CreateInput(row[TitleLabel], row[ContentLabel], row[DateLabel], mood))
  }

  /**
   * What becomes of one row: a screening failure, a failed save, or the input
   * that was stored. `saveError` is the store's verdict on an insert.
   */
  function Verdict(row: Row, saveError: CreateInput -> Option<string>): (r: Result<CreateInput, RowFailure>)
    ensures r.Success? <==> Screen(row).Success? && saveError(Screen(row).value).None?
    ensures r.Success? ==> r == Screen(row)
    ensures Screen(row).Failure? ==> r == Screen(row)
    ensures Screen(row).Success? && saveError(Screen(row).value).Some? ==>
      r == Failure(SaveFailed(saveError(Screen(row).value).value))
  {
    match Screen(row)
    case Failure(f) => Failure(f)
    case Success(input) =>
      match saveError(input)
      case Some(msg) => Failure(SaveFailed(msg))
      case None => Success(input)
  }

  /** The inputs stored for the rows, in file order. */
  function Accepted(rows: seq<Row>, saveError: CreateInput -> Option<string>): seq<CreateInput>
  {
    if rows == [] then []
    else
      var v := Verdict(rows[|rows| - 1], saveError);
      Accepted(rows[..|rows| - 1], saveError) + (if v.Success? then [v.value] else [])
  }

  /** The errors for the rows, in file order; data row `i` is line `i + 2` (the header is line 1). */
  function Errors(rows: seq<Row>, saveError: CreateInput -> Option<string>): seq<RowError>
  {
    if rows == [] then []
    else
      var v := Verdict(rows[|rows| - 1], saveError);
      Errors(rows[..|rows| - 1], saveError) + (if v.Failure? then [RowError(|rows| + 1, v.error)] else [])
  }

  /** Every row is accounted for exactly once: imported + errors = rows. */
  lemma {:induction false} ImportAccountsForEveryRow(rows: seq<Row>, saveError: CreateInput -> Option<string>)
    ensures |Accepted(rows, saveError)| + |Errors(rows, saveError)| == |rows|
  {
    if rows != [] {
      ImportAccountsForEveryRow(rows[..|rows| - 1], saveError);
    }
  }

  /** The result for a file whose last row is `row`: that row's outcome is added last. */
  lemma OutcomeOfLastRow(rows: seq<Row>, row: Row, saveError: CreateInput -> Option<string>)
    ensures var v := Verdict(row, saveError);
      && Accepted(rows + [row], saveError) == Accepted(rows, saveError) + (if v.Success? then [v.value] else [])
      && Errors(rows + [row], saveError) == Errors(rows, saveError) + (if v.Failure? then [RowError(|rows| + 2, v.error)] else [])
  {
    assert (rows + [row])[..|rows|] == rows;
  }

  /** Error lines are strictly increasing and each names a data line, 2..|rows|+1. */
  lemma {:induction false} ErrorLinesAscend(rows: seq<Row>, saveError: CreateInput -> Option<string>)
    ensures var es := Errors(rows, saveError);
      && (forall k :: 0 <= k < |es| ==> 2 <= es[k].line <= |rows| + 1)
      && (forall k, l :: 0 <= k < l < |es| ==> es[k].line < es[l].line)
  {
    if rows != [] {
      var init := rows[..|rows| - 1];
      ErrorLinesAscend(init, saveError);
      assert rows == init + [rows[|rows| - 1]];
      OutcomeOfLastRow(init, rows[|rows| - 1], saveError);
    }
  }

  /** Every reported error names a row that failed, with that row's own failure. */
  lemma {:induction false} ErrorsNameFailedRows(rows: seq<Row>, saveError: CreateInput -> Option<string>)
    ensures forall e :: e in Errors(rows, saveError) ==>
      2 <= e.line <= |rows| + 1 && Verdict(rows[e.line - 2], saveError) == Failure(e.failure)
  {
    if rows != [] {
      var init := rows[..|rows| - 1];
      var last := rows[|rows| - 1];
      ErrorsNameFailedRows(init, saveError);
      assert rows == init + [last];
      OutcomeOfLastRow(init, last, saveError);
      forall e | e in Errors(rows, saveError)
        ensures 2 <= e.line <= |rows| + 1 && Verdict(rows[e.line - 2], saveError) == Failure(e.failure)
      {
        if e in Errors(init, saveError) {
          assert rows[e.line - 2] == init[e.line - 2];
        }
      }
    }
  }

  /** Every failed row is reported: an error on line `i + 2` exists exactly when row `i` failed. */
  lemma {:induction false} FailedRowsAreReported(rows: seq<Row>, saveError: CreateInput -> Option<string>)
    ensures forall i :: 0 <= i < |rows| ==>
      (Verdict(rows[i], saveError).Failure? <==> exists e :: e in Errors(rows, saveError) && e.line == i + 2)
  {
    ErrorsNameFailedRows(rows, saveError);
    if rows != [] {
      var init := rows[..|rows| - 1];
      var last := rows[|rows| - 1];
      FailedRowsAreReported(init, saveError);
      ErrorLinesAscend(init, saveError);
      assert rows == init + [last];
      OutcomeOfLastRow(init, last, saveError);
      var es := Errors(rows, saveError);
      forall i | 0 <= i < |rows|
        ensures Verdict(rows[i], saveError).Failure? <==> exists e :: e in es && e.line == i + 2
      {
        if i < |init| {
          assert rows[i] == init[i];
          if Verdict(rows[i], saveError).Failure? {
            var e :| e in Errors(init, saveError) && e.line == i + 2;
            assert e in es;
          }
        } else if Verdict(last, saveError).Failure? {
          assert es[|es| - 1] in es;
        }
      }
    }
  }

  /** The failure text after the line tag, as the importer writes it. */
  function FailureText(f: RowFailure): string {
    match f
    case MissingField => "缺少必需字段（标题、内容、日记日期）"
    case BadDateFormat => "日期格式错误，应为 YYYY-MM-DD"
    case SaveFailed(message) => message
  }

  /** `行 <line>: <reason>` */
  function Message(e: RowError): (m: string)
    ensures |m| == 4 + |DecimalString(e.line)| + |FailureText(e.failure)|
    ensures m[..2] == "行 " && m[2..2 + |DecimalString(e.line)|] == DecimalString(e.line)
    ensures m[2 + |DecimalString(e.line)|..4 + |DecimalString(e.line)|] == ": "
    ensures m[4 + |DecimalString(e.line)|..] == FailureText(e.failure)
  {
    "行 " + DecimalString(e.line) + ": " + FailureText(e.failure)
  }

  function Messages(es: seq<RowError>): (ms: seq<string>)
    ensures |ms| == |es|
    ensures forall k :: 0 <= k < |es| ==> ms[k] == Message(es[k])
  {
    if es == [] then [] else [Message(es[0])] + Messages(es[1..])
  }

  lemma {:induction false} MessagesAppend(es: seq<RowError>, e: RowError)
    ensures Messages(es + [e]) == Messages(es) + [Message(e)]
  {
    if es != [] {
      assert (es + [e])[1..] == es[1..] + [e];
      MessagesAppend(es[1..], e);
    }
  }

  /** Reads the line tag back out of an error message. */
  function LineOf(m: string): nat
  {
    var prefix := "行 ";
    if |m| >= |prefix| && m[..|prefix|] == prefix then ParseDecimal(LeadingDigits(m[|prefix|..])) else 0
  }

  /** The line tag of every message can be read back: error attribution survives rendering. */
  lemma MessageNamesItsLine(e: RowError)
    ensures LineOf(Message(e)) == e.line
  {
    var m := Message(e);
    var digits := DecimalString(e.line);
    var rest := ": " + FailureText(e.failure);
    assert m == "行 " + (digits + rest);
    assert m[..|"行 "|] == "行 ";
    assert m[|"行 "|..] == digits + rest;
    LeadingDigitsOfAppend(digits, rest);
    ParseDecimalString(e.line);
  }

  /** The diaries the store appends for `inputs`: consecutive ids and clock ticks. */
  function Batch(userId: nat, inputs: seq<CreateInput>, firstId: nat, now: nat): (ds: seq<Diary>)
    ensures |ds| == |inputs|
    ensures forall k :: 0 <= k < |inputs| ==> ds[k].id == firstId + k && ds[k].owner == userId
  {
    if inputs == [] then []
    else Batch(userId, inputs[..|inputs| - 1], firstId, now) + [NewDiary(firstId + |inputs| - 1, userId, inputs[|inputs| - 1], now + |inputs| - 1)]
  }

  /** The batch holds one diary per input, in input order, with consecutive ids and clock ticks, all owned by `userId`. */
  lemma {:induction false} BatchIsConsecutive(userId: nat, inputs: seq<CreateInput>, firstId: nat, now: nat)
    ensures forall k :: 0 <= k < |inputs| ==>
      Batch(userId, inputs, firstId, now)[k] == NewDiary(firstId + k, userId, inputs[k], now + k)
  {
    if inputs != [] {
      BatchIsConsecutive(userId, inputs[..|inputs| - 1], firstId, now);
    }
  }

  lemma BatchAppend(userId: nat, inputs: seq<CreateInput>, input: CreateInput, firstId: nat, now: nat)
    ensures Batch(userId, inputs + [input], firstId, now)
         == Batch(userId, inputs, firstId, now) + [NewDiary(firstId + |inputs|, userId, input, now + |inputs|)]
  {
    assert (inputs + [input])[..|inputs|] == inputs;
  }

  /** `mood` after a trip through a file: an empty mood is read back as none. */
  function NormalMood(mood: Option<string>): Option<string> {
    if mood.Some? && mood.value != "" then mood else None
  }

  /** The rows a reader gets back for an export of `ds`. */
  function ExportRows(ds: seq<Diary>, iso: nat -> string): (rows: seq<Row>)
    ensures |rows| == |ds|
    ensures forall k :: 0 <= k < |ds| ==> rows[k] == ToRow(ToRecord(ds[k]), iso)
  {
    if ds == [] then [] else ExportRows(ds[..|ds| - 1], iso) + [ToRow(ToRecord(ds[|ds| - 1]), iso)]
  }

  /** A diary the importer accepts back: non-empty title and content, a date of the right shape. */
  predicate Reimportable(d: Diary) {
    d.title != "" && d.content != "" && DateShape(d.journalDate)
  }

  /** `input` carries `d`'s title, content, journal date and (normalised) mood. */
  predicate RestoredAs(input: CreateInput, d: Diary) {
    && input.title == d.title && input.content == d.content && input.journalDate == d.journalDate
    && Coalesce(input.mood) == NormalMood(d.mood)
  }

  /** The input the importer builds from the exported row of `d`. */
  lemma ExportedRowScreens(d: Diary, iso: nat -> string)
    requires Reimportable(d)
    ensures Screen(ToRow(ToRecord(d), iso)).Success?
    ensures RestoredAs(Screen(ToRow(ToRecord(d), iso)).value, d)
  {
    var row := ToRow(ToRecord(d), iso);
    assert Cell(row, TitleLabel) == Some(d.title);
    assert Cell(row, ContentLabel) == Some(d.content);
    assert Cell(row, DateLabel) == Some(d.journalDate);
    assert Cell(row, MoodLabel) == Some(MoodCell(d.mood));
  }

  /** The exported row of a reimportable diary is stored when the store accepts every insert. */
  lemma ExportedRowStored(d: Diary, iso: nat -> string, saveError: CreateInput -> Option<string>)
    requires Reimportable(d)
    requires forall input :: saveError(input).None?
    ensures Verdict(ToRow(ToRecord(d), iso), saveError).Success?
    ensures RestoredAs(Verdict(ToRow(ToRecord(d), iso), saveError).value, d)
  {
    ExportedRowScreens(d, iso);
  }

  /** Importing an export of reimportable diaries reports no error when the store accepts every insert. */
  lemma {:induction false} ExportImportNoErrors(ds: seq<Diary>, iso: nat -> string, saveError: CreateInput -> Option<string>)
    requires forall k :: 0 <= k < |ds| ==> Reimportable(ds[k])
    requires forall input :: saveError(input).None?
    ensures Errors(ExportRows(ds, iso), saveError) == []
  {
    if ds != [] {
      var init := ds[..|ds| - 1];
      var row := ToRow(ToRecord(ds[|ds| - 1]), iso);
      assert forall k :: 0 <= k < |init| ==> init[k] == ds[k];
      ExportImportNoErrors(init, iso, saveError);
      assert ExportRows(ds, iso) == ExportRows(init, iso) + [row];
      OutcomeOfLastRow(ExportRows(init, iso), row, saveError);
      ExportedRowStored(ds[|ds| - 1], iso, saveError);
    }
  }

  /** Each input restores the diary at the same position. */
  predicate AllRestored(inputs: seq<CreateInput>, ds: seq<Diary>) {
    |inputs| == |ds| && forall k :: 0 <= k < |ds| ==> RestoredAs(inputs[k], ds[k])
  }

  lemma AllRestoredAppend(inputs: seq<CreateInput>, ds: seq<Diary>, input: CreateInput, d: Diary)
    requires AllRestored(inputs, ds) && RestoredAs(input, d)
    ensures AllRestored(inputs + [input], ds + [d])
  {
    forall k | 0 <= k < |ds| + 1 ensures RestoredAs((inputs + [input])[k], (ds + [d])[k]) {
      if k < |ds| {
        assert (inputs + [input])[k] == inputs[k] && (ds + [d])[k] == ds[k];
      }
    }
  }

  /**
   * Export then import round trip: when the store accepts every insert, each
   * exported diary whose fields pass the importer's checks comes back, in
   * order, with the same title, content, journal date and (normalised) mood.
   */
  lemma {:induction false} ExportImportRoundTrip(ds: seq<Diary>, iso: nat -> string, saveError: CreateInput -> Option<string>)
    requires forall k :: 0 <= k < |ds| ==> Reimportable(ds[k])
    requires forall input :: saveError(input).None?
    ensures AllRestored(Accepted(ExportRows(ds, iso), saveError), ds)
  {
    if ds != [] {
      var init := ds[..|ds| - 1];
      var d := ds[|ds| - 1];
      assert forall k :: 0 <= k < |init| ==> init[k] == ds[k];
      ExportImportRoundTrip(init, iso, saveError);
      var rows0 := ExportRows(init, iso);
      var row := ToRow(ToRecord(d), iso);
      assert ExportRows(ds, iso) == rows0 + [row];
      OutcomeOfLastRow(rows0, row, saveError);
      ExportedRowStored(d, iso, saveError);
      AllRestoredAppend(Accepted(rows0, saveError), init, Verdict(row, saveError).value, d);
      SplitLast(ds);
    }
  }

  /**
   * A file in which exactly one row fails yields one error, on that row's line,
   * and every other row is imported.
   */
  lemma {:induction false} OneBadRow(rows: seq<Row>, saveError: CreateInput -> Option<string>, bad: nat)
    requires bad < |rows|
    requires Verdict(rows[bad], saveError).Failure?
    requires forall i :: 0 <= i < |rows| && i != bad ==> Verdict(rows[i], saveError).Success?
    ensures Errors(rows, saveError) == [RowError(bad + 2, Verdict(rows[bad], saveError).error)]
    ensures |Accepted(rows, saveError)| == |rows| - 1
  {
    var init := rows[..|rows| - 1];
    if bad == |rows| - 1 {
      NoBadRow(init, saveError);
    } else {
      forall i | 0 <= i < |init| && i != bad ensures Verdict(init[i], saveError).Success? {
        assert init[i] == rows[i];
      }
      assert init[bad] == rows[bad];
      OneBadRow(init, saveError, bad);
    }
  }

  lemma {:induction false} NoBadRow(rows: seq<Row>, saveError: CreateInput -> Option<string>)
    requires forall i :: 0 <= i < |rows| ==> Verdict(rows[i], saveError).Success?
    ensures Errors(rows, saveError) == [] && |Accepted(rows, saveError)| == |rows|
  {
    if rows != [] {
      var init := rows[..|rows| - 1];
      forall i | 0 <= i < |init| ensures Verdict(init[i], saveError).Success? {
        assert init[i] == rows[i];
      }
      NoBadRow(init, saveError);
    }
  }

  /** The importer checks only the shape of a date: a month 13, day 45 date passes. */
  lemma ShapeIsNotCalendar()
    ensures DateShape("2025-13-45")
  {
  }
}
