/**
 * The diary service over its table: create, list, find, update and remove,
 * each scoped to the calling user, plus the CSV export and the row loop of
 * the CSV import. The backing store is the `rows` field; ids and timestamps
 * come from the counters `nextId` and `clock`.
 *
 * Deleting a user cascades to that user's diaries in the store; no operation
 * here deletes users, so the cascade does not appear.
 */
module DiariesService {
  import opened Wrappers
  import opened Text
  import opened DiaryModel
  import opened DiaryCsv
  import opened DiaryDto

  /**
   * Why an operation on one diary failed. The lookup error is the same for a
   * missing id and for another user's diary.
   */
  datatype ServiceError =
    | NotFound(message: string)     // the lookup found no diary of the caller with that id
    | StoreFailed(message: string)  // the store refused the write; its message is thrown

  const DiaryNotFound := NotFound("Diary not found")

  /** Ids are pairwise distinct. */
  predicate IdsDistinct(rows: seq<Diary>) {
    forall i, j :: 0 <= i < j < |rows| ==> rows[i].id != rows[j].id
  }

  /** The position of the row with id `id` owned by `userId`, if any. */
  function IndexOf(rows: seq<Diary>, userId: nat, id: nat): (r: Option<nat>)
    ensures r.Some? ==> r.value < |rows| && rows[r.value].id == id && rows[r.value].owner == userId
    ensures r.None? <==> forall i :: 0 <= i < |rows| ==> !(rows[i].id == id && rows[i].owner == userId)
  {
    if rows == [] then None
    else if rows[0].id == id && rows[0].owner == userId then Some(0)
    else
      match IndexOf(rows[1..], userId, id)
      case Some(k) => Some(k + 1)
      case None => None
  }

  /**
   * The table's invariant: ids and creation times are unique, every id was
   * issued from `nextId`, and every timestamp came from `clock`.
   */
  ghost predicate TableValid(rows: seq<Diary>, nextId: nat, clock: nat) {
    && IdsDistinct(rows)
    && CreatedDistinct(rows)
    && (forall i :: 0 <= i < |rows| ==> rows[i].id < nextId)
    && (forall i :: 0 <= i < |rows| ==> rows[i].createdAt <= rows[i].updatedAt < clock)
  }

  /** `rows` without position `i`. */
  function Without(rows: seq<Diary>, i: nat): (r: seq<Diary>)
    requires i < |rows|
    ensures |r| == |rows| - 1
    ensures forall k :: 0 <= k < |r| ==> r[k] == if k < i then rows[k] else rows[k + 1]
  {
    rows[..i] + rows[i + 1..]
  }

  /** Removing one row keeps the table valid. */
  lemma WithoutKeepsTable(rows: seq<Diary>, nextId: nat, clock: nat, i: nat)
    requires TableValid(rows, nextId, clock) && i < |rows|
    ensures TableValid(Without(rows, i), nextId, clock)
  {
    var r := Without(rows, i);
    forall j, k | 0 <= j < k < |r| ensures r[j].id != r[k].id && r[j].createdAt != r[k].createdAt {
      var j' := if j < i then j else j + 1;
      var k' := if k < i then k else k + 1;
      assert r[j] == rows[j'] && r[k] == rows[k'] && j' < k';
    }
  }

  /** Removing row `i` keeps every row with another id. */
  lemma WithoutKeepsOthers(rows: seq<Diary>, i: nat)
    requires i < |rows|
    ensures forall d :: d in rows && d.id != rows[i].id ==> d in Without(rows, i)
  {
    var r := Without(rows, i);
    forall d | d in rows && d.id != rows[i].id ensures d in r {
      var j :| 0 <= j < |rows| && rows[j] == d;
      if j < i { assert r[j] == d; } else { assert r[j - 1] == d; }
    }
  }

  /** Removing row `i` leaves no row with its id, when ids are unique. */
  lemma WithoutDropsId(rows: seq<Diary>, i: nat)
    requires IdsDistinct(rows) && i < |rows|
    ensures forall d :: d in Without(rows, i) ==> d in rows && d.id != rows[i].id
  {
    var r := Without(rows, i);
    forall d | d in r ensures d in rows && d.id != rows[i].id {
      var k :| 0 <= k < |r| && r[k] == d;
      var k' := if k < i then k else k + 1;
      assert d == rows[k'] && k' != i;
    }
  }

  class DiaryService {
    var rows: seq<Diary>
    var nextId: nat
    var clock: nat

    ghost predicate Valid()
      reads this
    {
      TableValid(rows, nextId, clock)
    }

    constructor ()
      ensures Valid() && rows == [] && nextId == 1 && clock == 0
    {
      rows, nextId, clock := [], 1, 0;
    }

    /**
     * Stores a new diary of `userId`. `fault` is the store's verdict on the
     * insert: when it holds a message the save throws it and nothing changes.
     */
    method Create(userId: nat, input: CreateInput, fault: Option<string>) returns (r: Result<nat, string>)
      requires Valid()
      modifies this
      ensures Valid()
      ensures fault.Some? ==> r == Failure(fault.value) && unchanged(this)
      ensures fault.None? ==>
        && r == Success(old(nextId))
        && rows == old(rows) + [NewDiary(old(nextId), userId, input, old(clock))]
        && nextId == old(nextId) + 1 && clock == old(clock) + 1
      ensures r.Success? ==> forall d :: d in old(rows) ==> d.id != r.value
    {
      if fault.Some? {
        return Failure(fault.value);
      }
      var d := NewDiary(nextId, userId, input, clock);
      forall i | 0 <= i < |rows| ensures rows[i].createdAt != d.createdAt { }
      rows := rows + [d];
      r := Success(nextId);
      nextId, clock := nextId + 1, clock + 1;
    }

    /** The listing: the caller's matching diaries, newest first, one page of them, and their count. */
    function FindAll(userId: nat, q: Query): (r: Page)
      reads this
      ensures r.page >= 1 && 1 <= r.limit <= MaxLimit
      ensures r.page == ClampPage(q.page) && r.limit == ClampLimit(q.limit)
      ensures r.total == |Filter(rows, userId, q)|
      ensures forall d :: d in r.items ==> d in rows && Matches(d, userId, q)
      ensures NewestFirst(r.items)
      ensures |r.items| == PageSize(r.total, r.page, r.limit)
      ensures r.items == Window(Sort(Filter(rows, userId, q)), Offset(r.page, r.limit), r.limit)
    {
      var page := ClampPage(q.page);
      var limit := ClampLimit(q.limit);
      var matches := Sort(Filter(rows, userId, q));
      var items := Window(matches, Offset(page, limit), limit);
      WindowNewestFirst(matches, Offset(page, limit), limit);
      forall d | d in items ensures d in rows && Matches(d, userId, q) {
        var k :| 0 <= k < |items| && items[k] == d;
        assert d in multiset(matches);
      }
      Page(items, |matches|, page, limit)
    }

    /** The caller's diary with id `id`, or `NotFound` when it is missing or someone else's. */
    function FindOne(userId: nat, id: nat): (r: Result<Diary, ServiceError>)
      reads this
      ensures r.Success? <==> exists d :: d in rows && d.id == id && d.owner == userId
      ensures r.Success? ==> r.value in rows && r.value.id == id && r.value.owner == userId
      ensures r.Failure? ==> r.error == DiaryNotFound
    {
      match IndexOf(rows, userId, id)
      case Some(i) => Success(rows[i])
      case None => Failure(DiaryNotFound)
    }

    /**
     * Applies the present fields of `input` to the caller's diary `id` and
     * refreshes its update time; every other diary is left as it was.
     * `fault` is the store's verdict on the save: when it holds a message the
     * save throws it and nothing changes.
     */
    method Update(userId: nat, id: nat, input: UpdateInput, fault: Option<string>) returns (r: Result<nat, ServiceError>)
      requires Valid()
      modifies this
      ensures Valid()
      ensures r.Failure? <==> old(FindOne(userId, id)).Failure? || fault.Some?
      ensures r.Failure? ==> unchanged(this)
      ensures old(FindOne(userId, id)).Failure? ==> r == Failure(DiaryNotFound)
      ensures old(FindOne(userId, id)).Success? && fault.Some? ==> r == Failure(StoreFailed(fault.value))
      ensures r.Success? ==>
        && r.value == id
        && |rows| == |old(rows)| && nextId == old(nextId) && clock == old(clock) + 1
        && (forall i :: 0 <= i < |rows| ==>
              rows[i] == if old(rows)[i].id == id then ApplyUpdate(old(rows)[i], input, old(clock)) else old(rows)[i])
    {
      var k := IndexOf(rows, userId, id);
      if k.None? {
        return Failure(DiaryNotFound);
      }
      if fault.Some? {
        return Failure(StoreFailed(fault.value));
      }
      var i := k.value;
      var d := ApplyUpdate(rows[i], input, clock);
      rows := rows[i := d];
      clock := clock + 1;
      r := Success(id);
    }

    /**
     * Deletes the caller's diary `id`; every other diary stays. `fault` is the
     * store's verdict on the delete, as in `Update`.
     */
    method Remove(userId: nat, id: nat, fault: Option<string>) returns (r: Result<nat, ServiceError>)
      requires Valid()
      modifies this
      ensures Valid()
      ensures r.Failure? <==> old(FindOne(userId, id)).Failure? || fault.Some?
      ensures r.Failure? ==> unchanged(this)
      ensures old(FindOne(userId, id)).Failure? ==> r == Failure(DiaryNotFound)
      ensures old(FindOne(userId, id)).Success? && fault.Some? ==> r == Failure(StoreFailed(fault.value))
      ensures r.Success? ==>
        && r.value == id
        && nextId == old(nextId) && clock == old(clock)
        && (exists i :: 0 <= i < |old(rows)| && old(rows)[i].id == id && old(rows)[i].owner == userId &&
              rows == Without(old(rows), i))
        && (forall d :: d in rows <==> d in old(rows) && d.id != id)
    {
      var k := IndexOf(rows, userId, id);
      if k.None? {
        return Failure(DiaryNotFound);
      }
      if fault.Some? {
        return Failure(StoreFailed(fault.value));
      }
      var i := k.value;
      WithoutKeepsTable(rows, nextId, clock, i);
      WithoutKeepsOthers(rows, i);
      WithoutDropsId(rows, i);
      rows := Without(rows, i);
      r := Success(id);
    }

    /** The export records: every diary of the caller, one record each, by journal date descending. */
    function ExportToCsv(userId: nat): (records: seq<ExportRecord>)
      reads this
      ensures |records| == |OwnedBy(rows, userId)|
      ensures forall r :: r in records ==> exists d :: d in rows && d.owner == userId && r == ToRecord(d)
      ensures forall d :: d in rows && d.owner == userId ==> ToRecord(d) in records
      ensures forall i, j :: 0 <= i < j < |records| ==> !LexLess(records[i].journalDate, records[j].journalDate)
      ensures multiset(records) == multiset(ToRecords(OwnedBy(rows, userId)))
    {
      var ds := Sort(OwnedBy(rows, userId));
      ToRecordsPermutation(ds, OwnedBy(rows, userId));
      NewestFirstDatesDescending(ds);
      SortMembers(OwnedBy(rows, userId));
      RecordsOfDiaries(ds);
      ToRecords(ds)
    }

    /**
     * One pass of the import loop body: the required-field check, the date
     * shape check, then a save through `Create`. Returns the row's failure, if any.
     */
    method ImportRow(userId: nat, row: Row, saveError: CreateInput -> Option<string>) returns (failure: Option<RowFailure>)
      requires Valid()
      modifies this
      ensures Valid()
      ensures failure.Some? <==> Verdict(row, saveError).Failure?
      ensures failure.Some? ==> failure.value == Verdict(row, saveError).error && unchanged(this)
      ensures failure.None? ==>
        && rows == old(rows) + [NewDiary(old(nextId), userId, Verdict(row, saveError).value, old(clock))]
        && nextId == old(nextId) + 1 && clock == old(clock) + 1
    {
      if !Truthy(Cell(row, TitleLabel)) || !Truthy(Cell(row, ContentLabel)) || !Truthy(Cell(row, DateLabel)) {
        return Some(MissingField);
      }
      if !DateShape(row[DateLabel]) {
        return Some(BadDateFormat);
      }
      var mood := if Truthy(Cell(row, MoodLabel)) then Defined(row[MoodLabel]) else Null;
      var input := CreateInput(row[TitleLabel], row[ContentLabel], row[DateLabel], mood);
      assert Screen(row) == Success(input);
      var created := Create(userId, input, saveError(input));
      if created.Failure? {
        return Some(SaveFailed(created.error));
      }
      return None;
    }

    /**
     * The import's running results after the first `n` rows: the stored
     * diaries follow `base` and the counters started at `firstId` and `now`.
     */
    ghost predicate ImportedPrefix(userId: nat, csvRows: seq<Row>, n: nat, saveError: CreateInput -> Option<string>,
                                   base: seq<Diary>, firstId: nat, now: nat, imported: nat, errors: seq<string>)
      requires n <= |csvRows|
      reads this
    {
      && imported == |Accepted(csvRows[..n], saveError)|
      && errors == Messages(Errors(csvRows[..n], saveError))
      && rows == base + Batch(userId, Accepted(csvRows[..n], saveError), firstId, now)
      && nextId == firstId + imported && clock == now + imported
    }

    /** One turn of the import loop: processes row `i` and extends the running results by it. */
    method ImportNext(userId: nat, csvRows: seq<Row>, i: nat, saveError: CreateInput -> Option<string>,
                      ghost base: seq<Diary>, ghost firstId: nat, ghost now: nat, imported: nat, errors: seq<string>)
      returns (imported': nat, errors': seq<string>)
      requires i < |csvRows|
      requires Valid() && ImportedPrefix(userId, csvRows, i, saveError, base, firstId, now, imported, errors)
      modifies this
      ensures Valid() && ImportedPrefix(userId, csvRows, i + 1, saveError, base, firstId, now, imported', errors')
    {
      ghost var rows0, id0, t0 := rows, nextId, clock;
      var failure := ImportRow(userId, csvRows[i], saveError);
      if failure.Some? {
        ImportStepFailed(csvRows, i, saveError);
        imported', errors' := imported, errors + [Message(RowError(i + 2, failure.value))];
      } else {
        ImportStepStored(base, rows0, userId, csvRows, i, saveError, firstId, now, id0, t0);
        imported', errors' := imported + 1, errors;
      }
    }

    /**
     * The row loop of the CSV import: visits every row in order, records one
     * error tagged with line `index + 2` for each row that fails a check or
     * whose save fails, stores the others, and never stops early.
     * `saveError` is the store's verdict on each insert.
     */
    method ImportFromCsv(userId: nat, csvRows: seq<Row>, saveError: CreateInput -> Option<string>)
      returns (imported: nat, errors: seq<string>)
      requires Valid()
      modifies this
      ensures Valid()
      ensures imported == |Accepted(csvRows, saveError)|
      ensures errors == Messages(Errors(csvRows, saveError))
      ensures imported + |errors| == |csvRows|
      ensures rows == old(rows) + Batch(userId, Accepted(csvRows, saveError), old(nextId), old(clock))
      ensures nextId == old(nextId) + imported && clock == old(clock) + imported
    {
      imported, errors := 0, [];
      var i := 0;
      assert csvRows[..0] == [];
      while i < |csvRows|
        invariant 0 <= i <= |csvRows|
        invariant Valid() && ImportedPrefix(userId, csvRows, i, saveError, old(rows), old(nextId), old(clock), imported, errors)
      {
        imported, errors := ImportNext(userId, csvRows, i, saveError, old(rows), old(nextId), old(clock), imported, errors);
        i := i + 1;
      }
      assert csvRows[..i] == csvRows;
      ImportAccountsForEveryRow(csvRows, saveError);
    }
  }

  /** Row `i` failing adds its message under line `i + 2` and stores nothing. */
  lemma ImportStepFailed(csvRows: seq<Row>, i: nat, saveError: CreateInput -> Option<string>)
    requires i < |csvRows| && Verdict(csvRows[i], saveError).Failure?
    ensures Accepted(csvRows[..i + 1], saveError) == Accepted(csvRows[..i], saveError)
    ensures Messages(Errors(csvRows[..i + 1], saveError))
         == Messages(Errors(csvRows[..i], saveError)) + [Message(RowError(i + 2, Verdict(csvRows[i], saveError).error))]
  {
    var done := csvRows[..i];
    assert csvRows[..i + 1] == done + [csvRows[i]];
    OutcomeOfLastRow(done, csvRows[i], saveError);
    MessagesAppend(Errors(done, saveError), RowError(i + 2, Verdict(csvRows[i], saveError).error));
  }

  /**
   * Row `i` passing stores one more diary, with the next id and clock tick,
   * after the `prior` table, and adds no message.
   */
  lemma ImportStepStored(base: seq<Diary>, prior: seq<Diary>, userId: nat, csvRows: seq<Row>, i: nat,
                         saveError: CreateInput -> Option<string>, firstId: nat, now: nat, id: nat, time: nat)
    requires i < |csvRows| && Verdict(csvRows[i], saveError).Success?
    requires prior == base + Batch(userId, Accepted(csvRows[..i], saveError), firstId, now)
    requires id == firstId + |Accepted(csvRows[..i], saveError)| && time == now + |Accepted(csvRows[..i], saveError)|
    ensures |Accepted(csvRows[..i + 1], saveError)| == |Accepted(csvRows[..i], saveError)| + 1
    ensures Messages(Errors(csvRows[..i + 1], saveError)) == Messages(Errors(csvRows[..i], saveError))
    ensures prior + [NewDiary(id, userId, Verdict(csvRows[i], saveError).value, time)]
         == base + Batch(userId, Accepted(csvRows[..i + 1], saveError), firstId, now)
  {
    var done := csvRows[..i];
    var row := csvRows[i];
    assert csvRows[..i + 1] == done + [row];
    OutcomeOfLastRow(done, row, saveError);
    assert Errors(done + [row], saveError) == Errors(done, saveError);
    var input := Verdict(row, saveError).value;
    assert Accepted(csvRows[..i + 1], saveError) == Accepted(done, saveError) + [input];
    BatchAppend(userId, Accepted(done, saveError), input, firstId, now);
    var before := Batch(userId, Accepted(done, saveError), firstId, now);
    var next := NewDiary(id, userId, input, time);
    assert Batch(userId, Accepted(csvRows[..i + 1], saveError), firstId, now) == before + [next];
    assert base + (before + [next]) == prior + [next];
  }

  /**
   * The importer bypasses the title limit of the create body: a row with a
   * 201-character title passes the importer's checks, while the same title in
   * a create body is rejected.
   */
  lemma ImportSkipsTitleLimit()
    ensures exists row: Row ::
      && Screen(row).Success?
      && |Screen(row).value.title| > MaxTitleLength
      && !CreateDiaryDtoValid(CreateDiaryDto(Some(row[TitleLabel]), Some(row[ContentLabel]), Some(row[DateLabel]), None))
  {
    var title := seq(MaxTitleLength + 1, _ => 'a');
    var row := map[TitleLabel := title, ContentLabel := "x", DateLabel := "2025-09-29"];
    assert Cell(row, TitleLabel) == Some(title);
    assert Cell(row, ContentLabel) == Some("x");
    assert Cell(row, DateLabel) == Some("2025-09-29");
    assert Screen(row).Success?;
  }
}
