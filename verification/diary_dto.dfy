/**
 * The request checks applied before the diary service is called: the
 * constraints of the create body and of the listing query, as predicates.
 */
module DiaryDto {
  import opened Wrappers
  import opened Text
  import opened DiaryModel

  const MaxTitleLength := 200

  predicate IsMonth(s: string)
    requires |s| == 2 && IsDigit(s[0]) && IsDigit(s[1])
  {
    (s[0] == '0' && s[1] != '0') || (s[0] == '1' && '0' <= s[1] <= '2')
  }

  predicate IsDayOfMonth(s: string)
    requires |s| == 2 && IsDigit(s[0]) && IsDigit(s[1])
  {
    (s[0] == '0' && s[1] != '0') || s[0] == '1' || s[0] == '2' || (s[0] == '3' && s[1] <= '1')
  }

  /**
   * A date string in the calendar form of ISO 8601, `YYYY-MM-DD`, with a month
   * of 01 to 12 and a day of 01 to 31.
   */
  predicate IsDateString(s: string): (ok: bool)
    ensures ok ==> DateShape(s)
    ensures s == "2025-09-29" ==> ok
  {
    DateShape(s) && IsMonth(s[5..7]) && IsDayOfMonth(s[8..10])
  }

  /** Every accepted date also passes the importer's shape check; the converse fails. */
  lemma DateStringHasShape(s: string)
    ensures IsDateString(s) ==> DateShape(s)
    ensures DateShape("2025-13-45") && !IsDateString("2025-13-45")
  {
    var bad := "2025-13-45";
    assert bad[5..7] == "13";
  }

  /** The create body as received: any field may be missing. */
  datatype CreateDiaryDto = CreateDiaryDto(
    title: Option<string>,
    content: Option<string>,
    journalDate: Option<string>,
    mood: Option<string>)

  /** The body passes validation: non-empty title of at most 200 characters, non-empty content, a date string. */
  predicate CreateDiaryDtoValid(dto: CreateDiaryDto): (ok: bool)
    ensures ok ==> dto.title.Some? && 0 < |dto.title.value| <= MaxTitleLength
    ensures ok ==> dto.journalDate.Some? && DateShape(dto.journalDate.value)
    ensures dto.title.Some? && |dto.title.value| > MaxTitleLength ==> !ok
  {
    && dto.title.Some? && dto.title.value != "" && |dto.title.value| <= MaxTitleLength
    && dto.content.Some? && dto.content.value != ""
    && dto.journalDate.Some? && IsDateString(dto.journalDate.value)
  }

  /** The input a validated body hands to the service. */
  function ToCreateInput(dto: CreateDiaryDto): (input: CreateInput)
    requires CreateDiaryDtoValid(dto)
    ensures input.title == dto.title.value && input.content == dto.content.value
    ensures input.journalDate == dto.journalDate.value
    ensures input.mood == (if dto.mood.Some? then Defined(dto.mood.value) else Undefined)
    ensures input.title != "" && |input.title| <= MaxTitleLength && input.content != ""
    ensures DateShape(input.journalDate)
    ensures input.mood.Defined? <==> dto.mood.Some?
  {
    DateStringHasShape(dto.journalDate.value);
    CreateInput(dto.title.value, dto.content.value, dto.journalDate.value,
      if dto.mood.Some? then Defined(dto.mood.value) else Undefined)
  }

  /** The listing query passes validation. */
  predicate QueryDiaryDtoValid(q: Query): (ok: bool)
    ensures ok ==> ClampPage(q.page) == (if q.page.Some? then q.page.value else DefaultPage)
    ensures ok ==> ClampLimit(q.limit) == (if q.limit.Some? then q.limit.value else DefaultLimit)
    ensures ok ==> (q.fromDate.Some? ==> DateShape(q.fromDate.value)) && (q.toDate.Some? ==> DateShape(q.toDate.value))
  {
    && (q.page.Some? ==> q.page.value >= 1)
    && (q.limit.Some? ==> 1 <= q.limit.value <= MaxLimit)
    && (q.fromDate.Some? ==> IsDateString(q.fromDate.value))
    && (q.toDate.Some? ==> IsDateString(q.toDate.value))
  }

  /** For an accepted query the service's clamp keeps page and limit as given. */
  lemma AcceptedQueryIsNotClamped(q: Query)
    requires QueryDiaryDtoValid(q)
    ensures q.page.Some? ==> ClampPage(q.page) == q.page.value
    ensures q.limit.Some? ==> ClampLimit(q.limit) == q.limit.value
    ensures q.page.None? ==> ClampPage(q.page) == DefaultPage
    ensures q.limit.None? ==> ClampLimit(q.limit) == DefaultLimit
  {
  }

  /** A query with no fields is accepted. */
  lemma EmptyQueryAccepted()
    ensures QueryDiaryDtoValid(Query(None, None, None, None, None))
  {
  }
}
