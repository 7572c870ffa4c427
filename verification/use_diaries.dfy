/**
 * The web client's listing hook: it drops the parameters that are undefined
 * or null, renders the rest as a query string, builds the request URL, and
 * derives the values it hands to the page from the response, with defaults
 * and a computed page count. Percent-encoding is abstract: `enc` is the
 * form-urlencoding of one key or value.
 */
module UseDiaries {
  import opened Wrappers
  import opened Text
  import opened DiaryModel

  /** A JavaScript parameter value as the hook can receive it. */
  datatype JsValue = Undefined | Null | Num(n: int) | Str(s: string)

  /** The reducer keeps a value unless it is undefined or null; `0` and `''` are kept. */
  predicate Present(v: JsValue) {
    !v.Undefined? && !v.Null?
  }

  /** `String(value)` for a kept value. */
  function JsString(v: JsValue): (s: string)
    requires Present(v)
    ensures v.Str? ==> s == v.s
    ensures v.Num? ==> s == IntString(v.n)
  {
    if v.Str? then v.s else IntString(v.n)
  }

  /** A key/value record kept in insertion order, as an object iterates its string keys. */
  type Record = seq<(string, string)>

  predicate KeysDistinct<V>(entries: seq<(string, V)>) {
    forall i, j :: 0 <= i < j < |entries| ==> entries[i].0 != entries[j].0
  }

  /** `acc[key] = value`: overwrites the entry of `key` in place, or appends a new one. */
  function Put(acc: Record, key: string, value: string): (r: Record)
    ensures (forall i :: 0 <= i < |acc| ==> acc[i].0 != key) ==> r == acc + [(key, value)]
    ensures forall i :: 0 <= i < |acc| && acc[i].0 == key ==> |r| == |acc|
    ensures forall i :: 0 <= i < |acc| && acc[i].0 == key && (forall j :: 0 <= j < i ==> acc[j].0 != key) ==>
      r == acc[i := (key, value)]
  {
    if acc == [] then [(key, value)]
    else if acc[0].0 == key then [(key, value)] + acc[1..]
    else [acc[0]] + Put(acc[1..], key, value)
  }

  /** The record the reducer has built after the given entries. */
  function Reduced(entries: seq<(string, JsValue)>): Record
  {
    if entries == [] then []
    else
      var acc := Reduced(entries[..|entries| - 1]);
      var (key, value) := entries[|entries| - 1];
      if Present(value) then Put(acc, key, JsString(value)) else acc
  }

  /**
   * The reducer over `Object.entries(params)`: copies every present value,
   * rendered with `String`, into the accumulator under its key.
   */
  method FilterParams(entries: seq<(string, JsValue)>) returns (acc: Record)
    ensures acc == Reduced(entries)
  {
    acc := [];
    var i := 0;
    while i < |entries|
      invariant 0 <= i <= |entries|
      invariant acc == Reduced(entries[..i])
    {
      var (key, value) := entries[i];
      assert entries[..i + 1][..i] == entries[..i];
      if Present(value) {
        acc := Put(acc, key, JsString(value));
      }
      i := i + 1;
    }
    assert entries[..i] == entries;
  }

  /** Reference definition: the present entries, in order, each rendered with `String`. */
  function Rendered(entries: seq<(string, JsValue)>): (r: Record)
    ensures |r| <= |entries|
  {
    if entries == [] then []
    else
      var rest := Rendered(entries[..|entries| - 1]);
      var (key, value) := entries[|entries| - 1];
      if Present(value) then rest + [(key, JsString(value))] else rest
  }

  /** Every key of the rendered record is a key of the entries. */
  lemma {:induction false} RenderedKeys(entries: seq<(string, JsValue)>, key: string)
    requires forall i :: 0 <= i < |entries| ==> entries[i].0 != key
    ensures forall i :: 0 <= i < |Rendered(entries)| ==> Rendered(entries)[i].0 != key
  {
    if entries != [] {
      RenderedKeys(entries[..|entries| - 1], key);
    }
  }

  /**
   * An object's entries have distinct keys, so the reducer's record is
   * exactly the present entries, in order, rendered with `String`.
   */
  lemma {:induction false} ReducedIsRendered(entries: seq<(string, JsValue)>)
    requires KeysDistinct(entries)
    ensures Reduced(entries) == Rendered(entries)
  {
    if entries != [] {
      var init := entries[..|entries| - 1];
      var key := entries[|entries| - 1].0;
      assert KeysDistinct(init);
      ReducedIsRendered(init);
      RenderedKeys(init, key);
    }
  }

  /** Entry `j` has key `key` and a present value that renders as `s`. */
  predicate Sends(entries: seq<(string, JsValue)>, j: int, key: string, s: string) {
    0 <= j < |entries| && entries[j].0 == key && Present(entries[j].1) && s == JsString(entries[j].1)
  }

  /** Every pair of the rendered record comes from a present entry. */
  lemma {:induction false} RenderedSound(entries: seq<(string, JsValue)>, key: string, s: string)
    requires (key, s) in Rendered(entries)
    ensures exists j :: Sends(entries, j, key, s)
  {
    var init := entries[..|entries| - 1];
    var last := |entries| - 1;
    if (key, s) in Rendered(init) {
      RenderedSound(init, key, s);
      var j :| Sends(init, j, key, s);
      assert entries[j] == init[j];
      assert Sends(entries, j, key, s);
    } else {
      assert Sends(entries, last, key, s);
    }
  }

  /** Every present entry is in the rendered record. */
  lemma {:induction false} RenderedComplete(entries: seq<(string, JsValue)>, j: nat, key: string, s: string)
    requires Sends(entries, j, key, s)
    ensures (key, s) in Rendered(entries)
  {
    var init := entries[..|entries| - 1];
    if j < |init| {
      assert init[j] == entries[j];
      RenderedComplete(init, j, key, s);
    }
  }

  /** A key appears in the rendered record, with `String(value)`, exactly when its value is present. */
  lemma RenderedMembers(entries: seq<(string, JsValue)>, key: string, s: string)
    ensures (key, s) in Rendered(entries) <==> exists j :: Sends(entries, j, key, s)
  {
    if (key, s) in Rendered(entries) {
      RenderedSound(entries, key, s);
    }
    if exists j :: Sends(entries, j, key, s) {
      var j :| Sends(entries, j, key, s);
      RenderedComplete(entries, j, key, s);
    }
  }

  /** `0` and the empty string are kept and sent; undefined and null are dropped. */
  lemma FalsyValuesKept()
    ensures Rendered([("page", Num(0)), ("keyword", Str("")), ("fromDate", JsValue.Undefined), ("toDate", JsValue.Null)])
         == [("page", "0"), ("keyword", "")]
  {
    var e: seq<(string, JsValue)> := [("page", Num(0)), ("keyword", Str("")), ("fromDate", JsValue.Undefined), ("toDate", JsValue.Null)];
    assert DigitChar(0) == '0';
    assert IntString(0) == "0";
    assert e[..1] == [("page", Num(0))] && e[..1][..0] == [];
    assert Rendered(e[..1]) == [("page", "0")];
    assert e[..2][..1] == e[..1];
    assert Rendered(e[..2]) == [("page", "0"), ("keyword", "")];
    assert e[..3][..2] == e[..2];
    assert Rendered(e[..3]) == Rendered(e[..2]);
    assert e[..3] == e[..|e| - 1];
  }

  /**
   * One `key=value` pair of the form encoding: the encoded key, then `=`,
   * then the encoded value, so both read back from either side of the `=`.
   */
  function Pair(enc: string -> string, p: (string, string)): (s: string)
    ensures |s| > 0
    ensures |s| == |enc(p.0)| + 1 + |enc(p.1)|
    ensures s[..|enc(p.0)|] == enc(p.0) && s[|enc(p.0)|] == '='
    ensures s[|enc(p.0)| + 1..] == enc(p.1)
  {
    enc(p.0) + "=" + enc(p.1)
  }

  /**
   * `new URLSearchParams(record).toString()`: the pairs joined with `&`. The
   * string ends with the last pair, and an `&` comes right before it when
   * there are earlier pairs.
   */
  function QueryString(record: Record, enc: string -> string): (qs: string)
    ensures qs == "" <==> record == []
    ensures record != [] ==>
      |Pair(enc, record[|record| - 1])| <= |qs| && qs[|qs| - |Pair(enc, record[|record| - 1])|..] == Pair(enc, record[|record| - 1])
    ensures |record| > 1 ==>
      |Pair(enc, record[|record| - 1])| < |qs| && qs[|qs| - |Pair(enc, record[|record| - 1])| - 1] == '&'
  {
    if record == [] then ""
    else if |record| == 1 then Pair(enc, record[0])
    else QueryString(record[..|record| - 1], enc) + "&" + Pair(enc, record[|record| - 1])
  }

  /** The pieces of `s` between the occurrences of `sep`, as `s.split(sep)`. */
  function Split(s: string, sep: char): (parts: seq<string>)
    ensures |parts| >= 1
    ensures sep !in s ==> parts == [s]
  {
    if s == [] then [""]
    else if s[0] == sep then [""] + Split(s[1..], sep)
    else
      var rest := Split(s[1..], sep);
      assert s == [s[0]] + s[1..];
      [[s[0]] + rest[0]] + rest[1..]
  }

  /** Splitting at a separator splits the two sides independently. */
  lemma {:induction false} SplitAt(a: string, sep: char, b: string)
    ensures Split(a + [sep] + b, sep) == Split(a, sep) + Split(b, sep)
  {
    if a != [] {
      assert (a + [sep] + b)[1..] == a[1..] + [sep] + b;
      SplitAt(a[1..], sep, b);
    } else {
      assert a + [sep] + b == [sep] + b;
    }
  }

  /** The pairs of a record, each rendered as `key=value`. */
  function Pairs(record: Record, enc: string -> string): (ps: seq<string>)
    ensures |ps| == |record|
    ensures forall k :: 0 <= k < |record| ==> ps[k] == Pair(enc, record[k])
  {
    if record == [] then [] else Pairs(record[..|record| - 1], enc) + [Pair(enc, record[|record| - 1])]
  }

  /**
   * The form encoding escapes `&`, so splitting the query string at `&`
   * gives back exactly the record's pairs, in order: a parameter is sent
   * iff it is in the record.
   */
  lemma {:induction false} QueryStringSplits(record: Record, enc: string -> string)
    requires record != []
    requires forall x :: '&' !in enc(x)
    ensures Split(QueryString(record, enc), '&') == Pairs(record, enc)
  {
    var last := Pair(enc, record[|record| - 1]);
    assert '&' !in last by {
      var k, v := enc(record[|record| - 1].0), enc(record[|record| - 1].1);
      assert last == k + "=" + v;
      assert '&' !in k && '&' !in v;
    }
    if |record| > 1 {
      var init := record[..|record| - 1];
      QueryStringSplits(init, enc);
      SplitAt(QueryString(init, enc), '&', last);
      assert QueryString(init, enc) + "&" + last == QueryString(init, enc) + ['&'] + last;
    }
  }

  /** An occurrence in `s` is still one after anything is appended to `s`. */
  lemma OccursInExtension(s: string, k: string, i: int, t: string)
    requires OccursAt(s, k, i)
    ensures OccursAt(s + t, k, i)
  {
    assert (s + t)[i..i + |k|] == s[i..i + |k|];
  }

  /** Every pair of the record occurs in its query string. */
  lemma {:induction false} QueryStringHasPairs(record: Record, enc: string -> string, k: nat)
    requires k < |record|
    ensures Contains(QueryString(record, enc), Pair(enc, record[k]))
  {
    var qs := QueryString(record, enc);
    var p := Pair(enc, record[k]);
    if k == |record| - 1 {
      assert OccursAt(qs, p, |qs| - |p|);
    } else {
      var init := record[..|record| - 1];
      assert init[k] == record[k];
      QueryStringHasPairs(init, enc, k);
      var head := QueryString(init, enc);
      var i :| 0 <= i <= |head| - |p| && OccursAt(head, p, i);
      var last := Pair(enc, record[|record| - 1]);
      OccursInExtension(head, p, i, "&");
      OccursInExtension(head + "&", p, i, last);
      assert qs == head + "&" + last;
    }
  }

  /** The query string of the hook's parameters; no parameters at all give the empty string. */
  function ParamsQuery(params: Option<seq<(string, JsValue)>>, enc: string -> string): (qs: string)
    ensures params.None? ==> qs == ""
  {
    if params.None? then "" else QueryString(Reduced(params.value), enc)
  }

  /** The request URL: the query string is attached, after `?`, only when it is non-empty. */
  function DiariesUrl(qs: string): (url: string)
    ensures qs == "" ==> url == "/diaries"
    ensures qs != "" ==> url == "/diaries?" + qs && url[..9] == "/diaries?" && url[9..] == qs
  {
    if qs == "" then "/diaries" else "/diaries?" + qs
  }

  /** Every parameter whose value is neither undefined nor null is sent as `key=String(value)`. */
  lemma ParamsQuerySendsPresent(entries: seq<(string, JsValue)>, enc: string -> string, j: nat)
    requires KeysDistinct(entries)
    requires j < |entries| && Present(entries[j].1)
    ensures Contains(ParamsQuery(Some(entries), enc), Pair(enc, (entries[j].0, JsString(entries[j].1))))
  {
    var p := (entries[j].0, JsString(entries[j].1));
    ReducedIsRendered(entries);
    RenderedComplete(entries, j, p.0, p.1);
    var k :| 0 <= k < |Rendered(entries)| && Rendered(entries)[k] == p;
    QueryStringHasPairs(Rendered(entries), enc, k);
  }

  /**
   * With an encoding that escapes `&`, the pieces of the query string are
   * exactly the present parameters, in order, each as `key=String(value)`.
   */
  lemma ParamsQueryPieces(entries: seq<(string, JsValue)>, enc: string -> string)
    requires KeysDistinct(entries)
    requires forall x :: '&' !in enc(x)
    requires exists j :: 0 <= j < |entries| && Present(entries[j].1)
    ensures Split(ParamsQuery(Some(entries), enc), '&') == Pairs(Rendered(entries), enc)
  {
    ReducedIsRendered(entries);
    var j :| 0 <= j < |entries| && Present(entries[j].1);
    RenderedComplete(entries, j, entries[j].0, JsString(entries[j].1));
    QueryStringSplits(Rendered(entries), enc);
  }

  /** The URL is the bare `/diaries` exactly when no parameter is present. */
  lemma BareUrlIffNothingKept(params: Option<seq<(string, JsValue)>>, enc: string -> string)
    requires params.Some? ==> KeysDistinct(params.value)
    ensures DiariesUrl(ParamsQuery(params, enc)) == "/diaries" <==>
      params.None? || forall j :: 0 <= j < |params.value| ==> !Present(params.value[j].1)
  {
    if params.Some? {
      var e := params.value;
      ReducedIsRendered(e);
      if Rendered(e) != [] {
        var p := Rendered(e)[0];
        assert p in Rendered(e);
        RenderedSound(e, p.0, p.1);
      } else {
        forall j | 0 <= j < |e| ensures !Present(e[j].1) {
          if Present(e[j].1) {
            RenderedComplete(e, j, e[j].0, JsString(e[j].1));
          }
        }
      }
      var qs := ParamsQuery(params, enc);
      if qs != "" {
        var url := DiariesUrl(qs);
        assert |url| > |"/diaries"|;
      }
    }
  }

  /**
   * `Math.ceil(a / b)` on integers: the least integer at or above the
   * quotient, for a divisor of either sign.
   */
  function CeilDiv(a: int, b: int): (q: int)
    requires b != 0
    ensures b > 0 ==> (q - 1) * b < a <= q * b
    ensures b < 0 ==> q * b <= a < (q - 1) * b
  {
    if b > 0 then -((-a) / b) else -(a / (-b))
  }

  /** The paginated body as the client receives it; `totalPages` may be missing. */
  datatype PageResponse = PageResponse(items: seq<Diary>, total: int, page: int, limit: int, totalPages: Option<int>)

  /** A number is truthy unless it is `0` (or missing). */
  predicate TruthyNum(n: Option<int>) {
    n.Some? && n.value != 0
  }

  /** What the hook returns to the page. */
  datatype HookResult = HookResult(diaries: seq<Diary>, total: int, page: int, limit: int, totalPages: int, isLoading: bool)

  /**
   * The hook's derived values for the fetched `data` (none while loading or
   * after a failure) and whether the fetch failed: each field falls back with
   * `||`, and the page count is computed when the server sends none.
   */
  function Derive(data: Option<PageResponse>, error: bool): (r: HookResult)
    ensures data.None? ==> r.diaries == [] && r.total == 0 && r.page == 1 && r.limit == 10
    ensures data.Some? ==> r.diaries == data.value.items
    ensures r.total == if data.Some? && data.value.total != 0 then data.value.total else 0
    ensures r.page == if data.Some? && data.value.page != 0 then data.value.page else 1
    ensures r.limit == if data.Some? && data.value.limit != 0 then data.value.limit else 10
    ensures r.limit != 0
    ensures data.Some? && TruthyNum(data.value.totalPages) ==> r.totalPages == data.value.totalPages.value
    ensures !(data.Some? && TruthyNum(data.value.totalPages)) ==> r.totalPages == CeilDiv(r.total, r.limit)
    ensures r.isLoading <==> data.None? && !error
  {
    var total := if data.Some? && data.value.total != 0 then data.value.total else 0;
    var page := if data.Some? && data.value.page != 0 then data.value.page else 1;
    var limit := if data.Some? && data.value.limit != 0 then data.value.limit else 10;
    var totalPages := if data.Some? && TruthyNum(data.value.totalPages) then data.value.totalPages.value
                      else CeilDiv(total, limit);
    HookResult(if data.Some? then data.value.items else [], total, page, limit, totalPages, data.None? && !error)
  }

  /** Before any response the page shows no diaries and a single empty page count of 0. */
  lemma DefaultsWithoutResponse(error: bool)
    ensures Derive(None, error) == HookResult([], 0, 1, 10, 0, !error)
  {
  }

  /** The body the listing endpoint sends for a page: no `totalPages` field. */
  function Response(p: Page): (r: PageResponse)
    ensures r.items == p.items && r.total == p.total && r.page == p.page && r.limit == p.limit
    ensures r.totalPages.None?
  {
    PageResponse(p.items, p.total, p.page, p.limit, None)
  }

  /** Multiplying by a non-negative factor keeps the order. */
  lemma MultiplyMonotone(a: int, b: int, c: int)
    requires a <= b && c >= 0
    ensures a * c <= b * c
  {
    assert b * c - a * c == (b - a) * c;
  }

  /**
   * Against the listing endpoint, the client's page count is `ceil(total / limit)`
   * of the server's values, and a page number `p` is within that count exactly
   * when the server's page `p` has items.
   */
  lemma {:induction false} PageCountMatchesServer(p: Page, error: bool, n: int)
    requires p.page >= 1 && 1 <= p.limit && n >= 1
    ensures Derive(Some(Response(p)), error).totalPages == CeilDiv(p.total, p.limit)
    ensures PageSize(p.total, n, p.limit) > 0 <==> n <= CeilDiv(p.total, p.limit)
  {
    var q := CeilDiv(p.total, p.limit);
    if n <= q {
      MultiplyMonotone(n - 1, q - 1, p.limit);
    } else {
      MultiplyMonotone(q, n - 1, p.limit);
    }
  }
}
