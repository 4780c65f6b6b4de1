/**
 * The request bodies and query of the announcement endpoints as the global
 * validation pipe sees them: the decorators of `CreateAnnouncementDto`, the
 * same decorators made optional by `PartialType` for the update body, and
 * the list query. Each DTO is an acceptance predicate on the parsed JSON,
 * followed by the conversion into the service's input once accepted.
 */
module Dto {
  import opened Wrappers
  import opened DateFormat
  import opened AnnouncementsService

  /** A parsed JSON value; numbers are JavaScript numbers, kept here as exact reals. */
  datatype Json =
    | JNull
    | JBool(b: bool)
    | JNum(n: real)
    | JStr(s: string)
    | JArr(items: seq<Json>)
    | JObj(fields: map<string, Json>)

  /** A request body: the members of the top-level JSON object. */
  type Body = map<string, Json>

  /** The member `key` of the body; None when it is not sent (`undefined`). */
  function Get(body: Body, key: string): Option<Json> {
    if key in body then Some(body[key]) else None
  }

  /** `Number.isInteger` on a number. */
  predicate IsInteger(n: real) {
    n.Floor as real == n
  }

  /** `@IsString() @IsNotEmpty()`: a string other than the empty string. */
  predicate NonEmptyString(v: Option<Json>) {
    v.Some? && v.value.JStr? && v.value.s != ""
  }

  /** The publication date decorators: a non-empty string matching the date pattern. */
  predicate DateString(v: Option<Json>) {
    NonEmptyString(v) && MatchesDateFormat(v.value.s)
  }

  /** `@IsArray() @ArrayMinSize(1) @IsInt({ each: true })`: a non-empty array of integers. */
  predicate IdArray(v: Option<Json>) {
    && v.Some? && v.value.JArr? && |v.value.items| >= 1
    && forall i :: 0 <= i < |v.value.items| ==> v.value.items[i].JNum? && IsInteger(v.value.items[i].n)
  }

  /**
   * `CreateAnnouncementDto`: every field is required. Blank titles pass
   * (`IsNotEmpty` only refuses ""), there is no length limit, and any
   * numbers of the right widths pass as a date.
   */
  predicate CreateAccepts(body: Body) {
    && NonEmptyString(Get(body, "title"))
    && NonEmptyString(Get(body, "content"))
    && DateString(Get(body, "publicationDate"))
    && IdArray(Get(body, "categoryIds"))
  }

  /** `@IsOptional()`, which `PartialType` adds: a missing or `null` member skips the member's other checks. */
  predicate Optional(v: Option<Json>) {
    v.None? || v.value.JNull?
  }

  /** `UpdateAnnouncementDto`: each field either optional or as in the create body. */
  predicate UpdateAccepts(body: Body) {
    && (Optional(Get(body, "title")) || NonEmptyString(Get(body, "title")))
    && (Optional(Get(body, "content")) || NonEmptyString(Get(body, "content")))
    && (Optional(Get(body, "publicationDate")) || DateString(Get(body, "publicationDate")))
    && (Optional(Get(body, "categoryIds")) || IdArray(Get(body, "categoryIds")))
  }

  function IdsOf(v: Option<Json>): (ids: seq<int>)
    requires IdArray(v)
    ensures |ids| == |v.value.items|
    ensures forall i :: 0 <= i < |ids| ==> ids[i] as real == v.value.items[i].n
  {
    seq(|v.value.items|, i requires 0 <= i < |v.value.items| => v.value.items[i].n.Floor)
  }

  /** The accepted create body as the service receives it; members not declared are stripped. */
  function CreateInputOf(body: Body): (input: CreateInput)
    requires CreateAccepts(body)
    ensures MatchesDateFormat(input.publicationDate)
    ensures |input.categoryIds| >= 1
  {
    CreateInput(body["title"].s, body["content"].s, body["publicationDate"].s, IdsOf(Get(body, "categoryIds")))
  }

  /** A member of the update body: left out, `null`, or sent. */
  function FieldOf<T>(v: Option<Json>, value: Json -> T): Field<T> {
    if v.None? then Absent else if v.value.JNull? then Null else Given(value(v.value))
  }

  function StringOf(j: Json): string {
    if j.JStr? then j.s else ""
  }

  /** The accepted update body as the service receives it. */
  function UpdateInputOf(body: Body): (input: UpdateInput)
    requires UpdateAccepts(body)
    ensures DateReadable(input)
    ensures input.categoryIds.Given? ==> |input.categoryIds.value| >= 1
  {
    var ids := Get(body, "categoryIds");
    UpdateInput(
      FieldOf(Get(body, "title"), StringOf),
      FieldOf(Get(body, "content"), StringOf),
      FieldOf(Get(body, "publicationDate"), StringOf),
      if ids.None? then Absent else if ids.value.JNull? then Null else Given(IdsOf(ids)))
  }

  /** Each member of the update body arrives as left out, `null` or its value, exactly as sent. */
  lemma UpdateInputFaithful(body: Body)
    requires UpdateAccepts(body)
    ensures UpdateInputOf(body).title.Absent? <==> "title" !in body
    ensures UpdateInputOf(body).title.Null? <==> "title" in body && body["title"] == JNull
    ensures UpdateInputOf(body).title.Given? ==> body["title"] == JStr(UpdateInputOf(body).title.value)
    ensures UpdateInputOf(body).content.Absent? <==> "content" !in body
    ensures UpdateInputOf(body).content.Null? <==> "content" in body && body["content"] == JNull
    ensures UpdateInputOf(body).content.Given? ==> body["content"] == JStr(UpdateInputOf(body).content.value)
    ensures UpdateInputOf(body).publicationDate.Absent? <==> "publicationDate" !in body
    ensures UpdateInputOf(body).publicationDate.Null? <==> "publicationDate" in body && body["publicationDate"] == JNull
    ensures UpdateInputOf(body).publicationDate.Given? ==>
              body["publicationDate"] == JStr(UpdateInputOf(body).publicationDate.value)
    ensures UpdateInputOf(body).categoryIds.Absent? <==> "categoryIds" !in body
    ensures UpdateInputOf(body).categoryIds.Null? <==> "categoryIds" in body && body["categoryIds"] == JNull
    ensures UpdateInputOf(body).categoryIds.Given? ==>
              && UpdateInputOf(body).categoryIds.value == IdsOf(Get(body, "categoryIds"))
              && |UpdateInputOf(body).categoryIds.value| == |body["categoryIds"].items|
              && forall i :: 0 <= i < |body["categoryIds"].items| ==>
                   UpdateInputOf(body).categoryIds.value[i] as real == body["categoryIds"].items[i].n
  {
  }

  /** `PartialType` only loosens: every accepted create body is an accepted update body. */
  lemma CreateBodyUpdates(body: Body)
    requires CreateAccepts(body)
    ensures UpdateAccepts(body)
    ensures UpdateInputOf(body) == UpdateInput(Given(CreateInputOf(body).title), Given(CreateInputOf(body).content),
                                               Given(CreateInputOf(body).publicationDate), Given(CreateInputOf(body).categoryIds))
  {
  }

  /** `null` passes every optional member of the update body. */
  lemma NullsAccepted()
    ensures UpdateAccepts(map["title" := JNull, "content" := JNull, "publicationDate" := JNull, "categoryIds" := JNull])
  {
    var body := map["title" := JNull, "content" := JNull, "publicationDate" := JNull, "categoryIds" := JNull];
    assert Get(body, "title") == Some(JNull);
    assert Get(body, "content") == Some(JNull);
    assert Get(body, "publicationDate") == Some(JNull);
    assert Get(body, "categoryIds") == Some(JNull);
  }

  /** An empty list of categories is refused in an update too: `ArrayMinSize` survives `PartialType`. */
  lemma EmptyIdsRefused(body: Body)
    requires Get(body, "categoryIds") == Some(JArr([]))
    ensures !UpdateAccepts(body) && !CreateAccepts(body)
  {
  }

  /** The create body checks only the shape of a date: a month 13, a day 45 and a time 99:99 all pass. */
  lemma ShapeOnlyDate(title: string)
    requires title != ""
    ensures CreateAccepts(map["title" := JStr(title), "content" := JStr("x"),
                              "publicationDate" := JStr("13/45/2025 99:99"), "categoryIds" := JArr([JNum(1.0)])])
  {
    var s := "13/45/2025 99:99";
    assert MatchesDateFormat(s);
  }

  /** The list query after `@Type(() => Number)`: the category is the JavaScript number read from its text. */
  datatype Query = Query(search: Option<Json>, category: Option<Json>)

  /** `FindAnnouncementsQueryDto`: an optional string search and an optional integer category. */
  predicate QueryAccepts(q: Query) {
    && (Optional(q.search) || q.search.value.JStr?)
    && (Optional(q.category) || (q.category.value.JNum? && IsInteger(q.category.value.n)))
  }

  /** The two arguments the controller passes on to `findAll`. */
  function FindArgs(q: Query): (r: (Option<string>, Option<int>))
    requires QueryAccepts(q)
    ensures r.0.Some? <==> q.search.Some? && q.search.value.JStr?
    ensures r.0.Some? ==> r.0.value == q.search.value.s
    ensures r.1.Some? <==> q.category.Some? && q.category.value.JNum?
    ensures r.1.Some? ==> r.1.value as real == q.category.value.n
  {
    (if q.search.Some? && q.search.value.JStr? then Some(q.search.value.s) else None,
     if q.category.Some? && q.category.value.JNum? then Some(q.category.value.n.Floor) else None)
  }
}
