/**
 * `AnnouncementsService`: date parsing, the category-id check, and the
 * five operations, each a function from the database (and its arguments)
 * to the database afterwards and what the operation returned or raised.
 */
module AnnouncementsService {
  import opened Wrappers
  import opened Digits
  import opened JsString
  import opened Calendar
  import opened DateFormat
  import opened FieldTime
  import opened Store
  import opened Response

  /**
   * What the service raises: `NotFoundException` (404),
   * `BadRequestException` (400), and a failure inside the database client
   * or the runtime, answered with status 500.
   */
  datatype Failure = NotFound(message: string) | BadRequest(message: string) | ServerError

  /** The database after an operation, and what the operation returned or raised. */
  datatype Reply<T> = Reply(db: Db, result: Result<T, Failure>)

  // ---------------------------------------------------------------- dates

  /**
   * `parsePublicationDate`: the instant `Date.UTC` builds from the fields of
   * a string of the request format, which is never NaN for such a string.
   */
  function ParsePublicationDate(s: string): (t: int)
    requires MatchesDateFormat(s)
    ensures UtcOf(FieldsAt(s)) == Some(t)
  {
    var f := ReadFields(s);
    DateUtcDefinedAt(f);
    UtcOf(f).value
  }

  lemma DateUtcDefinedAt(f: DateFields)
    requires 0 <= f.month < 100 && 0 <= f.day < 100 && 0 <= f.hours < 100 && 0 <= f.minutes < 100
    requires 0 <= f.year < 10000
    ensures UtcOf(f).Some?
  {
    var m := f.month - 1;
    assert UtcOf(f) == DateUtc(f.year, m, f.day, f.hours, f.minutes);
    DateUtcDefined(f.year, m, f.day, f.hours, f.minutes);
  }

  /** The fields of a minute that exists are stored as that minute: its UTC fields are the ones sent. */
  lemma ParseRoundTrip(s: string)
    requires MatchesDateFormat(s) && Existing(FieldsAt(s))
    ensures UtcFields(ParsePublicationDate(s)) == FieldsAt(s)
  {
    var f := FieldsAt(s);
    FieldsRoundTrip(f);
  }

  /**
   * A day past the end of its month is stored, not refused: it is carried
   * into the next month ("02/30/2025 10:00" is stored as 2 March 2025, 10:00).
   */
  lemma ParseCarriesOver(s: string)
    requires MatchesDateFormat(s)
    requires FieldRanges(FieldsAt(s)) && FieldsAt(s).day > DaysInMonth(FieldsAt(s).year, FieldsAt(s).month - 1)
    ensures UtcFields(ParsePublicationDate(s))
         == FieldsAt(s).(month := FieldsAt(s).month + 1,
                         day := FieldsAt(s).day - DaysInMonth(FieldsAt(s).year, FieldsAt(s).month - 1))
  {
    var f := FieldsAt(s);
    CarryOver(f);
  }

  // ------------------------------------------------------- category ids

  /**
   * `categoryIds.filter((id) => !existingIds.has(id))`: the requested ids
   * that name no category, in request order, repeats kept.
   */
  function MissingIds(ids: seq<int>, existing: set<int>): (r: seq<int>)
    ensures forall x :: x in r <==> x in ids && x !in existing
    ensures |r| <= |ids|
  {
    if ids == [] then []
    else (if ids[0] in existing then [] else [ids[0]]) + MissingIds(ids[1..], existing)
  }

  /** The missing ids of a longer request are those of its parts, in order. */
  lemma {:induction false} MissingIdsAppend(a: seq<int>, b: seq<int>, existing: set<int>)
    ensures MissingIds(a + b, existing) == MissingIds(a, existing) + MissingIds(b, existing)
    decreases |a|
  {
    if a == [] {
      assert a + b == b;
    } else {
      assert (a + b)[1..] == a[1..] + b;
      MissingIdsAppend(a[1..], b, existing);
    }
  }

  /** Every occurrence of a missing id is reported, and no occurrence of an existing one. */
  lemma {:induction false} MissingIdsCount(ids: seq<int>, existing: set<int>, x: int)
    ensures multiset(MissingIds(ids, existing))[x] == if x in existing then 0 else multiset(ids)[x]
    decreases |ids|
  {
    if ids != [] {
      MissingIdsCount(ids[1..], existing, x);
      assert ids == [ids[0]] + ids[1..];
    }
  }

  function NotFoundMessage(id: int): string {
    "Announcement with ID " + IntToString(id) + " not found"
  }

  /** The message listing the missing ids: `String` of each, joined by ", ". */
  function MissingCategoriesMessage(missing: seq<int>): string {
    "Category IDs do not exist: " + Join(seq(|missing|, i requires 0 <= i < |missing| => IntToString(missing[i])), ", ")
  }

  /**
   * `validateCategoryIds`: passes exactly when every requested id names a
   * category (so an empty list passes); otherwise a bad request naming every
   * missing id.
   */
  function ValidateCategoryIds(db: Db, ids: seq<int>): (r: Outcome<Failure>)
    ensures r.Pass? <==> forall i :: 0 <= i < |ids| ==> ids[i] in CategoryIds(db)
    ensures r.Fail? ==> r.error == BadRequest(MissingCategoriesMessage(MissingIds(ids, CategoryIds(db))))
  {
    var invalid := MissingIds(ids, CategoryIds(db));
    if |invalid| > 0 then
      assert invalid[0] in invalid;
      Fail(BadRequest(MissingCategoriesMessage(invalid)))
    else
      assert forall i :: 0 <= i < |ids| ==> ids[i] in ids;
      Pass
  }

  // ------------------------------------------------------------ reading

  /** The row as `include: includeCategories` returns it, join rows in category-table order. */
  function Include(db: Db, a: Announcement): Included {
    var cats := LinkedCategories(db.categories, db.links, a.id);
    Included(a.id, a.title, a.content, a.publicationDate, a.createdAt, a.updatedAt,
      seq(|cats|, i requires 0 <= i < |cats| => JoinRow(a.id, cats[i].id, cats[i])))
  }

  /** What the service returns for a row: its flattened included form. */
  function Respond(db: Db, a: Announcement): AnnouncementResponse {
    ToAnnouncementResponse(Include(db, a))
  }

  function ResponseCategoryIds(r: AnnouncementResponse): set<int> {
    set c | c in r.categories :: c.id
  }

  /** The response of a row carries the row's fields and exactly the categories it is filed under. */
  lemma RespondFields(db: Db, a: Announcement)
    requires Valid(db)
    ensures Respond(db, a).id == a.id && Respond(db, a).title == a.title && Respond(db, a).content == a.content
    ensures Respond(db, a).publicationDate == a.publicationDate
    ensures Respond(db, a).createdAt == a.createdAt && Respond(db, a).updatedAt == a.updatedAt
    ensures ResponseCategoryIds(Respond(db, a)) == LinkedIds(db, a.id)
  {
    var cats := LinkedCategories(db.categories, db.links, a.id);
    LinkedCategoryIds(db, a.id);
    RespondCategories(Include(db, a), cats);
  }

  /** The ids in the response are the ids of the categories included. */
  lemma RespondCategories(x: Included, cats: seq<Category>)
    requires |x.categories| == |cats|
    requires forall i :: 0 <= i < |cats| ==> x.categories[i].category == cats[i]
    ensures ResponseCategoryIds(ToAnnouncementResponse(x)) == set c | c in cats :: c.id
  {
    var r := ToAnnouncementResponse(x);
    forall k | k in ResponseCategoryIds(r)
      ensures k in (set c | c in cats :: c.id)
    {
      var c :| c in r.categories && c.id == k;
      var i :| 0 <= i < |r.categories| && r.categories[i] == c;
      assert cats[i] in cats;
    }
    forall k | k in (set c | c in cats :: c.id)
      ensures k in ResponseCategoryIds(r)
    {
      var c :| c in cats && c.id == k;
      var i :| 0 <= i < |cats| && cats[i] == c;
      assert r.categories[i] in r.categories;
    }
  }

  /** The search filter: an absent or empty search term admits every row. */
  predicate SearchMatches(a: Announcement, search: Option<string>) {
    || search.None? || search.value == ""
    || ContainsInsensitive(a.title, search.value)
    || ContainsInsensitive(a.content, search.value)
  }

  /** The category filter: an absent category or category 0 admits every row. */
  predicate CategoryMatches(db: Db, a: Announcement, categoryId: Option<int>) {
    categoryId.None? || categoryId.value == 0 || Link(a.id, categoryId.value) in db.links
  }

  predicate Selected(db: Db, a: Announcement, search: Option<string>, categoryId: Option<int>) {
    SearchMatches(a, search) && CategoryMatches(db, a, categoryId)
  }

  /** The rows of `s` that pass both filters, in their order. */
  function Matching(db: Db, s: seq<Announcement>, search: Option<string>, categoryId: Option<int>): (r: seq<Announcement>)
    ensures forall a :: a in r <==> a in s && Selected(db, a, search, categoryId)
    ensures multiset(r) <= multiset(s)
  {
    if s == [] then []
    else
      assert s == [s[0]] + s[1..];
      (if Selected(db, s[0], search, categoryId) then [s[0]] else []) + Matching(db, s[1..], search, categoryId)
  }

  /** Ordered by `updatedAt`, newest first. */
  predicate NewestFirst(s: seq<Announcement>) {
    forall i, j :: 0 <= i < j < |s| ==> s[i].updatedAt >= s[j].updatedAt
  }

  /** Inserts `a` before the first row not newer than it. */
  function InsertByUpdated(a: Announcement, s: seq<Announcement>): (r: seq<Announcement>)
    requires NewestFirst(s)
    ensures NewestFirst(r)
    ensures multiset(r) == multiset(s) + multiset{a}
    ensures |r| == |s| + 1
  {
    if s == [] || a.updatedAt >= s[0].updatedAt then
      ConsNewest(a, s);
      [a] + s
    else
      var tail := s[1..];
      assert s == [s[0]] + tail;
      assert multiset(s) == multiset{s[0]} + multiset(tail);
      TailNewest(s);
      var rest := InsertByUpdated(a, tail);
      HeadNewest(s[0], a, tail, rest);
      [s[0]] + rest
  }

  /** A row at least as new as the head of an ordered table may be put before it. */
  lemma ConsNewest(a: Announcement, s: seq<Announcement>)
    requires NewestFirst(s) && (s == [] || a.updatedAt >= s[0].updatedAt)
    ensures NewestFirst([a] + s)
  {
    var r := [a] + s;
    forall i, j | 0 <= i < j < |r|
      ensures r[i].updatedAt >= r[j].updatedAt
    {
      if i == 0 {
        assert r[j] == s[j - 1];
      } else {
        assert r[i] == s[i - 1] && r[j] == s[j - 1];
      }
    }
  }

  lemma TailNewest(s: seq<Announcement>)
    requires NewestFirst(s) && s != []
    ensures NewestFirst(s[1..])
  {
    forall i, j | 0 <= i < j < |s[1..]|
      ensures s[1..][i].updatedAt >= s[1..][j].updatedAt
    {
      assert s[1..][i] == s[i + 1] && s[1..][j] == s[j + 1];
    }
  }

  /** A row newer than `a` and than every row of `s` may head any arrangement of them. */
  lemma HeadNewest(h: Announcement, a: Announcement, s: seq<Announcement>, rest: seq<Announcement>)
    requires NewestFirst([h] + s) && NewestFirst(rest)
    requires a.updatedAt <= h.updatedAt
    requires multiset(rest) == multiset(s) + multiset{a}
    ensures NewestFirst([h] + rest)
  {
    forall j | 0 <= j < |rest|
      ensures rest[j].updatedAt <= h.updatedAt
    {
      assert rest[j] in multiset(rest);
      if rest[j] != a {
        assert rest[j] in multiset(s);
        var k :| 0 <= k < |s| && s[k] == rest[j];
        assert ([h] + s)[0] == h && ([h] + s)[k + 1] == s[k];
      }
    }
    var r := [h] + rest;
    forall i, j | 0 <= i < j < |r|
      ensures r[i].updatedAt >= r[j].updatedAt
    {
      if i > 0 {
        assert r[i] == rest[i - 1] && r[j] == rest[j - 1];
      } else {
        assert r[j] == rest[j - 1];
      }
    }
  }

  /** `orderBy: { updatedAt: 'desc' }`: the rows, newest first (ties in no promised order). */
  function SortByUpdated(s: seq<Announcement>): (r: seq<Announcement>)
    ensures NewestFirst(r)
    ensures multiset(r) == multiset(s)
    ensures |r| == |s|
  {
    if s == [] then []
    else
      assert s == [s[0]] + s[1..];
      InsertByUpdated(s[0], SortByUpdated(s[1..]))
  }

  function RespondEach(db: Db, s: seq<Announcement>): seq<AnnouncementResponse> {
    seq(|s|, i requires 0 <= i < |s| => Respond(db, s[i]))
  }

  /**
   * `findAll`: every row that passes both filters, and no other, each
   * once, flattened, newest first.
   */
  function FindAll(db: Db, search: Option<string>, categoryId: Option<int>): (r: seq<AnnouncementResponse>)
    ensures |r| == |Matching(db, db.announcements, search, categoryId)|
    ensures forall i :: 0 <= i < |r| ==>
              exists a :: a in db.announcements && Selected(db, a, search, categoryId) && r[i] == Respond(db, a)
    ensures forall a :: a in db.announcements && Selected(db, a, search, categoryId) ==> Respond(db, a) in r
    ensures forall i, j :: 0 <= i < j < |r| ==> r[i].updatedAt >= r[j].updatedAt
  {
    var matching := Matching(db, db.announcements, search, categoryId);
    var sorted := SortByUpdated(matching);
    var r := RespondEach(db, sorted);
    FindAllFacts(db, search, categoryId, matching, sorted, r);
    r
  }

  lemma FindAllFacts(db: Db, search: Option<string>, categoryId: Option<int>,
                     matching: seq<Announcement>, sorted: seq<Announcement>, r: seq<AnnouncementResponse>)
    requires matching == Matching(db, db.announcements, search, categoryId)
    requires NewestFirst(sorted) && multiset(sorted) == multiset(matching)
    requires |r| == |sorted| && forall i :: 0 <= i < |sorted| ==> r[i] == Respond(db, sorted[i])
    ensures forall i :: 0 <= i < |r| ==>
              exists a :: a in db.announcements && Selected(db, a, search, categoryId) && r[i] == Respond(db, a)
    ensures forall a :: a in db.announcements && Selected(db, a, search, categoryId) ==> Respond(db, a) in r
    ensures forall i, j :: 0 <= i < j < |r| ==> r[i].updatedAt >= r[j].updatedAt
  {
    forall i | 0 <= i < |r|
      ensures exists a :: a in db.announcements && Selected(db, a, search, categoryId) && r[i] == Respond(db, a)
    {
      assert sorted[i] in multiset(matching);
    }
    forall a | a in db.announcements && Selected(db, a, search, categoryId)
      ensures Respond(db, a) in r
    {
      assert a in multiset(sorted);
      var i :| 0 <= i < |sorted| && sorted[i] == a;
      assert r[i] == Respond(db, a);
    }
  }

  /** An empty search and an absent category leave every row in the list. */
  lemma FindAllUnfiltered(db: Db, search: Option<string>, categoryId: Option<int>)
    requires search.None? || search.value == ""
    requires categoryId.None? || categoryId.value == 0
    ensures forall a :: a in db.announcements ==> Respond(db, a) in FindAll(db, search, categoryId)
  {
  }

  /**
   * `findOne`: not found exactly when no row has the id, and otherwise the
   * flattened row.
   */
  function FindOne(db: Db, id: int): (r: Result<AnnouncementResponse, Failure>)
    ensures r.Failure? <==> id !in AnnouncementIds(db)
    ensures r.Failure? ==> r.error == NotFound(NotFoundMessage(id))
    ensures r.Success? ==> exists a :: a in db.announcements && a.id == id && r.value == Respond(db, a)
  {
    match Lookup(db.announcements, id)
    case None => Failure(NotFound(NotFoundMessage(id)))
    case Some(a) => Success(Respond(db, a))
  }

  // ------------------------------------------------------------ writing

  /** The body `create` receives, after the request pipe has accepted it. */
  datatype CreateInput = CreateInput(title: string, content: string, publicationDate: string, categoryIds: seq<int>)

  /** The row `create` writes: the next id, title and content verbatim, both timestamps `now`. */
  function NewRow(db: Db, input: CreateInput, now: int): Announcement
    requires MatchesDateFormat(input.publicationDate)
  {
    Announcement(db.nextId, input.title, input.content, ParsePublicationDate(input.publicationDate), now, now)
  }

  /** The table after writing row `a` with one join row per id in `ids`; the autoincrement moves past `a`. */
  function Insert(db: Db, a: Announcement, ids: seq<int>): Db {
    Db(db.announcements + [a], db.categories, db.links + LinksTo(a.id, ids), db.nextId + 1)
  }

  /** No id is sent twice (the join table holds one row per pair, so a repeat violates its key). */
  predicate Distinct(ids: seq<int>) {
    forall i, j :: 0 <= i < j < |ids| ==> ids[i] != ids[j]
  }

  /**
   * `create`: the category ids are checked before anything is written; then
   * the row and one join row per category id are written in one nested
   * write, and the new row is returned flattened. A repeated id breaks the
   * key of the join table and the whole write fails. `now` is the database
   * clock at the write.
   */
  function Create(db: Db, input: CreateInput, now: int): (rep: Reply<AnnouncementResponse>)
    requires MatchesDateFormat(input.publicationDate)
    ensures rep.result.Failure? <==> !CategoriesExist(db, Given(input.categoryIds)) || !Distinct(input.categoryIds)
    ensures rep.result.Failure? ==> rep.db == db
    ensures !CategoriesExist(db, Given(input.categoryIds)) ==>
              rep.result.error == BadRequest(MissingCategoriesMessage(MissingIds(input.categoryIds, CategoryIds(db))))
    ensures rep.result == Failure(ServerError) <==> CategoriesExist(db, Given(input.categoryIds)) && !Distinct(input.categoryIds)
    ensures rep.result.Success? ==> rep.db.announcements == db.announcements + [NewRow(db, input, now)]
  {
    var check := ValidateCategoryIds(db, input.categoryIds);
    if check.Fail? then Reply(db, Failure(check.error))
    else if !Distinct(input.categoryIds) then Reply(db, Failure(ServerError))
    else
      var a := NewRow(db, input, now);
      var db' := Insert(db, a, input.categoryIds);
      Reply(db', Success(Respond(db', a)))
  }

  /** Writing a row under the next id with existing categories keeps the database valid. */
  lemma InsertValid(db: Db, a: Announcement, ids: seq<int>)
    requires Valid(db) && a.id == db.nextId
    requires forall i :: 0 <= i < |ids| ==> ids[i] in CategoryIds(db)
    ensures Valid(Insert(db, a, ids))
  {
    var db' := Insert(db, a, ids);
    forall i, j | 0 <= i < j < |db'.announcements|
      ensures db'.announcements[i].id != db'.announcements[j].id
    {
      if j == |db.announcements| {
        assert db.announcements[i] in db.announcements;
      } else {
        assert db'.announcements[i] == db.announcements[i] && db'.announcements[j] == db.announcements[j];
      }
    }
    assert AnnouncementIds(db') == AnnouncementIds(db) + {a.id};
    forall l | l in db'.links
      ensures l.announcementId in AnnouncementIds(db') && l.categoryId in CategoryIds(db')
    {
      if l !in db.links {
        var i :| 0 <= i < |ids| && ids[i] == l.categoryId;
      }
    }
  }

  /** The row written under the next id is found under that id. */
  lemma InsertFound(db: Db, a: Announcement, ids: seq<int>)
    requires Valid(db) && a.id == db.nextId
    ensures db.nextId !in AnnouncementIds(db)
    ensures Lookup(Insert(db, a, ids).announcements, a.id) == Some(a)
  {
    var s := Insert(db, a, ids).announcements;
    forall i, j | 0 <= i < j < |s|
      ensures s[i].id != s[j].id
    {
      if j == |db.announcements| {
        assert db.announcements[i] in db.announcements;
      } else {
        assert s[i] == db.announcements[i] && s[j] == db.announcements[j];
      }
    }
    assert a in s;
    LookupUnique(s, a);
  }

  /** The new row is filed under exactly the given categories, and no other row's categories change. */
  lemma InsertLinks(db: Db, a: Announcement, ids: seq<int>)
    requires Valid(db) && a.id == db.nextId
    ensures LinkedIds(Insert(db, a, ids), a.id) == set c | c in ids
    ensures forall k :: k != a.id ==> LinkedIds(Insert(db, a, ids), k) == LinkedIds(db, k)
  {
    var db' := Insert(db, a, ids);
    forall l | l in db.links
      ensures l.announcementId != a.id
    {
    }
    forall c | c in ids
      ensures c in LinkedIds(db', a.id)
    {
      assert Link(a.id, c) in db'.links;
    }
    forall k | k != a.id
      ensures LinkedIds(db', k) == LinkedIds(db, k)
    {
    }
  }

  /**
   * A successful create stores the new row under a fresh id, files it under
   * exactly the given categories, returns it with those categories, and
   * leaves every other row and its categories as they were.
   */
  lemma CreateStores(db: Db, input: CreateInput, now: int)
    requires Valid(db) && MatchesDateFormat(input.publicationDate)
    requires Create(db, input, now).result.Success?
    ensures db.nextId !in AnnouncementIds(db)
    ensures Lookup(Create(db, input, now).db.announcements, db.nextId) == Some(NewRow(db, input, now))
    ensures LinkedIds(Create(db, input, now).db, db.nextId) == set c | c in input.categoryIds
    ensures Create(db, input, now).result.value == Respond(Create(db, input, now).db, NewRow(db, input, now))
    ensures ResponseCategoryIds(Create(db, input, now).result.value) == set c | c in input.categoryIds
    ensures forall k :: k != db.nextId ==> LinkedIds(Create(db, input, now).db, k) == LinkedIds(db, k)
    ensures Valid(Create(db, input, now).db)
  {
    var a := NewRow(db, input, now);
    var ids := input.categoryIds;
    var db' := Insert(db, a, ids);
    assert Create(db, input, now) == Reply(db', Success(Respond(db', a)));
    InsertValid(db, a, ids);
    InsertFound(db, a, ids);
    InsertLinks(db, a, ids);
    RespondFields(db', a);
  }

  /** A field of the update body: left out, sent as `null`, or sent with a value. */
  datatype Field<T> = Absent | Null | Given(value: T)

  /** The body `update` receives, after the request pipe has accepted it. */
  datatype UpdateInput = UpdateInput(
    title: Field<string>,
    content: Field<string>,
    publicationDate: Field<string>,
    categoryIds: Field<seq<int>>)

  /** The value a field sets, or the old value when the field was left out. */
  function Applied<T>(f: Field<T>, current: T): T {
    if f.Given? then f.value else current
  }

  /** What the pipe guarantees of a sent date: it has the request format. */
  predicate DateReadable(input: UpdateInput) {
    input.publicationDate.Given? ==> MatchesDateFormat(input.publicationDate.value)
  }

  /** The row `update` writes over `a`: every sent field, the rest kept, `updatedAt` moved to `now`. */
  function UpdatedRow(a: Announcement, input: UpdateInput, now: int): Announcement
    requires DateReadable(input)
  {
    var date := if input.publicationDate.Given? then ParsePublicationDate(input.publicationDate.value) else a.publicationDate;
    Announcement(a.id, Applied(input.title, a.title), Applied(input.content, a.content), date, a.createdAt, now)
  }

  /**
   * `update`, step by step: the row must exist; sent category ids are
   * checked (a `null` list fails inside the database client); a sent date
   * is parsed (a `null` date fails in `split`); sent category ids delete
   * the row's join rows; then the row is written with the sent fields and
   * the new join rows (a `null` title or content, or a repeated category
   * id, fails here, after the deletion has been committed).
   */
  function Update(db: Db, id: int, input: UpdateInput, now: int): (rep: Reply<AnnouncementResponse>)
    requires DateReadable(input)
    ensures id !in AnnouncementIds(db) ==> rep == Reply(db, Failure(NotFound(NotFoundMessage(id))))
    ensures (id in AnnouncementIds(db) && input.categoryIds.Given?
             && exists i :: 0 <= i < |input.categoryIds.value| && input.categoryIds.value[i] !in CategoryIds(db))
            ==> rep == Reply(db, Failure(BadRequest(MissingCategoriesMessage(MissingIds(input.categoryIds.value, CategoryIds(db))))))
    ensures id in AnnouncementIds(db) && input.categoryIds.Null? ==> rep == Reply(db, Failure(ServerError))
    ensures (id in AnnouncementIds(db) && input.publicationDate.Null? && !input.categoryIds.Null?
             && (input.categoryIds.Given? ==> forall k :: k in input.categoryIds.value ==> k in CategoryIds(db)))
            ==> rep == Reply(db, Failure(ServerError))
  {
    match Lookup(db.announcements, id)
    case None => Reply(db, Failure(NotFound(NotFoundMessage(id))))
    case Some(a) =>
      if input.categoryIds.Null? then Reply(db, Failure(ServerError))
      else
        var check := if input.categoryIds.Given? then ValidateCategoryIds(db, input.categoryIds.value) else Pass;
        if check.Fail? then Reply(db, Failure(check.error))
        else if input.publicationDate.Null? then Reply(db, Failure(ServerError))
        else
          var cleared := ClearLinks(db, id, input.categoryIds);
          if input.title.Null? || input.content.Null? || (input.categoryIds.Given? && !Distinct(input.categoryIds.value))
          then Reply(cleared, Failure(ServerError))
          else
            var b := UpdatedRow(a, input, now);
            var db' := Rewrite(cleared, b, input.categoryIds);
            Reply(db', Success(Respond(db', b)))
  }

  /** `deleteMany` on the join rows of `id`, run only when category ids were sent. */
  function ClearLinks(db: Db, id: int, categoryIds: Field<seq<int>>): Db {
    if categoryIds.Given? then db.(links := db.links - LinksOf(db.links, id)) else db
  }

  /** The row `b` written in place over its namesake, with one join row per sent category id. */
  function Rewrite(db: Db, b: Announcement, categoryIds: Field<seq<int>>): Db {
    var added := if categoryIds.Given? then LinksTo(b.id, categoryIds.value) else {};
    db.(announcements := Replace(db.announcements, b), links := db.links + added)
  }

  /** No field of the body is `null`. */
  predicate NoNulls(input: UpdateInput) {
    !input.title.Null? && !input.content.Null? && !input.publicationDate.Null? && !input.categoryIds.Null?
  }

  /** Sent category ids all name categories. */
  predicate CategoriesExist(db: Db, categoryIds: Field<seq<int>>) {
    categoryIds.Given? ==> forall i :: 0 <= i < |categoryIds.value| ==> categoryIds.value[i] in CategoryIds(db)
  }

  /**
   * An update succeeds exactly when the row exists, no field is `null`, and
   * the sent category ids, if any, name categories and are all different.
   */
  lemma UpdateSucceedsIff(db: Db, id: int, input: UpdateInput, now: int)
    requires DateReadable(input)
    ensures Update(db, id, input, now).result.Success? <==>
              && id in AnnouncementIds(db) && NoNulls(input) && CategoriesExist(db, input.categoryIds)
              && (input.categoryIds.Given? ==> Distinct(input.categoryIds.value))
  {
  }

  /** Rewriting an existing row, with join rows to existing categories only, keeps the database valid. */
  lemma RewriteValid(db: Db, b: Announcement, categoryIds: Field<seq<int>>)
    requires Valid(db) && b.id in AnnouncementIds(db) && CategoriesExist(db, categoryIds)
    ensures Valid(Rewrite(ClearLinks(db, b.id, categoryIds), b, categoryIds))
  {
    var db' := Rewrite(ClearLinks(db, b.id, categoryIds), b, categoryIds);
    ReplaceKeys(db.announcements, b);
    ReplaceUnique(db.announcements, b);
    assert AnnouncementIds(db') == AnnouncementIds(db);
    forall l | l in db'.links
      ensures l.announcementId in AnnouncementIds(db') && l.categoryId in CategoryIds(db')
    {
      if l !in db.links {
        var i :| 0 <= i < |categoryIds.value| && categoryIds.value[i] == l.categoryId;
      }
    }
    forall x | x in db'.announcements
      ensures 1 <= x.id < db'.nextId
    {
    }
  }

  /**
   * After the rewrite the row has exactly the sent category ids when some
   * were sent and its old ones otherwise; no other row's categories change.
   */
  lemma RewriteLinks(db: Db, b: Announcement, categoryIds: Field<seq<int>>)
    ensures categoryIds.Given? ==>
              LinkedIds(Rewrite(ClearLinks(db, b.id, categoryIds), b, categoryIds), b.id) == set c | c in categoryIds.value
    ensures categoryIds.Absent? ==>
              LinkedIds(Rewrite(ClearLinks(db, b.id, categoryIds), b, categoryIds), b.id) == LinkedIds(db, b.id)
    ensures forall k :: k != b.id ==>
              LinkedIds(Rewrite(ClearLinks(db, b.id, categoryIds), b, categoryIds), k) == LinkedIds(db, k)
  {
    var db' := Rewrite(ClearLinks(db, b.id, categoryIds), b, categoryIds);
    if categoryIds.Given? {
      forall c | c in categoryIds.value
        ensures c in LinkedIds(db', b.id)
      {
        assert Link(b.id, c) in db'.links;
      }
    }
    forall k | k != b.id
      ensures LinkedIds(db', k) == LinkedIds(db, k)
    {
    }
  }

  /**
   * A successful update writes the sent fields and keeps the others, moves
   * `updatedAt` to `now`, replaces the row's categories by the sent ids when
   * there are any and keeps them otherwise, returns the row as written, and
   * leaves every other row and its categories as they were.
   */
  lemma UpdateStores(db: Db, id: int, input: UpdateInput, now: int, a: Announcement)
    requires Valid(db) && DateReadable(input)
    requires a in db.announcements && a.id == id
    requires Update(db, id, input, now).result.Success?
    ensures Lookup(Update(db, id, input, now).db.announcements, id) == Some(UpdatedRow(a, input, now))
    ensures input.categoryIds.Given? ==>
              LinkedIds(Update(db, id, input, now).db, id) == set c | c in input.categoryIds.value
    ensures input.categoryIds.Absent? ==> LinkedIds(Update(db, id, input, now).db, id) == LinkedIds(db, id)
    ensures Update(db, id, input, now).result.value == Respond(Update(db, id, input, now).db, UpdatedRow(a, input, now))
    ensures forall x :: x in db.announcements && x.id != id ==> x in Update(db, id, input, now).db.announcements
    ensures forall x :: x in Update(db, id, input, now).db.announcements ==> x == UpdatedRow(a, input, now) || x in db.announcements
    ensures forall k :: k != id ==> LinkedIds(Update(db, id, input, now).db, k) == LinkedIds(db, k)
    ensures Update(db, id, input, now).db.categories == db.categories
    ensures Valid(Update(db, id, input, now).db)
  {
    LookupUnique(db.announcements, a);
    var b := UpdatedRow(a, input, now);
    var c := input.categoryIds;
    var db' := Rewrite(ClearLinks(db, id, c), b, c);
    assert Update(db, id, input, now) == Reply(db', Success(Respond(db', b)));
    assert b.id == id && id in AnnouncementIds(db);
    ReplaceKeys(db.announcements, b);
    ReplaceUnique(db.announcements, b);
    RewriteLinks(db, b, c);
    RewriteValid(db, b, c);
  }

  /**
   * The update is not atomic: when category ids that all exist are sent but
   * the final write fails (a `null` title or content, or a repeated id), the
   * row's join rows have already been deleted, so the row is left with no
   * category while every field and every other row's categories are kept.
   */
  lemma UpdatePartialFailure(db: Db, id: int, input: UpdateInput, now: int)
    requires DateReadable(input)
    requires id in AnnouncementIds(db) && input.categoryIds.Given? && CategoriesExist(db, input.categoryIds)
    requires !input.publicationDate.Null?
    requires input.title.Null? || input.content.Null? || !Distinct(input.categoryIds.value)
    ensures Update(db, id, input, now).result == Failure(ServerError)
    ensures LinkedIds(Update(db, id, input, now).db, id) == {}
    ensures forall k :: k != id ==> LinkedIds(Update(db, id, input, now).db, k) == LinkedIds(db, k)
    ensures Update(db, id, input, now).db.announcements == db.announcements
  {
    var db' := Update(db, id, input, now).db;
    assert db' == ClearLinks(db, id, input.categoryIds);
    forall k | k != id
      ensures LinkedIds(db', k) == LinkedIds(db, k)
    {
    }
  }

  /**
   * `remove`: not found when no row has the id; otherwise the row and all
   * its join rows are deleted and the row is returned as it was.
   */
  function Remove(db: Db, id: int): (rep: Reply<AnnouncementResponse>)
    ensures rep.result.Failure? <==> id !in AnnouncementIds(db)
    ensures rep.result.Failure? ==> rep.db == db && rep.result.error == NotFound(NotFoundMessage(id))
    ensures rep.result.Success? ==>
              exists a :: a in db.announcements && a.id == id && rep.result.value == Respond(db, a)
  {
    match Lookup(db.announcements, id)
    case None => Reply(db, Failure(NotFound(NotFoundMessage(id))))
    case Some(a) =>
      Reply(Db(Without(db.announcements, id), db.categories, db.links - LinksOf(db.links, id), db.nextId),
            Success(Respond(db, a)))
  }

  /** After a removal the id is gone with its join rows, and every other row and join row is kept. */
  lemma RemoveDeletes(db: Db, id: int)
    requires Valid(db)
    requires Remove(db, id).result.Success?
    ensures id !in AnnouncementIds(Remove(db, id).db)
    ensures LinkedIds(Remove(db, id).db, id) == {}
    ensures forall a :: a in db.announcements && a.id != id ==> a in Remove(db, id).db.announcements
    ensures forall k :: k != id ==> LinkedIds(Remove(db, id).db, k) == LinkedIds(db, k)
    ensures Valid(Remove(db, id).db)
  {
    var db' := Remove(db, id).db;
    assert db' == Db(Without(db.announcements, id), db.categories, db.links - LinksOf(db.links, id), db.nextId);
    WithoutUnique(db.announcements, id);
    forall k | k != id
      ensures LinkedIds(db', k) == LinkedIds(db, k)
    {
    }
  }

  lemma {:induction false} WithoutUnique(s: seq<Announcement>, id: int)
    requires UniqueAnnouncementIds(s)
    ensures UniqueAnnouncementIds(Without(s, id))
    decreases |s|
  {
    if s != [] {
      WithoutUnique(s[1..], id);
      if s[0].id != id {
        var r := Without(s, id);
        assert r == [s[0]] + Without(s[1..], id);
        forall j | 0 < j < |r|
          ensures r[0].id != r[j].id
        {
          assert r[j] in Without(s[1..], id);
          var k :| 0 <= k < |s[1..]| && s[1..][k] == r[j];
          assert s[k + 1] == r[j];
        }
      }
    }
  }

  /** Reading back a created row finds it, as create returned it. */
  lemma FindOneAfterCreate(db: Db, input: CreateInput, now: int)
    requires Valid(db) && MatchesDateFormat(input.publicationDate)
    requires Create(db, input, now).result.Success?
    ensures FindOne(Create(db, input, now).db, db.nextId) == Create(db, input, now).result
  {
    CreateStores(db, input, now);
  }

  /** Reading back a removed row finds nothing. */
  lemma FindOneAfterRemove(db: Db, id: int)
    requires Valid(db)
    requires Remove(db, id).result.Success?
    ensures FindOne(Remove(db, id).db, id) == Failure(NotFound(NotFoundMessage(id)))
  {
    RemoveDeletes(db, id);
  }
}
