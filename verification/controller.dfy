/**
 * The announcement controller and what surrounds one request: the
 * validation pipe in front of it, the service behind it, and the
 * WebSocket gateway it notifies after a successful create.
 */
module AnnouncementsController {
  import opened Wrappers
  import opened DateFormat
  import opened Store
  import opened Response
  import opened AnnouncementsService
  import opened Dto

  /** The event name the gateway broadcasts a new announcement under. */
  const CreatedEvent := "announcement:created"

  /** A broadcast of the gateway: its name and the announcement it carries. */
  datatype Event = Event(name: string, payload: AnnouncementResponse)

  /** The server: the database and every event broadcast so far, oldest first. */
  datatype Server = Server(db: Db, events: seq<Event>)

  /**
   * `findAll` of the controller: the query's search and category handed to
   * the service unchanged, so the list holds exactly the announcements that
   * pass the query's own filters, newest first; a query without search or
   * category lists every announcement.
   */
  function FindAllRoute(s: Server, q: Query): (r: seq<AnnouncementResponse>)
    requires QueryAccepts(q)
    ensures forall a :: a in s.db.announcements && Selected(s.db, a, FindArgs(q).0, FindArgs(q).1) ==> Respond(s.db, a) in r
    ensures forall i :: 0 <= i < |r| ==>
              exists a :: a in s.db.announcements && Selected(s.db, a, FindArgs(q).0, FindArgs(q).1) && r[i] == Respond(s.db, a)
    ensures forall i, j :: 0 <= i < j < |r| ==> r[i].updatedAt >= r[j].updatedAt
    ensures q.search.None? && q.category.None? ==> forall a :: a in s.db.announcements ==> Respond(s.db, a) in r
  {
    var args := FindArgs(q);
    var r := FindAll(s.db, args.0, args.1);
    assert q.search.None? && q.category.None? ==> forall a :: a in s.db.announcements ==> Respond(s.db, a) in r by {
      if q.search.None? && q.category.None? {
        FindAllUnfiltered(s.db, args.0, args.1);
      }
    }
    r
  }

  /**
   * `create` of the controller: the service's create, then, only once it
   * has returned, one `announcement:created` broadcast of the very response
   * the client receives.
   */
  function CreateRoute(s: Server, input: CreateInput, now: int): (r: (Server, Result<AnnouncementResponse, Failure>))
    requires MatchesDateFormat(input.publicationDate)
    ensures r.1 == Create(s.db, input, now).result && r.0.db == Create(s.db, input, now).db
    ensures r.1.Success? ==> r.0.events == s.events + [Event(CreatedEvent, r.1.value)]
    ensures r.1.Failure? ==> r.0.events == s.events
  {
    var rep := Create(s.db, input, now);
    if rep.result.Success? then (Server(rep.db, s.events + [Event(CreatedEvent, rep.result.value)]), rep.result)
    else (Server(rep.db, s.events), rep.result)
  }

  /** `update` of the controller: the service's update, with no broadcast. */
  function UpdateRoute(s: Server, id: int, input: UpdateInput, now: int): (r: (Server, Result<AnnouncementResponse, Failure>))
    requires DateReadable(input)
    ensures r.1 == Update(s.db, id, input, now).result && r.0.db == Update(s.db, id, input, now).db
    ensures r.0.events == s.events
  {
    var rep := Update(s.db, id, input, now);
    (Server(rep.db, s.events), rep.result)
  }

  /** `remove` of the controller: the service's remove, with no broadcast. */
  function RemoveRoute(s: Server, id: int): (r: (Server, Result<AnnouncementResponse, Failure>))
    ensures r.1 == Remove(s.db, id).result && r.0.db == Remove(s.db, id).db
    ensures r.0.events == s.events
  {
    var rep := Remove(s.db, id);
    (Server(rep.db, s.events), rep.result)
  }

  /**
   * A create broadcasts exactly one event, named `announcement:created` and
   * carrying the response, exactly when it succeeds; a failed create changes
   * neither the database nor the events.
   */
  lemma CreateBroadcasts(s: Server, input: CreateInput, now: int)
    requires MatchesDateFormat(input.publicationDate)
    ensures CreateRoute(s, input, now).1.Success? ==>
              CreateRoute(s, input, now).0.events == s.events + [Event(CreatedEvent, CreateRoute(s, input, now).1.value)]
    ensures CreateRoute(s, input, now).1.Failure? ==> CreateRoute(s, input, now).0 == s
    ensures CreateRoute(s, input, now).0.db == Create(s.db, input, now).db
    ensures CreateRoute(s, input, now).1 == Create(s.db, input, now).result
  {
  }

  /** Updates and removals never broadcast, whatever their outcome. */
  lemma OnlyCreateBroadcasts(s: Server, id: int, input: UpdateInput, now: int)
    requires DateReadable(input)
    ensures UpdateRoute(s, id, input, now).0.events == s.events
    ensures RemoveRoute(s, id).0.events == s.events
    ensures UpdateRoute(s, id, input, now).0.db == Update(s.db, id, input, now).db
    ensures RemoveRoute(s, id).0.db == Remove(s.db, id).db
  {
  }

  // ------------------------------------------------------- HTTP requests

  /**
   * A request to the announcement routes. A route id is what `ParseIntPipe`
   * made of the path segment: None when it refused it.
   */
  datatype Request =
    | List(query: Query)
    | Show(id: Option<int>)
    | Post(body: Body)
    | Patch(id: Option<int>, body: Body)
    | Delete(id: Option<int>)

  /** What the client receives. */
  datatype Payload =
    | One(announcement: AnnouncementResponse)
    | Many(announcements: seq<AnnouncementResponse>)
    | Message(message: string)
    | Refused
    | Internal

  datatype HttpResponse = HttpResponse(status: int, payload: Payload)

  /** A service outcome as an HTTP response; `okStatus` is 201 for a create and 200 otherwise. */
  function Answer(r: Result<AnnouncementResponse, Failure>, okStatus: int): HttpResponse {
    match r
    case Success(a) => HttpResponse(okStatus, One(a))
    case Failure(NotFound(m)) => HttpResponse(404, Message(m))
    case Failure(BadRequest(m)) => HttpResponse(400, Message(m))
    case Failure(ServerError) => HttpResponse(500, Internal)
  }

  /**
   * One request: the pipes first (the route id, then the body or query,
   * each refused with 400 before the controller runs), then the
   * controller. `now` is the database clock for a write.
   */
  function Handle(s: Server, req: Request, now: int): (r: (Server, HttpResponse))
    ensures r.1.status in {200, 201, 400, 404, 500}
    ensures r.1.payload.Refused? ==> r.0 == s && r.1.status == 400
    ensures (req.Show? || req.Patch? || req.Delete?) && req.id.None? ==> r == (s, HttpResponse(400, Refused))
    ensures req.List? ==> (r.1.payload.Refused? <==> !QueryAccepts(req.query))
    ensures req.Post? ==> (r.1.payload.Refused? <==> !CreateAccepts(req.body))
    ensures req.Patch? && req.id.Some? ==> (r.1.payload.Refused? <==> !UpdateAccepts(req.body))
    ensures req.List? || req.Show? ==> r.0 == s
    ensures r.0.events == s.events || (req.Post? && r.1.status == 201)
  {
    match req
    case List(q) =>
      if !QueryAccepts(q) then (s, HttpResponse(400, Refused))
      else (s, HttpResponse(200, Many(FindAllRoute(s, q))))
    case Show(id) =>
      if id.None? then (s, HttpResponse(400, Refused))
      else (s, Answer(FindOne(s.db, id.value), 200))
    case Post(body) =>
      if !CreateAccepts(body) then (s, HttpResponse(400, Refused))
      else
        var c := CreateRoute(s, CreateInputOf(body), now);
        (c.0, Answer(c.1, 201))
    case Patch(id, body) =>
      if id.None? || !UpdateAccepts(body) then (s, HttpResponse(400, Refused))
      else
        var u := UpdateRoute(s, id.value, UpdateInputOf(body), now);
        (u.0, Answer(u.1, 200))
    case Delete(id) =>
      if id.None? then (s, HttpResponse(400, Refused))
      else
        var d := RemoveRoute(s, id.value);
        (d.0, Answer(d.1, 200))
  }

  /** Reads change nothing, and a request the pipes refuse changes nothing. */
  lemma ReadsAndRefusalsChangeNothing(s: Server, req: Request, now: int)
    requires req.List? || req.Show? || Handle(s, req, now).1.payload.Refused?
    ensures Handle(s, req, now).0 == s
  {
  }

  /** A write succeeds (2xx) exactly when it returns the announcement, and a refused one changes nothing. */
  lemma WriteStatus(s: Server, req: Request, now: int)
    requires req.Post? || req.Patch? || req.Delete?
    ensures 200 <= Handle(s, req, now).1.status < 300 <==> Handle(s, req, now).1.payload.One?
    ensures Handle(s, req, now).1.status == 201 <==> req.Post? && Handle(s, req, now).1.payload.One?
  {
  }

  /**
   * The event log grows only by successful posts: after any request, the
   * events are the old ones followed by at most one `announcement:created`
   * event, present exactly when the request was a post answered 201, and
   * carrying the announcement the client received.
   */
  lemma EventsOnlyOnCreate(s: Server, req: Request, now: int)
    ensures var (s', h) := Handle(s, req, now);
            if req.Post? && h.status == 201
            then h.payload.One? && s'.events == s.events + [Event(CreatedEvent, h.payload.announcement)]
            else s'.events == s.events
  {
    match req
    case Post(body) =>
      if CreateAccepts(body) {
        CreateBroadcasts(s, CreateInputOf(body), now);
      }
    case _ =>
  }

  // ----------------------------------------------- categories on every row

  /** Every announcement is filed under at least one category. */
  predicate EveryRowFiled(db: Db) {
    forall a :: a in db.announcements ==> LinkedIds(db, a.id) != {}
  }

  /** Writing a new row with at least one category keeps every row filed. */
  lemma InsertKeepsRowsFiled(db: Db, a: Announcement, ids: seq<int>)
    requires Valid(db) && EveryRowFiled(db) && a.id == db.nextId && |ids| >= 1
    ensures EveryRowFiled(Insert(db, a, ids))
  {
    var db' := Insert(db, a, ids);
    InsertLinks(db, a, ids);
    assert ids[0] in (set c | c in ids);
    assert ids[0] in LinkedIds(db', a.id);
    forall x | x in db'.announcements
      ensures LinkedIds(db', x.id) != {}
    {
      if x.id != a.id {
        assert x in db.announcements;
        assert LinkedIds(db', x.id) == LinkedIds(db, x.id);
      }
    }
  }

  /**
   * Posting keeps every announcement filed: the create body demands at
   * least one category id, and a created row gets a join row for each.
   */
  lemma PostKeepsRowsFiled(s: Server, body: Body, now: int)
    requires Valid(s.db) && EveryRowFiled(s.db)
    ensures EveryRowFiled(Handle(s, Post(body), now).0.db)
  {
    if CreateAccepts(body) {
      var input := CreateInputOf(body);
      var rep := Create(s.db, input, now);
      if rep.result.Success? {
        var a := NewRow(s.db, input, now);
        assert rep.db == Insert(s.db, a, input.categoryIds);
        assert Handle(s, Post(body), now).0.db == rep.db;
        InsertKeepsRowsFiled(s.db, a, input.categoryIds);
      } else {
        assert Handle(s, Post(body), now).0.db == s.db;
      }
    } else {
      assert Handle(s, Post(body), now).0.db == s.db;
    }
  }

  /**
   * Removing keeps every remaining announcement filed: only the removed
   * row's join rows go.
   */
  lemma DeleteKeepsRowsFiled(s: Server, id: Option<int>, now: int)
    requires Valid(s.db) && EveryRowFiled(s.db)
    ensures EveryRowFiled(Handle(s, Delete(id), now).0.db)
  {
    if id.Some? && Remove(s.db, id.value).result.Success? {
      RemoveDeletes(s.db, id.value);
      var db' := Remove(s.db, id.value).db;
      forall a | a in db'.announcements
        ensures LinkedIds(db', a.id) != {}
      {
        assert a in s.db.announcements;
      }
    }
  }

  /** A database that changes the categories of row `id` only, to a non-empty set, and adds no other row, stays filed. */
  lemma FiledAfter(db: Db, db': Db, id: int)
    requires EveryRowFiled(db) && LinkedIds(db', id) != {}
    requires forall k :: k != id ==> LinkedIds(db', k) == LinkedIds(db, k)
    requires forall x :: x in db'.announcements ==> x.id == id || x in db.announcements
    ensures EveryRowFiled(db')
  {
    forall x | x in db'.announcements
      ensures LinkedIds(db', x.id) != {}
    {
      if x.id != id {
        assert LinkedIds(db', x.id) == LinkedIds(db, x.id);
      }
    }
  }

  /** A successful update whose category ids, if sent, are at least one keeps every row filed. */
  lemma UpdateKeepsRowsFiled(db: Db, id: int, input: UpdateInput, now: int)
    requires Valid(db) && EveryRowFiled(db) && DateReadable(input)
    requires input.categoryIds.Given? ==> |input.categoryIds.value| >= 1
    requires Update(db, id, input, now).result.Success?
    ensures EveryRowFiled(Update(db, id, input, now).db)
  {
    var a := Lookup(db.announcements, id).value;
    UpdateStores(db, id, input, now, a);
    var db' := Update(db, id, input, now).db;
    if input.categoryIds.Given? {
      var ids := input.categoryIds.value;
      assert ids[0] in (set c | c in ids);
      assert ids[0] in LinkedIds(db', id);
    } else {
      assert a in db.announcements && a.id == id;
      assert LinkedIds(db', id) == LinkedIds(db, id);
    }
    FiledAfter(db, db', id);
  }

  /**
   * A patch that succeeds keeps every announcement filed: category ids it
   * sends are at least one, and without them the row keeps its own.
   */
  lemma PatchSuccessKeepsRowsFiled(s: Server, id: Option<int>, body: Body, now: int)
    requires Valid(s.db) && EveryRowFiled(s.db)
    requires Handle(s, Patch(id, body), now).1.status == 200
    ensures EveryRowFiled(Handle(s, Patch(id, body), now).0.db)
  {
    var input := UpdateInputOf(body);
    assert Handle(s, Patch(id, body), now) == (Server(Update(s.db, id.value, input, now).db, s.events),
                                               Answer(Update(s.db, id.value, input, now).result, 200));
    UpdateKeepsRowsFiled(s.db, id.value, input, now);
  }

  /**
   * A patch can leave an announcement with no category: with a category
   * that exists and a `null` title, the join rows are deleted and the
   * request then fails with status 500.
   */
  lemma NullTitlePatchUnfiles(s: Server, a: Announcement, c: int, now: int)
    requires Valid(s.db) && a in s.db.announcements && c in CategoryIds(s.db)
    ensures Handle(s, Patch(Some(a.id), map["title" := JNull, "categoryIds" := JArr([JNum(c as real)])]), now).1
            == HttpResponse(500, Internal)
    ensures LinkedIds(Handle(s, Patch(Some(a.id), map["title" := JNull, "categoryIds" := JArr([JNum(c as real)])]), now).0.db, a.id)
            == {}
  {
    var body := map["title" := JNull, "categoryIds" := JArr([JNum(c as real)])];
    assert Get(body, "title") == Some(JNull);
    assert Get(body, "content") == None && Get(body, "publicationDate") == None;
    assert Get(body, "categoryIds") == Some(JArr([JNum(c as real)]));
    assert UpdateAccepts(body);
    var input := UpdateInputOf(body);
    var ids := IdsOf(Get(body, "categoryIds"));
    assert |ids| == 1 && ids[0] == c;
    assert ids == [c];
    assert input == UpdateInput(Null, Absent, Absent, Given([c]));
    assert a.id in AnnouncementIds(s.db);
    UpdatePartialFailure(s.db, a.id, input, now);
  }
}
