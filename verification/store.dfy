/**
 * The database the announcement service works on, as an immutable value:
 * the announcement table in insertion order, the category table, the join
 * table of (announcement, category) pairs, and the next id the
 * announcement table's autoincrement hands out.
 */
module Store {
  import opened Wrappers

  datatype Category = Category(id: int, name: string)

  /** A row of the announcement table; instants are ECMAScript time values in milliseconds. */
  datatype Announcement = Announcement(
    id: int,
    title: string,
    content: string,
    publicationDate: int,
    createdAt: int,
    updatedAt: int)

  /** A row of the join table: announcement `announcementId` is filed under category `categoryId`. */
  datatype Link = Link(announcementId: int, categoryId: int)

  datatype Db = Db(
    announcements: seq<Announcement>,
    categories: seq<Category>,
    links: set<Link>,
    nextId: int)

  predicate UniqueAnnouncementIds(s: seq<Announcement>) {
    forall i, j :: 0 <= i < j < |s| ==> s[i].id != s[j].id
  }

  predicate UniqueCategoryIds(s: seq<Category>) {
    forall i, j :: 0 <= i < j < |s| ==> s[i].id != s[j].id
  }

  /** The keys of the rows of an announcement table. */
  function Ids(s: seq<Announcement>): set<int> {
    set a | a in s :: a.id
  }

  function AnnouncementIds(db: Db): set<int> {
    Ids(db.announcements)
  }

  function CategoryIds(db: Db): set<int> {
    set c | c in db.categories :: c.id
  }

  /** The ids of the categories announcement `id` is filed under. */
  function LinkedIds(db: Db, id: int): set<int> {
    set l | l in db.links && l.announcementId == id :: l.categoryId
  }

  /**
   * What the schema keeps true: ids are keys, every join row points at an
   * existing announcement and an existing category, and the autoincrement
   * is past every id it handed out.
   */
  predicate Valid(db: Db) {
    && UniqueAnnouncementIds(db.announcements)
    && UniqueCategoryIds(db.categories)
    && (forall l :: l in db.links ==> l.announcementId in AnnouncementIds(db) && l.categoryId in CategoryIds(db))
    && 1 <= db.nextId
    && (forall a :: a in db.announcements ==> 1 <= a.id < db.nextId)
  }

  /** The row with key `id`, if there is one. */
  function Lookup(s: seq<Announcement>, id: int): (r: Option<Announcement>)
    ensures r.None? <==> (forall a :: a in s ==> a.id != id)
    ensures r.Some? ==> r.value in s && r.value.id == id
  {
    if s == [] then None
    else if s[0].id == id then Some(s[0])
    else Lookup(s[1..], id)
  }

  /** Under unique keys, the row found is the only row with that key. */
  lemma {:induction false} LookupUnique(s: seq<Announcement>, a: Announcement)
    requires UniqueAnnouncementIds(s) && a in s
    ensures Lookup(s, a.id) == Some(a)
  {
    if s[0] != a {
      assert a in s[1..];
      LookupUnique(s[1..], a);
    }
  }

  /** The table without the row whose key is `id`, the other rows in their order. */
  function Without(s: seq<Announcement>, id: int): (r: seq<Announcement>)
    ensures forall a :: a in r <==> a in s && a.id != id
    ensures |r| <= |s|
  {
    if s == [] then []
    else if s[0].id == id then Without(s[1..], id)
    else [s[0]] + Without(s[1..], id)
  }

  /** The table with the row whose key is `a.id` replaced by `a`, in place. */
  function Replace(s: seq<Announcement>, a: Announcement): seq<Announcement> {
    seq(|s|, i requires 0 <= i < |s| => if s[i].id == a.id then a else s[i])
  }

  /** Replacing the row of an existing key keeps the set of keys, every other row, and adds no row but `b`. */
  lemma ReplaceKeys(s: seq<Announcement>, b: Announcement)
    requires b.id in Ids(s)
    ensures Ids(Replace(s, b)) == Ids(s)
    ensures forall x :: x in s && x.id != b.id ==> x in Replace(s, b)
    ensures forall x :: x in Replace(s, b) ==> x == b || x in s
  {
    var r := Replace(s, b);
    forall k | k in Ids(s)
      ensures k in Ids(r)
    {
      var x :| x in s && x.id == k;
      var i :| 0 <= i < |s| && s[i] == x;
      assert r[i].id == k;
    }
    forall x | x in s && x.id != b.id
      ensures x in r
    {
      var i :| 0 <= i < |s| && s[i] == x;
      assert r[i] == x;
    }
  }

  /** Replacing the row of an existing key keeps keys unique, and the key then finds `b`. */
  lemma ReplaceUnique(s: seq<Announcement>, b: Announcement)
    requires UniqueAnnouncementIds(s) && b.id in Ids(s)
    ensures UniqueAnnouncementIds(Replace(s, b))
    ensures Lookup(Replace(s, b), b.id) == Some(b)
  {
    var r := Replace(s, b);
    var x :| x in s && x.id == b.id;
    var i :| 0 <= i < |s| && s[i] == x;
    assert r[i] == b;
    LookupUnique(r, b);
  }

  /** The join rows of announcement `id`. */
  function LinksOf(links: set<Link>, id: int): set<Link> {
    set l | l in links && l.announcementId == id
  }

  /** One join row per category id, for announcement `id` (a repeated id gives one row). */
  function LinksTo(id: int, categoryIds: seq<int>): (r: set<Link>)
    ensures forall l :: l in r <==> l.announcementId == id && l.categoryId in categoryIds
  {
    set c | c in categoryIds :: Link(id, c)
  }

  /** The categories of the table that announcement `id` is filed under, in table order. */
  function LinkedCategories(cats: seq<Category>, links: set<Link>, id: int): (r: seq<Category>)
    ensures forall c :: c in r <==> c in cats && Link(id, c.id) in links
    ensures |r| <= |cats|
  {
    if cats == [] then []
    else (if Link(id, cats[0].id) in links then [cats[0]] else []) + LinkedCategories(cats[1..], links, id)
  }

  /** The ids of the linked categories are the ids the join table holds for the announcement. */
  lemma LinkedCategoryIds(db: Db, id: int)
    requires Valid(db)
    ensures (set c | c in LinkedCategories(db.categories, db.links, id) :: c.id) == LinkedIds(db, id)
  {
    var r := LinkedCategories(db.categories, db.links, id);
    forall k | k in LinkedIds(db, id)
      ensures k in (set c | c in r :: c.id)
    {
      var l :| l in db.links && l.announcementId == id && l.categoryId == k;
      var c :| c in db.categories && c.id == k;
      assert c in r;
    }
  }
}
