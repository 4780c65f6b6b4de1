/**
 * The response shape of the announcement endpoints and
 * `toAnnouncementResponse`, which flattens the join rows the database
 * returns into a plain list of categories.
 */
module Response {
  import opened Store

  /** A join row as the `include` of the service returns it: the keys and the nested category. */
  datatype JoinRow = JoinRow(announcementId: int, categoryId: int, category: Category)

  /** An announcement row with its join rows included. */
  datatype Included = Included(
    id: int,
    title: string,
    content: string,
    publicationDate: int,
    createdAt: int,
    updatedAt: int,
    categories: seq<JoinRow>)

  datatype CategoryResponse = CategoryResponse(id: int, name: string)

  datatype AnnouncementResponse = AnnouncementResponse(
    id: int,
    title: string,
    content: string,
    publicationDate: int,
    createdAt: int,
    updatedAt: int,
    categories: seq<CategoryResponse>)

  /**
   * `toAnnouncementResponse`: the six scalar fields are copied, and each
   * join row becomes the `{id, name}` of its category, in the same order.
   */
  function ToAnnouncementResponse(a: Included): (r: AnnouncementResponse)
    ensures r.id == a.id && r.title == a.title && r.content == a.content
    ensures r.publicationDate == a.publicationDate && r.createdAt == a.createdAt && r.updatedAt == a.updatedAt
    ensures |r.categories| == |a.categories|
    ensures forall i :: 0 <= i < |a.categories| ==>
              r.categories[i] == CategoryResponse(a.categories[i].category.id, a.categories[i].category.name)
  {
    AnnouncementResponse(a.id, a.title, a.content, a.publicationDate, a.createdAt, a.updatedAt,
      seq(|a.categories|, i requires 0 <= i < |a.categories| =>
        CategoryResponse(a.categories[i].category.id, a.categories[i].category.name)))
  }

  /**
   * Nothing of a join row but its category's id and name reaches the
   * response: two rows that agree on their scalar fields and, row by row,
   * on their categories respond alike, whatever their join keys.
   */
  lemma ResponseIgnoresJoinKeys(a: Included, b: Included)
    requires a.(categories := []) == b.(categories := [])
    requires |a.categories| == |b.categories|
    requires forall i :: 0 <= i < |a.categories| ==> a.categories[i].category == b.categories[i].category
    ensures ToAnnouncementResponse(a) == ToAnnouncementResponse(b)
  {
    var ra, rb := ToAnnouncementResponse(a), ToAnnouncementResponse(b);
    assert ra.categories == rb.categories;
  }

  /** The categories of the response are exactly the categories the join rows point at. */
  lemma ResponseCategories(a: Included)
    ensures forall c :: c in ToAnnouncementResponse(a).categories <==>
              exists row :: row in a.categories && c == CategoryResponse(row.category.id, row.category.name)
  {
    var r := ToAnnouncementResponse(a);
    forall c | c in r.categories
      ensures exists row :: row in a.categories && c == CategoryResponse(row.category.id, row.category.name)
    {
      var i :| 0 <= i < |r.categories| && r.categories[i] == c;
      assert a.categories[i] in a.categories;
    }
    forall row | row in a.categories
      ensures CategoryResponse(row.category.id, row.category.name) in r.categories
    {
      var i :| 0 <= i < |a.categories| && a.categories[i] == row;
      assert r.categories[i] == CategoryResponse(row.category.id, row.category.name);
    }
  }
}
