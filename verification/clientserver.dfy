/**
 * How the form and the service fit together: what the form submits is what
 * the request pipe accepts, and the publication date survives the trip from
 * the form's text to the stored instant and back.
 */
module ClientServer {
  import opened Wrappers
  import opened JsString
  import opened Calendar
  import opened DateFormat
  import opened FieldTime
  import opened DateCheck
  import opened AnnouncementForm
  import opened AnnouncementsService
  import opened Dto

  /** The JSON body the form's payload is sent as. */
  function BodyOf(p: AnnouncementForm.Payload): Body {
    map[
      "title" := JStr(p.title),
      "content" := JStr(p.content),
      "publicationDate" := JStr(p.publicationDate),
      "categoryIds" := JArr(seq(|p.categoryIds|, i requires 0 <= i < |p.categoryIds| => JNum(p.categoryIds[i] as real)))]
  }

  /** The id array of the body: one integer number per id, in order. */
  lemma IdItems(ids: seq<int>)
    ensures var items := seq(|ids|, i requires 0 <= i < |ids| => JNum(ids[i] as real));
            forall i :: 0 <= i < |items| ==> items[i].JNum? && IsInteger(items[i].n) && items[i].n.Floor == ids[i]
  {
  }

  /** A payload with a title, content, a date of the right shape and a category makes a body the create DTO accepts. */
  lemma PayloadAccepted(p: AnnouncementForm.Payload)
    requires p.title != "" && p.content != "" && MatchesDateFormat(p.publicationDate) && |p.categoryIds| >= 1
    ensures CreateAccepts(BodyOf(p))
  {
    var body := BodyOf(p);
    assert Get(body, "title") == Some(JStr(p.title));
    assert Get(body, "content") == Some(JStr(p.content));
    assert Get(body, "publicationDate") == Some(JStr(p.publicationDate));
    assert Get(body, "categoryIds") == Some(body["categoryIds"]);
    IdItems(p.categoryIds);
  }

  /** The service receives the values of the payload unchanged. */
  lemma PayloadReceived(p: AnnouncementForm.Payload)
    requires CreateAccepts(BodyOf(p))
    ensures CreateInputOf(BodyOf(p)) == CreateInput(p.title, p.content, p.publicationDate, p.categoryIds)
  {
    var body := BodyOf(p);
    var ids := IdsOf(Get(body, "categoryIds"));
    IdItems(p.categoryIds);
    assert Get(body, "categoryIds") == Some(body["categoryIds"]);
    assert |ids| == |p.categoryIds|;
    forall i | 0 <= i < |ids|
      ensures ids[i] == p.categoryIds[i]
    {
    }
    assert ids == p.categoryIds;
  }

  /**
   * A form that passes `validate()` sends a body both the create and the
   * update DTO accept, and the service receives the payload's values
   * unchanged.
   */
  lemma SubmittedBodyAccepted(f: FormState)
    requires Validate(f).ok
    ensures CreateAccepts(BodyOf(PayloadOf(f))) && UpdateAccepts(BodyOf(PayloadOf(f)))
    ensures CreateInputOf(BodyOf(PayloadOf(f)))
            == CreateInput(Trim(f.title), Trim(f.content), f.publicationDate, PayloadOf(f).categoryIds)
  {
    var p := PayloadOf(f);
    ValidateIff(f);
    TrimEmptyIff(f.title);
    TrimEmptyIff(f.content);
    PayloadAccepted(p);
    PayloadReceived(p);
    CreateBodyUpdates(BodyOf(p));
  }

  /** A year of four digits from 1000 on does not start with a zero. */
  lemma LeadingDigit(s: string)
    requires MatchesDateFormat(s) && FieldsAt(s).year >= 1000
    ensures s[6] != '0'
  {
    DigitFields(s);
  }

  /**
   * Form text to stored instant and back: a date the form accepts, stored by
   * the service and rendered again by the form, is the same text.
   */
  lemma FormDateRoundTrip(s: string)
    requires MatchesDateFormat(s) && RealDate(FieldsAt(s))
    ensures IsoToFormDate(ParsePublicationDate(s)) == s
  {
    var t := ParsePublicationDate(s);
    ParseRoundTrip(s);
    assert UtcFields(t) == FieldsAt(s);
    assert YearFromTime(t) == FieldsAt(s).year;
    LeadingDigit(s);
    ReadThenRender(s);
    assert IsoToFormDate(t) == Render(UtcFields(t));
  }

  /**
   * Stored instant to form text and back: an instant in whole minutes of the
   * years 1900 to 2100, rendered by the form and submitted unchanged, is
   * stored as the same instant.
   */
  lemma StoredDateRoundTrip(t: int)
    requires t % MsPerMinute == 0
    requires 1900 <= YearFromTime(t) <= 2100
    ensures MatchesDateFormat(IsoToFormDate(t))
    ensures ParsePublicationDate(IsoToFormDate(t)) == t
  {
    var s := IsoToFormDate(t);
    InstantRoundTrip(t);
    assert FieldsAt(s) == UtcFields(t);
  }

  /**
   * A date the form accepts names the minute it spells: the service stores
   * the instant whose UTC fields are the ones typed.
   */
  lemma AcceptedDateStoredAsTyped(s: string)
    requires ValidateDateTime(s) == None
    ensures MatchesDateFormat(s)
    ensures UtcFields(ParsePublicationDate(s)) == FieldsAt(s)
  {
    ValidateDateTimeIff(s);
    ParseRoundTrip(s);
  }
}
