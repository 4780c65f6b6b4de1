/**
 * The pure logic of the announcement form hook: checking the publication
 * date text, rendering a stored instant into that text, the per-field
 * validation run before submitting, and the payload that is submitted.
 */
module AnnouncementForm {
  import opened Wrappers
  import opened Digits
  import opened JsString
  import opened Calendar
  import opened DateFormat
  import opened FieldTime
  import opened DateCheck
  import opened Response

  const TitleRequiredMessage := "Please enter a title for the announcement."
  const TitleTooLongMessage := "Title must be at most 255 characters."
  const ContentRequiredMessage := "Please enter the announcement content."
  const DateRequiredMessage := "Please specify a publication date."
  const CategoriesRequiredMessage := "Please select at least one category."

  /** The longest title the form accepts, in UTF-16 code units after trimming. */
  const MaxTitleLength := 255

  /** A choice in the category picker. */
  datatype CategoryOption = CategoryOption(value: int, labelText: string)

  /** The controlled inputs of the form. */
  datatype FormState = FormState(
    title: string,
    content: string,
    publicationDate: string,
    selectedCategories: seq<CategoryOption>)

  /** The `errors` record of `validate()`; a present entry is the message shown for that field. */
  datatype FieldErrors = FieldErrors(
    title: Option<string>,
    content: Option<string>,
    publicationDate: Option<string>,
    categories: Option<string>)

  /** What `validate()` leaves behind: the field errors, the alert list and its boolean result. */
  datatype Validation = Validation(errors: FieldErrors, alert: seq<string>, ok: bool)

  function Listed(o: Option<string>): seq<string> {
    match o
    case None => []
    case Some(m) => [m]
  }

  /** `Object.values(errors)`: the messages in the order the fields were checked. */
  function AlertOf(e: FieldErrors): (r: seq<string>)
    ensures r == [] <==> e == FieldErrors(None, None, None, None)
  {
    Listed(e.title) + Listed(e.content) + Listed(e.publicationDate) + Listed(e.categories)
  }

  /** The title check: blank after trimming, or longer than 255 UTF-16 code units after trimming. */
  function TitleError(title: string): (r: Option<string>)
    ensures r.Some? <==> AllTrimmable(title) || Utf16Length(Trim(title)) > MaxTitleLength
    ensures AllTrimmable(title) ==> r == Some(TitleRequiredMessage)
    ensures !AllTrimmable(title) && r.Some? ==> r == Some(TitleTooLongMessage)
  {
    TrimEmptyIff(title);
    var t := Trim(title);
    if t == [] then Some(TitleRequiredMessage)
    else if Utf16Length(t) > MaxTitleLength then Some(TitleTooLongMessage)
    else None
  }

  /** The content check: blank after trimming. */
  function ContentError(content: string): (r: Option<string>)
    ensures r.Some? <==> AllTrimmable(content)
    ensures r.Some? ==> r == Some(ContentRequiredMessage)
  {
    TrimEmptyIff(content);
    if Trim(content) == [] then Some(ContentRequiredMessage) else None
  }

  /** The date check: blank after trimming, or else whatever `validateDateTime` says of the untrimmed text. */
  function DateError(date: string): (r: Option<string>)
    ensures AllTrimmable(date) ==> r == Some(DateRequiredMessage)
    ensures !AllTrimmable(date) ==> r == ValidateDateTime(date)
  {
    TrimEmptyIff(date);
    if Trim(date) == [] then Some(DateRequiredMessage) else ValidateDateTime(date)
  }

  /** A blank date is refused as missing; any other text passes exactly when `validateDateTime` accepts it. */
  lemma DateErrorIff(date: string)
    ensures DateError(date) == None <==> MatchesDateFormat(date) && RealDate(FieldsAt(date))
  {
    if MatchesDateFormat(date) {
      assert !IsTrimmable(date[0]);
      assert DateError(date) == ValidateDateTime(date);
      ValidateDateTimeIff(date);
    }
  }

  /** The category check: nothing selected. */
  function CategoriesError(selected: seq<CategoryOption>): (r: Option<string>)
    ensures r.Some? <==> selected == []
    ensures r.Some? ==> r == Some(CategoriesRequiredMessage)
  {
    if |selected| == 0 then Some(CategoriesRequiredMessage) else None
  }

  /**
   * `validate()`: every field is checked in the order title, content, date,
   * categories; the alert lists the messages in that order, and the form
   * passes exactly when no field has an error.
   */
  function Validate(f: FormState): (v: Validation)
    ensures v.ok <==> v.alert == []
    ensures v.ok <==> v.errors == FieldErrors(None, None, None, None)
    ensures v.alert == Listed(v.errors.title) + Listed(v.errors.content)
      + Listed(v.errors.publicationDate) + Listed(v.errors.categories)
  {
    var errors := FieldErrors(
      TitleError(f.title), ContentError(f.content), DateError(f.publicationDate), CategoriesError(f.selectedCategories));
    var alert := AlertOf(errors);
    Validation(errors, alert, alert == [])
  }

  /**
   * What a form must hold to be submitted, field by field: a title that is
   * not blank and at most 255 code units once trimmed, content that is not
   * blank, a date in the format naming a real minute of the years 1900 to
   * 2100, and at least one category.
   */
  predicate Submittable(f: FormState) {
    && !AllTrimmable(f.title) && Utf16Length(Trim(f.title)) <= MaxTitleLength
    && !AllTrimmable(f.content)
    && MatchesDateFormat(f.publicationDate) && RealDate(FieldsAt(f.publicationDate))
    && f.selectedCategories != []
  }

  /** `validate()` passes exactly on the submittable forms. */
  lemma ValidateIff(f: FormState)
    ensures Validate(f).ok <==> Submittable(f)
  {
    DateErrorIff(f.publicationDate);
  }

  /** A date surrounded by spaces is not blank, and is refused by the format check rather than trimmed. */
  lemma PaddedDateRefused(date: string)
    requires MatchesDateFormat(date)
    ensures Validate(FormState("t", "c", " " + date, [])).errors.publicationDate == Some(FormatMessage)
  {
    var padded := " " + date;
    assert !IsTrimmable(padded[1]);
    assert !AllTrimmable(padded);
    assert |padded| == 17;
  }

  /** The request body the form sends. */
  datatype Payload = Payload(title: string, content: string, publicationDate: string, categoryIds: seq<int>)

  /** A submission: a new announcement, or an edit of the announcement the route names. */
  datatype Submission = CreateRequest(payload: Payload) | UpdateRequest(id: int, payload: Payload)

  /** The payload of `handleSubmit`: trimmed title and content, the date text as typed, the chosen ids in order. */
  function PayloadOf(f: FormState): (p: Payload)
    ensures p.title == Trim(f.title) && p.content == Trim(f.content)
    ensures p.publicationDate == f.publicationDate
    ensures |p.categoryIds| == |f.selectedCategories|
    ensures forall i :: 0 <= i < |p.categoryIds| ==> p.categoryIds[i] == f.selectedCategories[i].value
  {
    Payload(Trim(f.title), Trim(f.content), f.publicationDate,
            seq(|f.selectedCategories|, i requires 0 <= i < |f.selectedCategories| => f.selectedCategories[i].value))
  }

  /**
   * `handleSubmit`: nothing is sent unless `validate()` passes; then the
   * payload goes to the update mutation when the route carries a non-zero
   * numeric id (`isEditing && numericId`), and to the create mutation
   * otherwise. `routeId` is the route's `:id` already read by `Number`.
   */
  function HandleSubmit(f: FormState, routeId: Option<int>): (s: Option<Submission>)
    ensures s.Some? <==> Validate(f).ok
    ensures s.Some? ==> s.value.payload == PayloadOf(f)
    ensures s.Some? ==> (s.value.UpdateRequest? <==> routeId.Some? && routeId.value != 0)
    ensures s.Some? && s.value.UpdateRequest? ==> s.value.id == routeId.value
  {
    if !Validate(f).ok then None
    else
      match routeId
      case Some(id) => if id != 0 then Some(UpdateRequest(id, PayloadOf(f))) else Some(CreateRequest(PayloadOf(f)))
      case None => Some(CreateRequest(PayloadOf(f)))
  }

  /**
   * The edit form filled from a loaded announcement: title and content as
   * stored, the date rendered by `isoToFormDate`, and each category as a
   * picker choice, in the order of the response.
   */
  function Populate(a: AnnouncementResponse): (f: FormState)
    ensures f.title == a.title && f.content == a.content
    ensures f.publicationDate == IsoToFormDate(a.publicationDate)
    ensures |f.selectedCategories| == |a.categories|
    ensures forall i :: 0 <= i < |a.categories| ==>
              f.selectedCategories[i] == CategoryOption(a.categories[i].id, a.categories[i].name)
  {
    FormState(a.title, a.content, IsoToFormDate(a.publicationDate),
      seq(|a.categories|, i requires 0 <= i < |a.categories| => CategoryOption(a.categories[i].id, a.categories[i].name)))
  }

  /**
   * One render of the hook's one-time population: the first render that has
   * the loaded announcement fills the form and sets the flag; every other
   * render leaves the form and the flag as they are.
   */
  function PopulateOnce(f: FormState, initialized: bool, loaded: Option<AnnouncementResponse>): (r: (FormState, bool))
    ensures r.1 <==> initialized || loaded.Some?
    ensures (initialized || loaded.None?) ==> r.0 == f
    ensures (!initialized && loaded.Some?) ==> r.0 == Populate(loaded.value)
  {
    if loaded.Some? && !initialized then (Populate(loaded.value), true) else (f, initialized)
  }

  /**
   * Once the form has been filled, the user's edits survive every later
   * render, whatever announcement is loaded then (a refetch included).
   */
  lemma EditsSurvive(f: FormState, a: AnnouncementResponse, edited: FormState, reloaded: Option<AnnouncementResponse>)
    ensures PopulateOnce(f, false, Some(a)) == (Populate(a), true)
    ensures PopulateOnce(edited, PopulateOnce(f, false, Some(a)).1, reloaded) == (edited, true)
  {
  }

  /** Submitting a filled form unchanged sends back the category ids of the announcement, in order. */
  lemma PopulatedPayloadIds(a: AnnouncementResponse)
    ensures PayloadOf(Populate(a)).categoryIds == seq(|a.categories|, i requires 0 <= i < |a.categories| => a.categories[i].id)
  {
    var p := PayloadOf(Populate(a));
    assert |p.categoryIds| == |a.categories|;
  }

  /**
   * A loaded announcement with a title, content and categories the form
   * accepts can be submitted again unchanged exactly when its year lies in
   * 1900 to 2100. A year outside 1000 to 9999, which the backend can store,
   * renders as text the date pattern refuses.
   */
  lemma PopulatedSubmittableIff(a: AnnouncementResponse)
    requires !AllTrimmable(a.title) && Utf16Length(Trim(a.title)) <= MaxTitleLength
    requires !AllTrimmable(a.content) && a.categories != []
    ensures Validate(Populate(a)).ok <==> 1900 <= YearFromTime(a.publicationDate) <= 2100
  {
    var f := Populate(a);
    var t := a.publicationDate;
    ValidateIff(f);
    if 1000 <= YearFromTime(t) <= 9999 {
      assert FieldsAt(f.publicationDate) == UtcFields(t);
      if 1900 <= YearFromTime(t) <= 2100 {
        UtcFieldsReal(t);
      }
    } else {
      assert !MatchesDateFormat(f.publicationDate);
    }
  }
}
