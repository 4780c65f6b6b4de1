# Announcements: form validation, service and controller in Dafny

This project models the core of a city-announcement application. It covers
two sides.

- The frontend form hook `useAnnouncementForm`:
  - `validateDateTime`, the check of the `MM/DD/YYYY HH:mm` publication date;
  - `isoToFormDate`, which renders a stored instant into that text;
  - `validate`, `handleSubmit`, and the one-time `populate` of the edit form.
- The backend:
  - the request DTOs as the global `ValidationPipe` applies them;
  - `AnnouncementsService` (`parsePublicationDate`, `validateCategoryIds`, `findAll`, `findOne`, `create`, `update`, `remove`);
  - `toAnnouncementResponse`;
  - the controller, including its `announcement:created` broadcast.

The database is an immutable value (`Store.Db`). It holds:

- the announcement table, in insertion order;
- the category table;
- the join table, as a set of (announcement, category) pairs;
- the next autoincrement id.

Every service operation is a function from a database to the database
afterwards plus what it returned or raised (`AnnouncementsService.Reply`).
Instants are ECMAScript time values in milliseconds. `Date.UTC` and the
`getUTC…` accessors follow section 21.4 of ECMA-262 (`Calendar`).

Modules, in dependency order:

- `Wrappers`: Option, Result and Outcome.
- `Digits`: decimal digits, `String(n)` and `padStart(2, '0')`.
- `JsString`: `split`, `join`, `trim`, UTF-16 length and case-insensitive containment.
- `Calendar`: ECMA-262 time arithmetic.
- `DateFormat`: the date pattern, reading its five fields, rendering them.
- `FieldTime`: `Date.UTC` on the five fields and the UTC fields of an instant.
- `DateCheck`: `validateDateTime`, `isoToFormDate`.
- `Response`: `toAnnouncementResponse`.
- `Store`: tables and keys.
- `AnnouncementsService`.
- `AnnouncementForm`: the hook's validation, payload and populate logic.
- `Dto`: the create, update and query DTOs.
- `AnnouncementsController`: routes, HTTP answers and the event log.
- `ClientServer`: lemmas that join the form to the backend.

## Behaviour of the code worth knowing

The model follows the code in each case below.

- **The backend checks only the shape of a date.** The range and calendar checks exist only in the form.
  - A request body with `13/45/2025 99:99` passes the create DTO (`Dto.ShapeOnlyDate`).
  - `02/30/2025 10:00` is stored as 2 March (`AnnouncementsService.ParseCarriesOver`).
  - The year `0050` is stored as 1950, because `Date.UTC` maps the years 0 to 99 to 1900 + y (`FieldTime.UtcOfTwoDigitYear`).
  - Parsing never fails on a string: a malformed string never reaches the service, because the pipe refuses the body first. An explicit `null` date in a PATCH passes the pipe, throws in `split` and answers 500 before anything is written (`AnnouncementsService.Update`).
- **The 255-character title limit exists only in the form.** It counts UTF-16 units after trimming. The backend accepts any length, and a whitespace-only title: `IsNotEmpty` refuses only `""`.
- **An update is not free of partial writes.** `PartialType` makes every field `@IsOptional`, so an explicit `null` passes the pipe (`Dto.NullsAccepted`).
  - A `null` title or content, sent together with category ids, fails only at the final `announcement.update`. By then the `deleteMany` of the join rows has already committed.
  - The announcement is left with no category, and the client gets a 500 (`AnnouncementsService.UpdatePartialFailure`, `AnnouncementsController.NullTitlePatchUnfiles`).
  - A repeated category id in an update does the same.
- **Repeated category ids** break the join table's key, which holds one row per pair:
  - in `create`, the nested write fails as a whole, with a 500 and nothing written;
  - in `update`, it fails after the join rows are cleared.
- **An empty search and category 0 mean "no filter"**, because the service tests `if (search)` and `if (categoryId)`.

## Model

| member | source | states |
|---|---|---|
| DateFormat.SplitShape | frontend/src/hooks/useAnnouncementForm.ts:43-45 | on a string of the date pattern, `split(' ')`, `split('/')` and `split(':')` yield exactly the fixed digit groups |
| DateFormat.ReadFields | backend/src/announcements/announcements.service.ts:23-25 | the numbers `parsePublicationDate` reads through `split` and `Number` are the five digit groups; two-digit fields are below 100, the year below 10000 |
| DateFormat.RenderThenRead | frontend/src/hooks/useAnnouncementForm.ts:26-31 | rendering two-digit fields and a four-digit year gives a string of the pattern whose fields read back unchanged |
| DateFormat.ReadThenRender | frontend/src/hooks/useAnnouncementForm.ts:26-31 | a pattern string whose year does not start with 0, read and rendered again, is the same string |
| DateCheck.RangeError | frontend/src/hooks/useAnnouncementForm.ts:47-51 | no error iff every field is in its range; otherwise the message of the first field out of range, in the order month, day, year, hours, minutes |
| DateCheck.ValidateDateTime | frontend/src/hooks/useAnnouncementForm.ts:38-63 | the format message exactly when the pattern fails; otherwise the verdict of the range and calendar checks on the string's fields |
| DateCheck.FieldsErrorIff | frontend/src/hooks/useAnnouncementForm.ts:47-62 | given that the built instant reads back iff the month has the day, there is no error iff the fields are in range and the date exists; an in-range error is the "does not exist" message |
| DateCheck.ValidFieldsIff | frontend/src/hooks/useAnnouncementForm.ts:53-62 | with the instant `Date.UTC` really builds, the check passes iff the fields are in range and the month has the day |
| DateCheck.ValidateDateTimeIff | frontend/src/hooks/useAnnouncementForm.ts:38-63 | `validateDateTime` returns null iff the pattern matches and the fields name an existing minute of the years 1900 to 2100 |
| DateCheck.FebruaryVerdict | frontend/src/hooks/useAnnouncementForm.ts:53-60 | in February the 29th passes exactly in 366-day years (2000, not 1900 or 2100) and the 30th and 31st never pass |
| DateCheck.IsoToFormDate | frontend/src/hooks/useAnnouncementForm.ts:24-32 | for years 1000 to 9999 the text has the pattern and its fields are the instant's UTC month, date, year, hours and minutes; for any other year (which the backend can store, e.g. `01/01/0500 00:00`) the text fails the pattern |
| DateCheck.IsoToFormDateAccepted | frontend/src/hooks/useAnnouncementForm.ts:24-63 | every instant of the years 1900 to 2100, rendered by `isoToFormDate`, passes `validateDateTime` |
| FieldTime.UtcOfReadsBack | frontend/src/hooks/useAnnouncementForm.ts:53-58 | the instant `Date.UTC` builds from in-range fields reads back its own year, month and date iff the month has that day |
| FieldTime.FieldsRoundTrip | backend/src/announcements/announcements.service.ts:26 | the fields of an existing minute give an instant whose UTC fields are those fields |
| FieldTime.InstantRoundTrip | frontend/src/hooks/useAnnouncementForm.ts:26-30 | a whole-minute instant of the years 100 to 9999 is the instant `Date.UTC` builds from its own UTC fields |
| FieldTime.CarryOver | backend/src/announcements/announcements.service.ts:26 | `Date.UTC` does not refuse a day past the month's end: it reads back as that many days into the next month, same time of day |
| FieldTime.UtcOfTwoDigitYear | backend/src/announcements/announcements.service.ts:26 | fields with a year from 0 to 99 name the instant of the year 1900 + y |
| AnnouncementForm.TitleError | frontend/src/hooks/useAnnouncementForm.ts:116-120 | an error iff the trimmed title is empty or longer than 255 UTF-16 units; the required message for a blank title, the length message otherwise |
| AnnouncementForm.ContentError | frontend/src/hooks/useAnnouncementForm.ts:122-124 | an error, the required message, iff the content trims to nothing |
| AnnouncementForm.DateError | frontend/src/hooks/useAnnouncementForm.ts:126-131 | a blank date gives the required message; any other text gets the verdict of `validateDateTime` |
| AnnouncementForm.DateErrorIff | frontend/src/hooks/useAnnouncementForm.ts:126-131 | no date error iff the untrimmed text has the pattern and names an existing minute of 1900 to 2100 |
| AnnouncementForm.CategoriesError | frontend/src/hooks/useAnnouncementForm.ts:133-135 | an error, the required message, iff no category is selected |
| AnnouncementForm.Validate | frontend/src/hooks/useAnnouncementForm.ts:113-146 | `validate()` returns true iff the alert list is empty iff no field has an error; the alert lists the messages in field order |
| AnnouncementForm.ValidateIff | frontend/src/hooks/useAnnouncementForm.ts:113-146 | `validate()` passes iff title and content are not blank, the title is at most 255 units, the date is real, and a category is selected |
| AnnouncementForm.PaddedDateRefused | frontend/src/hooks/useAnnouncementForm.ts:126-130 | a date with a leading space passes the blank check, which trims, but fails the pattern, which does not |
| AnnouncementForm.PayloadOf | frontend/src/hooks/useAnnouncementForm.ts:153-158 | the payload holds the trimmed title and content, the date as typed, and the selected ids in order |
| AnnouncementForm.HandleSubmit | frontend/src/hooks/useAnnouncementForm.ts:149-170 | something is sent iff `validate()` passes; it is the payload; it is an update of the route's id iff that id is present and non-zero, otherwise a create |
| AnnouncementForm.Populate | frontend/src/hooks/useAnnouncementForm.ts:99-110 | the edit form takes title and content verbatim, the date through `isoToFormDate`, and each category as an option, in order |
| AnnouncementForm.PopulateOnce | frontend/src/hooks/useAnnouncementForm.ts:96-110 | the form is filled only when the announcement has loaded and the form was not yet filled; afterwards the flag is set |
| AnnouncementForm.EditsSurvive | frontend/src/hooks/useAnnouncementForm.ts:99-100 | once the form is filled, later renders with a reloaded announcement leave the user's edits alone |
| AnnouncementForm.PopulatedPayloadIds | frontend/src/hooks/useAnnouncementForm.ts:104-109 | resubmitting a filled form sends the loaded category ids in their order |
| AnnouncementForm.PopulatedSubmittableIff | frontend/src/hooks/useAnnouncementForm.ts:103 | a loaded announcement whose other fields are valid can be resubmitted unchanged iff its year is between 1900 and 2100, whatever year the backend stored |
| JsString.TrimEmptyIff | frontend/src/hooks/useAnnouncementForm.ts:116 | `trim()` gives the empty string iff every character is white space or a line terminator |
| JsString.Trim | frontend/src/hooks/useAnnouncementForm.ts:154-155 | the trimmed string is a slice of the input with only trimmable characters cut off, and it neither starts nor ends with one |
| JsString.ContainsInsensitiveOfContains | backend/src/announcements/announcements.service.ts:76-77 | an exact substring is also found by the case-insensitive match |
| Response.ToAnnouncementResponse | backend/src/announcements/dto/announcement-response.dto.ts:24-45 | the six scalar fields are copied, and each join row becomes its category's `{id, name}`, in order |
| Response.ResponseIgnoresJoinKeys | backend/src/announcements/dto/announcement-response.dto.ts:40-43 | the response depends only on the nested categories, not on the join rows' own keys |
| Response.ResponseCategories | backend/src/announcements/dto/announcement-response.dto.ts:40-43 | a response category is exactly the `{id, name}` of some included join row's category |
| Store.Lookup | backend/src/announcements/announcements.service.ts:100-103 | `findUnique` finds nothing iff no row has the id; what it finds has that id |
| Store.LookupUnique | backend/src/announcements/announcements.service.ts:100-103 | with unique ids, looking up a row's id finds that very row |
| Store.Without | backend/src/announcements/announcements.service.ts:189-192 | after the delete, exactly the rows with other ids remain |
| Store.ReplaceKeys | backend/src/announcements/announcements.service.ts:174-178 | replacing an existing row keeps the set of ids; other rows are kept; no row comes from anywhere else |
| Store.ReplaceUnique | backend/src/announcements/announcements.service.ts:174-178 | replacing keeps ids unique, and the new row is found under its id |
| Store.LinkedCategories | backend/src/announcements/announcements.service.ts:52-60 | the include returns exactly the categories the announcement has join rows to (membership only; the order is not fixed by the source) |
| Store.LinkedCategoryIds | backend/src/announcements/announcements.service.ts:52-60 | in a valid database, the ids of the included categories are the announcement's linked ids |
| AnnouncementsService.ParsePublicationDate | backend/src/announcements/announcements.service.ts:22-27 | a string of the request format always yields a time value, the one `Date.UTC` builds from its fields |
| AnnouncementsService.ParseRoundTrip | backend/src/announcements/announcements.service.ts:22-27 | for an existing minute, the stored instant's UTC fields are the fields typed |
| AnnouncementsService.ParseCarriesOver | backend/src/announcements/announcements.service.ts:22-27 | a date past its month's end is stored as the same count of days into the next month |
| AnnouncementsService.MissingIds | backend/src/announcements/announcements.service.ts:39-40 | an id is reported iff it was sent and names no category |
| AnnouncementsService.MissingIdsAppend | backend/src/announcements/announcements.service.ts:40 | the filter distributes over concatenation, so the missing ids are reported in the order they were sent |
| AnnouncementsService.MissingIdsCount | backend/src/announcements/announcements.service.ts:40 | a missing id is reported as many times as it was sent; an existing one never |
| AnnouncementsService.ValidateCategoryIds | backend/src/announcements/announcements.service.ts:33-47 | passes iff every id sent names a category; otherwise one BadRequest listing all missing ids, joined by ", " |
| AnnouncementsService.RespondFields | backend/src/announcements/announcements.service.ts:52-60 | a returned announcement carries the row's fields and exactly the categories it is filed under |
| AnnouncementsService.RespondCategories | backend/src/announcements/dto/announcement-response.dto.ts:40-43 | the category ids of the response are the ids of the included categories |
| AnnouncementsService.Matching | backend/src/announcements/announcements.service.ts:72-85 | a row is kept iff its title or content contains the search ignoring case, and it is filed under the category, when each is given |
| AnnouncementsService.InsertByUpdated | backend/src/announcements/announcements.service.ts:90 | inserting into a newest-first list keeps it newest-first and adds exactly the one row |
| AnnouncementsService.SortByUpdated | backend/src/announcements/announcements.service.ts:87-91 | `orderBy updatedAt desc` gives a permutation of the rows, newest first |
| AnnouncementsService.FindAll | backend/src/announcements/announcements.service.ts:68-94 | every matching row is listed and only those, once each, newest update first |
| AnnouncementsService.FindAllUnfiltered | backend/src/announcements/announcements.service.ts:74-85 | an empty search and category 0 filter nothing: every row is listed |
| AnnouncementsService.FindOne | backend/src/announcements/announcements.service.ts:99-110 | NotFound with "Announcement with ID n not found" iff no row has the id; otherwise that row's response |
| AnnouncementsService.Create | backend/src/announcements/announcements.service.ts:115-133 | fails iff an id names no category (BadRequest listing them) or an id repeats (server error); a failure writes nothing; success appends the new row |
| AnnouncementsService.InsertValid | backend/src/announcements/announcements.service.ts:120-130 | writing the row under the next id, with join rows to existing categories, keeps keys unique and join rows pointing at rows |
| AnnouncementsService.InsertLinks | backend/src/announcements/announcements.service.ts:125-127 | the new row is filed under exactly the categories sent, and no other row's categories change |
| AnnouncementsService.CreateStores | backend/src/announcements/announcements.service.ts:115-133 | after a create, the new row sits under a fresh id and is filed under exactly the ids sent; the response is that row; nothing else changes; the database stays valid |
| AnnouncementsService.Update | backend/src/announcements/announcements.service.ts:138-181 | an unknown id gives NotFound and a missing category gives BadRequest; `null` category ids, or a `null` date with existing ids, give a 500; all four with nothing written |
| AnnouncementsService.UpdateSucceedsIff | backend/src/announcements/announcements.service.ts:138-181 | succeeds iff the row exists, no field is null, and the ids sent name categories and do not repeat |
| AnnouncementsService.RewriteValid | backend/src/announcements/announcements.service.ts:162-178 | deleting the row's join rows and writing the new row and join rows keeps the database valid |
| AnnouncementsService.RewriteLinks | backend/src/announcements/announcements.service.ts:162-178 | sent ids replace the row's categories entirely; without ids they are kept; other rows are untouched |
| AnnouncementsService.UpdateStores | backend/src/announcements/announcements.service.ts:138-181 | after a successful update the row holds the sent fields and the old values of the rest; its categories are replaced or kept; nothing else changes |
| AnnouncementsService.UpdatePartialFailure | backend/src/announcements/announcements.service.ts:162-178 | with ids sent, a null title or content or a repeated id fails after the join rows are deleted: the row is left with no category |
| AnnouncementsService.Remove | backend/src/announcements/announcements.service.ts:186-195 | NotFound with nothing deleted iff no row has the id; otherwise returns the row as it was before deletion |
| AnnouncementsService.RemoveDeletes | backend/src/announcements/announcements.service.ts:189-192 | after removal, the id and its join rows are gone, every other row and link is kept, and the database stays valid |
| AnnouncementsService.FindOneAfterCreate | backend/src/announcements/announcements.service.ts:115-133 | reading the created id back returns the very response the create returned |
| AnnouncementsService.FindOneAfterRemove | backend/src/announcements/announcements.service.ts:186-195 | reading a removed id back gives NotFound |
| Dto.IdsOf | backend/src/announcements/dto/create-announcement.dto.ts:26-29 | the service receives one integer per array item, equal to it, in order |
| Dto.CreateInputOf | backend/src/announcements/dto/create-announcement.dto.ts:10-30 | an accepted create body gives the service a date of the pattern and at least one category id |
| Dto.UpdateInputOf | backend/src/announcements/dto/update-announcement.dto.ts:4 | an accepted update body gives a date of the pattern when one is sent, and at least one id when ids are sent |
| Dto.UpdateInputFaithful | backend/src/announcements/dto/update-announcement.dto.ts:4 | each of title, content, publicationDate and categoryIds reaches the service as absent, `null` or its value, exactly as sent; the ids one for one and in order |
| Dto.CreateBodyUpdates | backend/src/announcements/dto/update-announcement.dto.ts:4 | every accepted create body is an accepted update body that sets all four fields |
| Dto.NullsAccepted | backend/src/announcements/dto/update-announcement.dto.ts:4 | `null` passes every member of the update body |
| Dto.EmptyIdsRefused | backend/src/announcements/dto/create-announcement.dto.ts:27 | an empty category list is refused by both DTOs |
| Dto.ShapeOnlyDate | backend/src/announcements/dto/create-announcement.dto.ts:19-24 | month 13, day 45 and time 99:99 pass the create DTO |
| Dto.FindArgs | backend/src/announcements/dto/find-announcements-query.dto.ts:4-13 | the search and category reach `findAll` iff they were given, the search as the very text sent and the category as the integer sent |
| AnnouncementsController.FindAllRoute | backend/src/announcements/announcements.controller.ts:25-28 | the list holds every announcement passing the query's own search and category filters and nothing else, newest first; a query with neither lists every announcement |
| AnnouncementsController.CreateRoute | backend/src/announcements/announcements.controller.ts:35-41 | the service's create result and database; one `announcement:created` event carrying the response appended after a success, none after a failure |
| AnnouncementsController.UpdateRoute | backend/src/announcements/announcements.controller.ts:43-49 | the service's update result and database, with the events unchanged |
| AnnouncementsController.RemoveRoute | backend/src/announcements/announcements.controller.ts:51-54 | the service's remove result and database, with the events unchanged |
| AnnouncementsController.Handle | backend/src/announcements/announcements.controller.ts:25-54 | a route id refused by `ParseIntPipe` or a body or query refused by the validation pipe answers 400 and changes nothing; answers are 200, 201, 400, 404 or 500; reads change nothing; events change only on a create answered 201 |
| AnnouncementsController.CreateBroadcasts | backend/src/announcements/announcements.controller.ts:35-41 | a successful create appends exactly one `announcement:created` event carrying the response; a failed one changes nothing |
| AnnouncementsController.OnlyCreateBroadcasts | backend/src/announcements/announcements.controller.ts:43-54 | updates and removals never broadcast, whatever their outcome |
| AnnouncementsController.ReadsAndRefusalsChangeNothing | backend/src/announcements/announcements.controller.ts:25-33 | reads, and requests the pipes refuse, leave the database and the events unchanged |
| AnnouncementsController.WriteStatus | backend/src/announcements/announcements.controller.ts:35-54 | a write answers 2xx iff it returns an announcement, and 201 iff it is a successful create |
| AnnouncementsController.EventsOnlyOnCreate | backend/src/announcements/announcements.gateway.ts:22-24 | across every request, an event is logged iff a create answers 201, and it carries the created announcement |
| AnnouncementsController.InsertKeepsRowsFiled | backend/src/announcements/announcements.service.ts:125-127 | writing a row with at least one category keeps every row filed under some category |
| AnnouncementsController.PostKeepsRowsFiled | backend/src/announcements/dto/create-announcement.dto.ts:26-29 | any create request keeps every announcement filed under some category |
| AnnouncementsController.DeleteKeepsRowsFiled | backend/src/announcements/announcements.service.ts:186-195 | any delete request keeps every remaining announcement filed |
| AnnouncementsController.UpdateKeepsRowsFiled | backend/src/announcements/announcements.service.ts:162-172 | a successful update with at least one id, or none sent, keeps every announcement filed |
| AnnouncementsController.PatchSuccessKeepsRowsFiled | backend/src/announcements/announcements.controller.ts:43-49 | a PATCH answered 200 keeps every announcement filed |
| AnnouncementsController.NullTitlePatchUnfiles | backend/src/announcements/announcements.service.ts:150-178 | a PATCH with `title: null` and one existing category answers 500 and leaves the announcement with no category |
| ClientServer.PayloadAccepted | frontend/src/hooks/useAnnouncementForm.ts:153-158 | a payload with a title, content, a date of the pattern and a category is accepted by the create DTO |
| ClientServer.PayloadReceived | frontend/src/hooks/useAnnouncementForm.ts:153-158 | the service receives the payload's values unchanged |
| ClientServer.SubmittedBodyAccepted | frontend/src/hooks/useAnnouncementForm.ts:149-158 | whatever the form submits is accepted by both DTOs and reaches the service as the trimmed payload |
| ClientServer.FormDateRoundTrip | frontend/src/hooks/useAnnouncementForm.ts:24-32 | a date the form accepts, stored and then rendered by the edit form, is the same text |
| ClientServer.StoredDateRoundTrip | backend/src/announcements/announcements.service.ts:22-27 | a whole-minute instant of 1900 to 2100, rendered by the form and resubmitted, is stored as the same instant |
| ClientServer.AcceptedDateStoredAsTyped | backend/src/announcements/announcements.service.ts:22-27 | a date the form accepts is stored as the instant whose UTC fields are the ones typed |

## Left out

- React state, setters, error rendering and the loading and error messages of the hook (lines 172-215): they are UI wiring. Navigation after a mutation, and the mutations themselves, are left out too; `HandleSubmit` returns which request would be sent.
- The category picker options (`categoryOptions`) are left out; the form works with the options it holds.
- `new Date(iso)` in `isoToFormDate` is not modelled: the stored instant is given as its time value.
- `Number(id)` of the route, `ParseIntPipe`, and the `@Type(() => Number)` conversion of the query are taken as given. The route id arrives as an optional integer; the query category arrives as a JSON number.
- JSON numbers are exact reals: IEEE-754 rounding of very large ids is not modelled.
- The database is a value, and a request runs alone. Concurrent requests, lost updates (last write wins), and connection failures are not modelled.
- The autoincrement is not consumed by a failed create, although a database sequence would consume it: ids are compared only for freshness.
- The case-insensitive search folds only ASCII letters. The database's Unicode case folding is not modelled.
- The order of a response's `categories` is not fixed by the source: its `include` has no `orderBy`. The model lists them in category-table order (`Store.LinkedCategories`), and its contracts state membership only.
- Rows with equal `updatedAt` come back in an order the database does not fix. `FindAll` promises only newest-first order for them.
- Three facts come from the database schema, which is not part of this model (`backend/prisma/schema.prisma`), and are assumed:
  - the join table's key is the (announcement, category) pair;
  - deleting an announcement cascades to its join rows (`onDelete: Cascade`), which `Remove` and `RemoveDeletes` rely on: without it, deleting an announcement that has categories would fail with a 500;
  - every id fits the column type. Ids are unbounded integers here, so an id of 2^31 or more gives NotFound in `FindOne`, no rows in `FindAll` and a BadRequest in `ValidateCategoryIds`, where the 32-bit `Int` column would make the query fail with a 500.
- AnnouncementsService.UpdatedRow: every successful update is assumed to refresh `updatedAt` to the time of the request. The service never writes it: the schema's `@updatedAt` does. Whether a PATCH that sends only `categoryIds`, or nothing, touches the row's own columns and so moves `updatedAt` (and the row's place in `FindAll`) is not modelled.
- AnnouncementsService.Update: its own contract states only the refusals that write nothing. Success, the written row and the partial failure are stated by `UpdateSucceedsIff`, `UpdateStores` and `UpdatePartialFailure`.
- The WebSocket transport, CORS, Swagger, the health and categories controllers, and the client cache layer are outside the modelled core. So is the second gateway file with the same event: it is not the one the controller imports.
