# Tutorbook user search and index sync, modelled in Dafny

This project models the parts of Tutorbook that decide what a search for
volunteers returns, and how the search indexes are kept in step with the
database. It also covers the small list and record updates in three
dashboard and form components.

- **The user search handler** (`lib/api/list-users.ts`):
  - The filter compiler turns a structured query into one filter string per
    requested availability timeslot. Each string ANDs one OR-group per
    filtered attribute in a fixed order and ends with a containment test for
    the timeslot.
  - The merge folds the per-request outcomes, in the order they are
    processed, keeping the first hit of each object id.
  - The privacy projection keeps visible users and users who share an
    organisation with the caller. Only the users who share an organisation
    are returned in full. Every other kept user is cut down to a public
    profile whose name is a first name and a last initial.
- **The index triggers** (`firebase/functions/src/algolia.ts`):
  - timestamps are converted to milliseconds;
  - the "not-vetted" tag is derived;
  - the handle list and the union of the attendees' organisations are built;
  - the trigger chooses between deleting and saving, builds the record with
    its overrides, names the index, and sets the filterable attributes.
- **The appointments dashboard** (`components/dashboard/appts.tsx`): the
  replace-by-id of an edited row in the cached response, the pagination
  buttons and their page transitions, and the map of pending pushes for each
  appointment.
- **The volunteer form** (`components/volunteer-form/index.tsx`): the
  social links are upserted by type. The form also offers a placeholder link
  and adds the user to the organisation the form was opened for.
- **The people table row** (`components/dashboard/user-row.tsx`): edits
  that change one field and report nothing when the value is unchanged, plus
  the editable-email and vetted predicates.

JavaScript behaviour is modelled literally:
- `""[0]` in a template literal renders as `undefined`;
- `replace(' ', '')` removes only the first space;
- `oldId || updated.id` treats an empty id as absent;
- truthiness decides `visible` and the `time` override.

Hosted services are inputs to the model:
- search outcomes are a sequence of `Option<hits>`;
- organisation documents are a sequence of `Org`;
- attendee documents are a map from id to record;
- the order in which asynchronous reads complete is a sequence.

A trigger or handler that throws is `None`.

The code is followed wherever the surrounding prose differs from it:
- The availability test is containment, not overlap: the stored start is no
  later than the requested one and the stored end no earlier.
- A visible user who shares no organisation with the caller is truncated.
- When a query asks for availability and nothing else, each filter string
  begins with a bare `" AND "`. `FilterStrings.FilterStringsShape` states
  that form.
- A one-word name truncates to the word, a space, its own first letter and
  a full stop (`"Madonna"` becomes `"Madonna M."`; `Privacy.OneWordName`).
- A name ending in a space truncates to `"… undefined."`
  (`Privacy.TrailingSpaceName`).

Files: `option.dfy` (Optional), `text.dfy` (Text: the JavaScript string
operations used), `model.dfy` (Model: users, timeslots, queries), `json.dfy`
(Json: untyped documents), `filter_strings.dfy`, `search_merge.dfy`,
`privacy.dfy`, `algolia_sync.dfy`, `appts_dashboard.dfy`,
`volunteer_form.dfy`, `user_row.dfy`.

## Model

| member | source | states |
|---|---|---|
| Text.Split | lib/api/list-users.ts:134 | `split(' ')` gives at least one token, no token holds a space, and joining the tokens with a space gives the name back |
| Text.RemoveFirst | components/volunteer-form/index.tsx:121 | `replace(' ', '')` removes exactly the first space and keeps the string when it has none |
| Text.ToLower | components/volunteer-form/index.tsx:121 | lower-casing keeps the length, moves each upper-case ASCII letter up by 32 to its lower-case letter, keeps every other character, and leaves no upper-case letter |
| Text.RemoveFirstAt | components/volunteer-form/index.tsx:121 | removing the first space shifts every later character one place left and keeps the earlier ones |
| Text.IntToDecimal | lib/api/list-users.ts:72-73 | `${n}` renders at least one character, all decimal digits except a leading `-`, which appears iff the number is negative |
| Text.ParseIntRoundTrip | lib/api/list-users.ts:72-73 | the decimal rendering of a timestamp reads back as the same integer |
| FilterStrings.AddFilters | lib/api/list-users.ts:26-39 | no options leaves the base unchanged; otherwise the result starts with the base and ends with `)`; an empty base or one already ending in " AND " gets the group appended with no extra " AND "; any other base gets " AND " and then the group |
| FilterStrings.PartialStep | lib/api/list-users.ts:33-37 | one turn of the loop adds "(" before the first term or " OR " before a later one, then the term, then ")" after the last term |
| FilterStrings.AddFiltersLoop | lib/api/list-users.ts:31-38 | the term-by-term loop builds exactly the base, the optional " AND " and the parenthesised OR-group of the options in list order |
| FilterStrings.AddFiltersAppendsConjunct | lib/api/list-users.ts:31-37 | on a conjunction of well-formed clauses, adding filters appends the OR-group as one more conjunct, and adds nothing for no options |
| FilterStrings.BaseFilterIsConjunction | lib/api/list-users.ts:55-67 | the chained calls equal the " AND "-join of the requested clauses in the fixed order: visibility, aspect subjects, langs, verification checks, orgs, tags |
| FilterStrings.NoClauseRequested | lib/api/list-users.ts:55-67 | a query requests no clause iff visibility is unset and every option list is empty, so absent attributes contribute no text |
| FilterStrings.NoClauseNoText | lib/api/list-users.ts:55-67 | the base filter is empty text exactly when no clause is requested |
| FilterStrings.GetFilterStrings | lib/api/list-users.ts:54-78 | there are max(1, number of timeslots) strings; with no timeslot the one string is the base filter; the i-th string is the base, " AND " and the i-th containment test |
| FilterStrings.FilterStringsShape | lib/api/list-users.ts:68-77 | each string is the conjunction of the requested clauses and its timeslot's test; with no clause it is a bare " AND " before the test |
| FilterStrings.FilterStringsSharePrefix | lib/api/list-users.ts:68-75 | all strings of a query share the text up to their containment test and differ only in the timeslot tested |
| FilterStrings.AvailabilityClauseRoundTrip | lib/api/list-users.ts:72-73 | the containment test names exactly its window: the start on the `availability.from <=` side, the end on the `availability.to >=` side |
| FilterStrings.OptionalFilters | lib/api/list-users.ts:86-88 | the ranking hint is always one string, `featured:` followed by exactly the aspect's name |
| FilterStrings.OptionalFiltersOnlyAspect | lib/api/list-users.ts:86-88 | two queries get the same ranking hint iff they have the same aspect, whatever their other fields |
| SearchMerge.RequestFor | lib/api/list-users.ts:106-108 | every search has empty text and the ranking hint; a `filters` option is sent iff the filter string is present and non-empty |
| SearchMerge.FilterStringsOrFallback | lib/api/list-users.ts:100-101 | the compiled strings are searched as they are: the fallback to one unfiltered search never applies |
| SearchMerge.SearchRequests | lib/api/list-users.ts:100-108 | one search call per filter string, max(1, number of timeslots) in all |
| SearchMerge.UnfilteredOnlyForEmptyQuery | lib/api/list-users.ts:100-108 | a search goes out without a filter iff the query asks for no clause and no timeslot |
| SearchMerge.AddHits | lib/api/list-users.ts:116-119 | merging a response keeps the earlier results as a prefix, adds only hits of the response, keeps ids unique, and the ids become the union |
| SearchMerge.MergeOutcomes | lib/api/list-users.ts:104-122 | the fold keeps the results it started from as a prefix, keeps ids unique, and ends with the union of their ids and the ids of every successful response |
| SearchMerge.SearchUsers | lib/api/list-users.ts:98-124 | the merged list holds no object id twice and exactly the ids of the successful responses |
| SearchMerge.FirstOccurrences | lib/api/list-users.ts:104-120 | the reference merge holds unique ids, the same ids as the hits, and the first hit of every id |
| SearchMerge.AddHitsIsFirstOccurrences | lib/api/list-users.ts:116-119 | appending one response's hits to the first occurrences so far gives the first occurrences of all hits |
| SearchMerge.MergeIsFirstOccurrencesFrom | lib/api/list-users.ts:104-122 | the fold over outcomes equals the first occurrences of all successful hits in processing order |
| SearchMerge.SearchUsersIsFirstOccurrences | lib/api/list-users.ts:98-124 | the merged users are the first hit of each id across the successful responses: no id twice, every id present, first hit wins |
| SearchMerge.FailedQueryIgnored | lib/api/list-users.ts:112-114 | a failed request, wherever it comes, changes nothing and does not stop the later outcomes from merging |
| SearchMerge.FirstOccurrencesPrefix | lib/api/list-users.ts:116-119 | results already merged keep their places: more hits only append |
| Privacy.CallerOrgs | lib/api/list-users.ts:166-181 | the caller's organisations are exactly those listing the verified uid as a member; none without a header or with a rejected token |
| Privacy.SharesOrg | lib/api/list-users.ts:185 | `some(indexOf >= 0)` holds iff the caller's and the user's organisations intersect |
| Privacy.FirstNameAndLastInitial | lib/api/list-users.ts:133-136 | the truncated name is the first space-separated token, a space, the last token's first character (`undefined` if empty) and a full stop |
| Privacy.TwoWordName | lib/api/list-users.ts:129-136 | a first and a last name without spaces truncate to the first name, a space, the last name's initial and a full stop ("Nicholas C.") |
| Privacy.OneWordName | lib/api/list-users.ts:133-136 | a one-word name truncates to the word and its own initial ("Madonna M.") |
| Privacy.TrailingSpaceName | lib/api/list-users.ts:133-136 | a trailing space gives an empty last token, rendered "undefined" ("Nicholas undefined.") |
| Privacy.TruncatedNameKeepsFirstToken | lib/api/list-users.ts:126-136 | the truncated name begins with the first token, which is a prefix of the name and holds no space |
| Privacy.Project | lib/api/list-users.ts:187-202 | a kept user is returned in full iff the organisations intersect; otherwise the view has the truncated name and the public fields, with no email or phone |
| Privacy.ListUsers | lib/api/list-users.ts:183-203 | the response has no more entries than merged users, and full views only for users sharing an organisation |
| Privacy.ListUsersSound | lib/api/list-users.ts:183-203 | every entry is the projection of a merged user who is visible or shares an organisation |
| Privacy.ListUsersComplete | lib/api/list-users.ts:183-203 | every merged user who is visible or shares an organisation has their projection in the response |
| Privacy.ListUsersSingle | lib/api/list-users.ts:183-203 | one user is kept iff visible or sharing an organisation, and then appears as its projection |
| Privacy.ListUsersAppend | lib/api/list-users.ts:183-203 | filtering and projecting commutes with concatenation, so the merged order is kept and each user's fate depends on that user alone |
| Privacy.AnonymousSeesPublicProfiles | lib/api/list-users.ts:183-203 | a caller with no organisation gets exactly the public profiles of the visible users, in order |
| Privacy.Hydrate | lib/api/list-users.ts:117-118 | a merged hit becomes the user with the hit's object id |
| Privacy.ViewIdsFromUsers | lib/api/list-users.ts:183-203 | every returned view carries the id of a user it came from |
| Privacy.ListUsersKeepsIdsUnique | lib/api/list-users.ts:183-203 | users with distinct ids give views with distinct ids |
| Privacy.ListUsersResponse | lib/api/list-users.ts:159-206 | the response lists no user twice, only users from successful searches, and, for an unauthenticated caller, only truncated views |
| AlgoliaSync.Slot | firebase/functions/src/algolia.ts:44-46 | a slot with two timestamp ends becomes exactly `{from, to}` in their milliseconds; anything else throws |
| AlgoliaSync.SlotOfStamps | firebase/functions/src/algolia.ts:44-46 | a stored timestamp slot converts to the same window in milliseconds |
| AlgoliaSync.Slots | firebase/functions/src/algolia.ts:47-49 | the mapping succeeds iff every slot converts; the length is kept and each slot converts on its own |
| AlgoliaSync.Availability | firebase/functions/src/algolia.ts:47-49 | an array converts with its length kept, the i-th slot of the result being the conversion of the i-th stored slot; a non-array or a malformed slot throws |
| AlgoliaSync.AvailabilityOfStamps | firebase/functions/src/algolia.ts:44-49 | a stored availability becomes the same windows in milliseconds, in order |
| AlgoliaSync.Tags | firebase/functions/src/algolia.ts:56-60 | the tags are `["not-vetted"]` or empty, and empty iff `verifications` is truthy with a truthy length |
| AlgoliaSync.TagsOfVerifications | firebase/functions/src/algolia.ts:56-60 | a user with no `verifications` is tagged; with an array, tagged iff it is empty |
| AlgoliaSync.AttendeeHandles | firebase/functions/src/algolia.ts:97-99 | the attendee handles keep the length and order of the attendees; the call throws iff some attendee is undefined or null |
| AlgoliaSync.Handles | firebase/functions/src/algolia.ts:95-101 | the handles are the creator's and then each attendee's in order, 1 + the number of attendees in all |
| AlgoliaSync.FilterOnly | firebase/functions/src/algolia.ts:87-92 | the faceting list keeps the attributes' length and order and wraps each as `filterOnly(attr)` |
| AlgoliaSync.FilterOnlyRoundTrip | firebase/functions/src/algolia.ts:91 | each setting unwraps to exactly its attribute |
| AlgoliaSync.AddAll | firebase/functions/src/algolia.ts:127 | adding to the set keeps the earlier entries as a prefix, never duplicates, and the contents become the union |
| AlgoliaSync.CollectOrgs | firebase/functions/src/algolia.ts:119-133 | the fold succeeds iff every existing attendee's orgs is an array; the list has no duplicates and holds exactly the organisations of the existing attendees |
| AlgoliaSync.AttendeeIds | firebase/functions/src/algolia.ts:122-123 | the ids are read iff the attendees are an array whose every entry has a string `id`; they keep the attendees' length and order |
| AlgoliaSync.ApptOrgs | firebase/functions/src/algolia.ts:119-133 | the appointment's organisations are the union over existing attendees with no duplicates; missing attendees are skipped |
| AlgoliaSync.ApptOrgsOrderFree | firebase/functions/src/algolia.ts:121-130 | the order in which the reads complete changes neither success nor the contents of the list |
| AlgoliaSync.IndexNamesDistinct | firebase/functions/src/algolia.ts:136-179 | `<p>-appts` and `<q>-users` never coincide, and each partition has its own name |
| AlgoliaSync.ApptRecord | firebase/functions/src/algolia.ts:119-155 | the record is built iff a truthy time converts, the handles can be read, every attendee has a string id and every existing attendee's orgs is an array; it is the document with `time` (the converted slot, or undefined when falsy), `handles` (the creator's and the attendees'), `orgs` (the union, without duplicates) and `objectID` overridden, every other field copied |
| AlgoliaSync.ApptUpdate | firebase/functions/src/algolia.ts:103-164 | a removed appointment is deleted by id; otherwise the trigger throws iff the record cannot be built, and else saves that record, whose `objectID` is the id; both paths target `<partition>-appts` and end with the `handles`/`orgs` faceting |
| AlgoliaSync.UserRecord | firebase/functions/src/algolia.ts:190-198 | the record copies the document and overrides availability in milliseconds, `visible` as a boolean, `_tags` and `objectID` |
| AlgoliaSync.UserUpdate | firebase/functions/src/algolia.ts:174-220 | a removed user is deleted by uid; otherwise the trigger throws iff the availability cannot be converted, and else saves exactly the record `UserRecord` builds (converted availability, `visible` as `!!visible`, the tags, `objectID` = uid, every other field copied); both paths target `<partition>-users` and end with the user faceting list |
| AlgoliaSync.StoredUserIsIndexed | firebase/functions/src/algolia.ts:192-198 | a user stored with timestamp availability is always indexed, with the same windows in milliseconds |
| ApptsDashboard.FindIndex | components/dashboard/appts.tsx:136 | the first row with the key, or -1 exactly when no row has it |
| ApptsDashboard.LookupKey | components/dashboard/appts.tsx:136 | the key is the old id when it is given and non-empty, otherwise the row's own id |
| ApptsDashboard.UpdateLocal | components/dashboard/appts.tsx:133-144 | no cache stays none; no matching row leaves the cache as it is; otherwise only the first matching row is replaced, with length and hit count kept |
| ApptsDashboard.UpdateLocalIdempotent | components/dashboard/appts.tsx:133-144 | writing the same row twice is writing it once |
| ApptsDashboard.UpdateLocalFindsRow | components/dashboard/appts.tsx:136-143 | after an update the new row is found under its id at the replaced place, unless an earlier untouched row has that id |
| ApptsDashboard.NextDisabled | components/dashboard/appts.tsx:270-272 | with a positive page size, "next" is disabled iff (page + 1) × rows per page ≥ hits; with a page size of 0 only a negative hit count disables it |
| ApptsDashboard.PrevLeadsToFirstPage | components/dashboard/appts.tsx:261-267 | from any page, "previous" stays enabled, moving back one page at a time, until it reaches page 0, where it is disabled |
| ApptsDashboard.Step | components/dashboard/appts.tsx:190-277 | editing the search or the page size resets the page to 0; previous and next move it by exactly one; nothing else changes |
| ApptsDashboard.InitialQueryValid | components/dashboard/appts.tsx:82-87 | the table starts on page 0 with an offered page size |
| ApptsDashboard.StepKeepsValid | components/dashboard/appts.tsx:246-277 | enabled controls keep the page non-negative and the page size offered, and "next" only opens a page that starts before the last hit |
| ApptsDashboard.PrevUndoesNext | components/dashboard/appts.tsx:264-277 | previous undoes next and next undoes previous |
| ApptsDashboard.Schedule | components/dashboard/appts.tsx:125-162 | an edit cancels the pending push of its appointment, if any, and leaves one push for the edit; other appointments keep theirs |
| ApptsDashboard.ScheduleAll | components/dashboard/appts.tsx:125-162 | after a run of edits the pending pushes are those before plus one for every edited appointment |
| ApptsDashboard.LastEdit | components/dashboard/appts.tsx:125-162 | the edit of an appointment after which no later edit touches it, absent iff it was not edited |
| ApptsDashboard.LastEditWins | components/dashboard/appts.tsx:125-162 | after a run of edits, each edited appointment has one pending push, for its last edit; the others keep theirs |
| VolunteerForm.SocialIndex | components/volunteer-form/index.tsx:97-99 | the position of the first link of a type, or -1 exactly when there is none |
| VolunteerForm.GetSocial | components/volunteer-form/index.tsx:100-103 | the url of the first link of the type, or "" when there is none |
| VolunteerForm.UpdateSocial | components/volunteer-form/index.tsx:105-114 | the first link of the type is replaced in place, or a link is appended; every other entry is unchanged |
| VolunteerForm.GetAfterUpdate | components/volunteer-form/index.tsx:97-114 | after an update the type reads back with the new url |
| VolunteerForm.UpdateLeavesOtherTypes | components/volunteer-form/index.tsx:105-114 | an update leaves the position and url of every other type as they were |
| VolunteerForm.UpdateSocialIdempotent | components/volunteer-form/index.tsx:105-114 | updating a type twice with the same url is updating it once |
| VolunteerForm.PlaceholderName | components/volunteer-form/index.tsx:120-122 | the handle is "yourname" for an empty name; otherwise it is the name lower-cased character by character with the first space dropped (the characters after it move one place left), so one character shorter when the name has a space, with no upper-case letter |
| VolunteerForm.PlaceholderNameSpaces | components/volunteer-form/index.tsx:120-122 | the handle keeps a space iff the name has a second space: only the first one goes |
| VolunteerForm.FocusSocial | components/volunteer-form/index.tsx:119-126 | the focus adds the placeholder link iff the user has no link of that type, appending it and changing nothing else |
| VolunteerForm.FocusSocialOnce | components/volunteer-form/index.tsx:119-126 | after the focus the type has a link, and a second focus changes nothing |
| VolunteerForm.IndexOfOrg | components/volunteer-form/index.tsx:80 | `indexOf` finds the organisation, or -1 exactly when it is absent |
| VolunteerForm.JoinOrg | components/volunteer-form/index.tsx:77-87 | no update without an organisation; otherwise it is appended when absent and the list is unchanged when present, with nothing else changed |
| VolunteerForm.JoinOrgIdempotent | components/volunteer-form/index.tsx:77-87 | afterwards the organisation is in the list, and applying the effect again gives the same user |
| UserRow.EventValue | components/dashboard/user-row.tsx:152-155 | the visibility field takes the checkbox's boolean and every other field the text |
| UserRow.OnEventChange | components/dashboard/user-row.tsx:150-160 | nothing is reported iff the value equals the field; otherwise that field holds it and every other field is unchanged |
| UserRow.OnEventChangeSettles | components/dashboard/user-row.tsx:150-160 | replaying the same event on the reported copy reports nothing |
| UserRow.OnValueChange | components/dashboard/user-row.tsx:161-167 | nothing is reported iff the value deep-equals the field; otherwise only that field is replaced |
| UserRow.OnSubjectsChange | components/dashboard/user-row.tsx:168-174 | nothing is reported iff the subjects are equal; otherwise only that aspect's subjects change, and its searches and the other aspect are kept |
| UserRow.EmailEditableIff | components/dashboard/user-row.tsx:178 | the email is editable iff the id is "temp" followed by anything |
| UserRow.VettedAgreesWithTags | components/dashboard/user-row.tsx:43 | the vetted box is checked iff the index leaves the user without the "not-vetted" tag |

## Left out

- Hosted services are not modelled; their results are inputs. This covers the search calls, `saveObject`, `deleteObject`, `setSettings`, the Firestore reads and `auth.verifyIdToken`. The failures of the search calls, of the token check and of the index calls are caught and logged in the source, so each trigger's actions are the calls it issues.
- Two reads are not guarded in the source, and the model takes them as succeeding: the organisations query of `lib/api/list-users.ts:174-178`, whose failure rejects the handler, and an attendee's document read at `firebase/functions/src/algolia.ts:123`, whose failure makes the appointment trigger throw before it saves.
- Concurrency is not modelled. The merge and the org union are folds over an arbitrary given order, and no claim is made about which order occurs.
- Timers, the SWR cache and revalidation, axios, Intercom and logging are left out. The 5-second push is only the abstract map of pending pushes. `ApptsDashboard.Schedule` does not model the timer firing, which in the source leaves its entry in the map.
- The `searching` and `valid` flags of the dashboard are not modelled, and neither are the `submitting`/`submitted` flags of the form's submit handler: they depend on React state batching and timers.
- The model library is not part of this model (`Query.fromURLParams`, `User.fromSearchHit`, `toJSON`, the `User` constructor, `Org.fromFirestore`):
  - a merged hit becomes its record with the hit's object id;
  - `updateUser(new User(...))` is treated as handing over the updated record.
- Firestore timestamps are a value carrying their epoch milliseconds; `Timestamp.toMillis` is that value.
- Integers stand for JavaScript numbers. Rendering uses plain decimal digits, which JavaScript also uses below 10^21.
- `toLowerCase` is modelled on the ASCII letters only.
- Privacy.FirstNameAndLastInitial: a Dafny string is a sequence of Unicode scalar values, while `[0]` takes the first UTF-16 code unit. For a last name that starts with a character outside the Basic Multilingual Plane the source yields half a surrogate pair and the model the whole character.
- The JavaScript `Set` in the org union is modelled with structural equality. It differs from reference equality only for organisation entries that are objects, which the stored documents do not hold.
- Firestore's own checks on document ids are not modelled. An attendee id such as `""` or one containing `/` is looked up in the map of attendee documents like any other id, while the source's `doc(id)` throws on it (or, for some ids with slashes, reads a document at a nested path).
- UserRow.OnValueChange: deep equality is modelled as structural equality of the values. `fast-deep-equal` also compares constructors, so a schedule value of another class than the stored one would be reported even when equal.
- The form's plain single-field edits (`shared(key)`, photo, langs, bio, availability and the form's subjects select) are not modelled; `UserRow` models edits of the same kind.
- All rendering and styling is left out. The header, search, volunteer-page and org-display components, the pupil form configuration, `_app.tsx` and `next.config.js` hold no logic of the modelled kind.
