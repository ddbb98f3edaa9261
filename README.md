# ftek-plugin core rules, modelled in Dafny

This project models the small, self-contained rules inside the ftek-plugin
WordPress plugin and proves properties of them:

- **Current courses block** (`current_courses.dfy`, module `CurrentCourses`):
  which course pages are listed for the selected program syllabus and the
  current study period, the per-bachelor-year lists sorted by participant
  count, the schedule links in each year's heading, the choice of the current
  study period from the configured period end dates, the stored syllabus id
  and the syllabus dropdown.
- **Course page block** (`course_page.dfy`, module `CoursePage`): the student
  representative list and its three edits (remove, edit one field, add), the
  numeric inputs for credits and participant count, the partial metadata
  update, how representatives are displayed, and the inner block template.
- **OAuth client** (`oauth.dfy`, module `OAuthClient`): the authorization-code
  client of RFC 6749 (sections 4.1.1, 4.1.3 and 6) with endpoints read from an
  OpenID Connect Discovery 1.0 document: endpoint discovery, the anti-forgery
  state and its cookie, the auth token's lifecycle and the request parameters.
  `OAuth` is a class whose fields the methods update (`authToken`, the cookies
  written), as in the PHP class.
- `sequences.dfy` (module `Sequences`) holds the JavaScript array operations
  the blocks use: `filter`, a stable `sort`, `join` and `splice`;
  `numbers.dfy` (module `Numbers`) holds what `Number(...)` yields and its
  truthiness; `wrappers.dfy` holds `Option` and `Result`.

How things are represented:

- HTTP responses, the incoming state cookie and the bytes from `random_bytes`
  are inputs. A response is its status code (absent when the request failed
  outright) and its decoded body. A decoded body is either `null` or an
  associative array of strings.
- Exceptions are `Failure` results. `ReturnTypeError` stands for PHP's
  TypeError when a method declared to return `array` returns something else.
- React state setters become return values. The current-period selection
  returns the period it would pass to `setCurrentSp`. A numeric input's
  `onChange` returns the new text state and the partial update it passes to
  `updateMeta`, if any.
- Dates are `(month, day)` of the current year. "Now" also carries the
  milliseconds since midnight. A period end is the midnight starting its
  day, so `now > end` already holds during the end day itself once
  midnight has passed.
- `Number(...)` is not parsed; its result is an input. `Numbers.JsNumber` is what it yields: NaN, an infinity, or a finite `real` (the two zeros are one value).
- Other JavaScript numbers (participant counts, credits) are `real`.

Behaviour of the code as written that the model keeps:

- `get_endpoints` never assigns the `endpoints` field, so every call fetches
  the discovery document again (`OAuth.GetEndpoints` takes a fresh response
  each time; `OAuth.Valid` records that the field stays empty).
- The guard of `fetch_user_info` also tests a local `$refresh_token` that is
  never defined, so it reduces to "no auth token: throw".
- `get_authorization_url` builds its query first. So the state cookie is
  already set when the later endpoint lookup throws.
- `validate_state` on a request without a state cookie issues a new one and
  compares with that fresh key.
- A token response with status 200 whose body does not decode is stored as
  `null` before the `array` return type throws.
- `Number(localStorage.getItem(…)) || -1` also maps a stored `0` to -1, not
  only a missing or unparsable value.
- With no configured study period ends, `sps[0].sp` throws before a period
  is set, so no period is chosen.
- The schedule links go through `replace`, which expands `$$`, `$&`, `` $` ``
  and `$'` in them (see Findings).

## Model

| member | source | states |
|---|---|---|
| `Sequences.Filter` | src/blocks/current-courses/current-courses.tsx:132-140 | `filter` keeps exactly the elements satisfying the predicate: every kept element is from the input and satisfies it, and every input element satisfying it is kept |
| `CurrentCourses.ListedPosts` | src/blocks/current-courses/current-courses.tsx:132-140 | every listed post comes from the fetched posts and passes the filter, and every fetched post that passes it is listed |
| `CurrentCourses.Listed` | src/blocks/current-courses/current-courses.tsx:133-139 | a listed post always lies in the current period, so nothing is listed before that period is known; before any syllabus is loaded the period alone decides; afterwards a listed post carries some syllabus, and the selected one when the selected id is not negative (a negative number or -Infinity means all) |
| `CurrentCourses.Includes` | src/blocks/current-courses/current-courses.tsx:136 | `includes` on integer ids holds exactly when some id is strictly equal to the number, so NaN, infinities and fractions match none |
| `CurrentCourses.NothingListedBeforePeriodKnown` | src/blocks/current-courses/current-courses.tsx:137-139 | while the current period is still null, no post is listed |
| `CurrentCourses.YearCourses` | src/blocks/current-courses/current-courses.tsx:32-40 | each year's list is ordered by participant count, highest first |
| `CurrentCourses.YearCoursesPermutation` | src/blocks/current-courses/current-courses.tsx:32-35 | each year's list is a permutation of exactly the posts whose years include that year |
| `CurrentCourses.YearCoursesStable` | src/blocks/current-courses/current-courses.tsx:36-40 | the posts sharing any given post's participant count appear in the year's list in their fetched order |
| `Sequences.SortBy` | src/blocks/current-courses/current-courses.tsx:36-40 | the sort returns a permutation of its input, ordered by the key |
| `Sequences.SortByStable` | src/blocks/current-courses/current-courses.tsx:182 | the sort is stable: elements with equal keys keep their input order |
| `Sequences.FilterConcat` | src/blocks/current-courses/current-courses.tsx:32-35 | filtering never reorders: it distributes over concatenation |
| `Sequences.FilterMultiset` | src/blocks/current-courses/current-courses.tsx:132-140 | a filtered element occurs as often as in the input, a rejected one not at all |
| `CurrentCourses.LinkEntries` | src/blocks/current-courses/current-courses.tsx:42-48 | the `flatMap` yields at most one link per program |
| `CurrentCourses.LinkEntriesFollowPrograms` | src/blocks/current-courses/current-courses.tsx:42-48 | one link per program that has a non-empty schedule for the year, in `PROGRAMS` order, each pointing at that program's schedule |
| `CurrentCourses.ScheduleLink` | src/blocks/current-courses/current-courses.tsx:46 | a schedule link is never empty |
| `Sequences.Join` | src/blocks/current-courses/current-courses.tsx:49 | a single part is returned as is; the result starts with the first part, followed by the separator when there are more; joining non-empty parts is empty exactly when there are no parts |
| `CurrentCourses.ScheduleLinks` | src/blocks/current-courses/current-courses.tsx:42-49 | the joined links are empty exactly when no program has a schedule for the year |
| `CurrentCourses.IndexOf` | src/blocks/current-courses/current-courses.tsx:56-59 | the position `replace` substitutes at: an occurrence of the pattern with none before it, or none when the pattern does not occur |
| `CurrentCourses.Substitution` | src/blocks/current-courses/current-courses.tsx:56-59 | `$$`, `$&`, `` $` `` and `$'` in the replacement are expanded as for a string pattern; a replacement without `$` is inserted unchanged |
| `CurrentCourses.Replace` | src/blocks/current-courses/current-courses.tsx:56-59 | with no occurrence of the pattern the text is returned unchanged; otherwise only the first occurrence is replaced by the expanded replacement, with the text before and after it kept |
| `CurrentCourses.ScheduleSlotPosition` | src/blocks/current-courses/current-courses.tsx:56-59 | in the template `(Schedule %1$s)` the first `%1$s` follows the opening `(Schedule ` and is followed by `)` |
| `CurrentCourses.ScheduleText` | src/blocks/current-courses/current-courses.tsx:56-59 | `replace` yields the template's opening, the links with their `$` patterns expanded, and the closing parenthesis |
| `CurrentCourses.YearHeading` | src/blocks/current-courses/current-courses.tsx:51-60 | the heading starts with the year label and gets " " plus the schedule text appended exactly when the links are non-empty |
| `CurrentCourses.IntendedYearHeading` | src/blocks/current-courses/current-courses.tsx:51-60 | with the links inserted as they are, the heading holds them verbatim between " (Schedule " and ")" |
| `CurrentCourses.YearHeadingWithoutDollar` | src/blocks/current-courses/current-courses.tsx:51-60 | when no schedule URL holds a `$`, the heading as written equals the intended one |
| `CurrentCourses.SubstitutionOfPlainChar` | src/blocks/current-courses/current-courses.tsx:56-59 | a replacement character other than `$` is copied as it is |
| `CurrentCourses.SubstitutionOfPlainPrefix` | src/blocks/current-courses/current-courses.tsx:56-59 | a replacement prefix without `$` is copied as it is, ahead of the expansion of the rest |
| `CurrentCourses.SubstitutionOfMatch` | src/blocks/current-courses/current-courses.tsx:56-59 | in a replacement `p + "$&" + q` where neither `p` nor `q` holds a `$`, the `$&` stands for the matched text |
| `CurrentCourses.DollarAmpersandInLink` | src/blocks/current-courses/current-courses.tsx:51-60 | links `p + "$&" + q` where neither `p` nor `q` holds a `$` come out as `p + "%1$s" + q`, so the heading differs from the intended one (a `$$&` instead yields `$&`, which this lemma does not cover) |
| `CurrentCourses.Passed` | src/blocks/current-courses/current-courses.tsx:185 | an end has passed iff today is a later month, or a later day of its month, or its own day after midnight |
| `CurrentCourses.LastPassed` | src/blocks/current-courses/current-courses.tsx:184-189 | the index found is the highest whose end has passed: it has passed and none after it has (-1 when none has) |
| `CurrentCourses.CurrentIndex` | src/blocks/current-courses/current-courses.tsx:186-190 | the chosen index is always a valid index of the ends |
| `CurrentCourses.ScanEnds` | src/blocks/current-courses/current-courses.tsx:184-190 | the descending loop with early return yields the index after the last passed end, modulo the count, or 0 |
| `CurrentCourses.SelectCurrentPeriod` | src/blocks/current-courses/current-courses.tsx:167-190 | ends are sorted by date and the period chosen by the scan is returned; none iff no ends are configured; the result is always a configured period |
| `CurrentCourses.NoEndPassedGivesFirst` | src/blocks/current-courses/current-courses.tsx:190 | when no end has passed yet, the first period by end date is current |
| `CurrentCourses.LastEndPassedWraps` | src/blocks/current-courses/current-courses.tsx:185-186 | once the year's last end has passed, the selection wraps around to the first period |
| `CurrentCourses.CurrentIsNextEnd` | src/blocks/current-courses/current-courses.tsx:184-190 | otherwise the current period's end has not passed and the previous period's end has |
| `CurrentCourses.StoredSyllabusId` | src/blocks/current-courses/current-courses.tsx:122-124 | a truthy stored number is used as it is, anything else (NaN, a missing item or 0) gives -1; the result is always truthy |
| `CurrentCourses.NameOf` | src/blocks/current-courses/current-courses.tsx:145-149 | the name returned is that of the first entry whose id is strictly equal to the number; none iff no entry's id is |
| `CurrentCourses.SyllabusOptions` | src/blocks/current-courses/current-courses.tsx:151-157 | the options are the "all" sentinel with value -1 followed by every loaded syllabus in order |
| `CurrentCourses.SyllabusControl` | src/blocks/current-courses/current-courses.tsx:142-160 | the dropdown exists iff syllabuses are loaded; it is disabled while loading; its label reads "Program syllabus" when the selected number is -1, else the name of the syllabus whose id equals it (none for NaN, infinities or fractions) |
| `CoursePage.Merge` | src/blocks/course-page/editor.tsx:396-397 | after `{ ...meta, ...m }` every field the patch gives holds its value, and the update changes nothing exactly when the metadata already agreed with the patch |
| `CoursePage.MergeFields` | src/blocks/course-page/editor.tsx:396-397 | for each of the twelve metadata fields: given in the partial update, it takes that value; not given, it is unchanged; an empty update changes nothing |
| `CoursePage.MergeIdempotent` | src/blocks/course-page/editor.tsx:396-397 | applying the same partial update twice equals applying it once |
| `CoursePage.MergeThen` | src/blocks/course-page/editor.tsx:396-397 | two successive partial updates equal one update in which the later fields win |
| `CoursePage.CopyToArray` | src/blocks/course-page/editor.tsx:127-129 | the spread copy is a fresh array holding the list |
| `CoursePage.RemoveRepresentative` | src/blocks/course-page/editor.tsx:126-133 | copy-then-splice in place yields the list without entry i (unchanged if i is past the end) |
| `Sequences.Without` | src/blocks/course-page/editor.tsx:130 | `splice(i, 1)` keeps the prefix, shifts the suffix down by one and loses exactly the removed element; an index past the end changes nothing |
| `CoursePage.RenameRepresentative` | src/blocks/course-page/editor.tsx:140-151 | only entry i's name changes; its CID, the length and all other entries are unchanged |
| `CoursePage.SetRepresentativeCid` | src/blocks/course-page/editor.tsx:160-171 | only entry i's CID changes; its name, the length and all other entries are unchanged |
| `CoursePage.AddRepresentative` | src/blocks/course-page/editor.tsx:176-184 | "Add" grows the list by one blank entry at the end and keeps the prefix |
| `CoursePage.RemoveUndoesAdd` | src/blocks/course-page/editor.tsx:176-184 | removing the entry just added restores the old list |
| `CoursePage.OnNumericChange` | src/blocks/course-page/editor.tsx:80-86 | the typed text is always kept; an update of that one field is issued iff the parsed number is finite and non-negative (the same for participant count at lines 247-253) |
| `CoursePage.ShownValue` | src/blocks/course-page/editor.tsx:79 | an input shows its typed text once there is one, otherwise the stored number of its own field (the same for participant count at lines 242-246) |
| `CoursePage.NumericChangeKeepsInvariant` | src/blocks/course-page/editor.tsx:79-86 | after any edit the input shows the typed text, credits and participant count stay non-negative, no other field changes, and a rejected value leaves the metadata unchanged |
| `CoursePage.ItemOf` | src/blocks/course-page/editor.tsx:310-321 | the text shown is the name, or the CID when the name is empty, and is non-empty for an identified representative; a mailto link to cid@student.chalmers.se exists iff the CID is non-empty |
| `CoursePage.RepresentativesSection` | src/blocks/course-page/editor.tsx:285-327 | the section is absent iff no representative has a name or CID; otherwise one non-empty item per such representative, in order |
| `CoursePage.BlankRowsHidden` | src/blocks/course-page/editor.tsx:285-287 | a blank row added with "Add" is never displayed |
| `CoursePage.InnerBlocksTemplate` | src/blocks/course-page/editor.tsx:360-394 | the template starts with the Description heading and paragraph; the Documents heading and drive list follow iff the drive-list block is registered |
| `CoursePage.TemplatePrefix` | src/blocks/course-page/editor.tsx:371-393 | the template without the drive list is a prefix of the one with it |
| `OAuthClient.Bin2Hex` | includes/login/class-oauth.php:193 | two lower-case hex digits per byte |
| `OAuthClient.HexRoundTrip` | includes/login/class-oauth.php:193 | hex decoding the encoded bytes gives them back |
| `OAuthClient.GenerateRandomKey` | includes/login/class-oauth.php:189-194 | a generated key is 32 lower-case hex characters |
| `OAuthClient.SanitizeKey` | includes/login/class-oauth.php:201 | the sanitized cookie holds only a-z, 0-9, '_' and '-', is no longer than the cookie, and equals it when it already held only those |
| `OAuthClient.GeneratedKeySurvivesSanitizing` | includes/login/class-oauth.php:199-207 | a generated state read back from the cookie is unchanged by sanitizing |
| `OAuthClient.EndpointKeyCount` | includes/login/class-oauth.php:15-19 | there are three distinct endpoint keys |
| `OAuthClient.AuthorizationQuery` | includes/login/class-oauth.php:71-81 | the authorization query has exactly its eight keys, with `response_type=code`, `scope="openid email profile"` and the given state |
| `OAuthClient.AuthorizationCodeBody` | includes/login/class-oauth.php:96-102 | the code grant body carries exactly code, client_id, client_secret, redirect_uri and grant_type=authorization_code |
| `OAuthClient.RefreshBody` | includes/login/class-oauth.php:115-121 | the refresh body carries exactly refresh_token, client_id, client_secret and grant_type=refresh_token |
| `OAuthClient.RequestsFollowRfc6749` | includes/login/class-oauth.php:70-121 | the three parameter maps are well-formed requests under RFC 6749 sections 4.1.1, 4.1.3 and 6; the scope includes `openid` |
| `OAuthClient.OAuth.constructor` | includes/login/class-oauth.php:59-63 | a new client holds the configured settings, no token, no cookie written, and an empty endpoint field |
| `OAuthClient.OAuth.GetEndpoints` | includes/login/class-oauth.php:214-236 | a non-200 status or an empty/undecodable document throws; otherwise the result is the document restricted to the three endpoint keys, and it throws iff one is missing |
| `OAuthClient.ValidClientFetchesEveryTime` | includes/login/class-oauth.php:214-215 | since the cache field is never written, the endpoint lookup depends only on the fetched document |
| `OAuthClient.OAuth.StateValue` | includes/login/class-oauth.php:199-207 | the state is the sanitized cookie when present, else a fresh 32-character key; it only holds key characters |
| `OAuthClient.OAuth.StateCookieWrites` | includes/login/class-oauth.php:202-205 | a cookie is written iff the request had none, and it holds the 32-character state that is returned |
| `OAuthClient.OAuth.GetState` | includes/login/class-oauth.php:199-207 | returns the state value; writes the cookie, with that same key, only when the request had none |
| `OAuthClient.CookieDecidesState` | includes/login/class-oauth.php:200-201 | with a state cookie, every state check yields the same value and writes nothing |
| `OAuthClient.OAuth.ValidateState` | includes/login/class-oauth.php:178-180 | true iff the candidate equals the current state value; has `get_state`'s cookie effect |
| `OAuthClient.StateRoundTrip` | includes/login/class-oauth.php:178-207 | whenever the authorization query was built, the callback request carrying the issued cookie accepts the state sent in that query |
| `OAuthClient.OAuth.GetAuthorizationUrl` | includes/login/class-oauth.php:70-84 | the request goes to the discovered authorization endpoint with the authorization query; discovery errors are passed on; the state cookie is written even then |
| `OAuthClient.OAuth.UpdateAuthToken` | includes/login/class-oauth.php:131-143 | the body is posted to the discovered token endpoint; a non-200 status throws and leaves the token unchanged; on 200 the decoded body becomes the token and is returned (a `null` body is stored, then throws) |
| `OAuthClient.OAuth.FetchAuthToken` | includes/login/class-oauth.php:94-104 | the token update with the authorization-code body |
| `OAuthClient.OAuth.RefreshAuthToken` | includes/login/class-oauth.php:113-122 | the token update with the refresh body |
| `OAuthClient.AccessToken` | includes/login/class-oauth.php:159 | the bearer credential is the token's access_token, or empty when there is no token or it has none |
| `OAuthClient.OAuth.FetchUserInfo` | includes/login/class-oauth.php:150-171 | throws without a token; otherwise gets the discovered userinfo endpoint with the bearer access token and returns the decoded body on 200 |
| `OAuthClient.OAuth.GetRefreshToken` | includes/login/class-oauth.php:244-250 | throws iff no non-empty token is stored; otherwise returns the token's refresh_token, or null when it has none |
| `OAuthClient.RefreshTokenOfStoredToken` | includes/login/class-oauth.php:244-250 | a stored token holding a refresh_token yields exactly that refresh token, with no exception |

## Findings

| source | as written | input that shows it | evidently intended | confidence | as-written member | corrected member |
|---|---|---|---|---|---|---|
| src/blocks/current-courses/current-courses.tsx:56-59 | the schedule links are the replacement string of `replace('%1$s', scheduleLinks)`, so `$` patterns in a schedule URL are expanded | a schedule URL containing `$&`, such as `https://x/?q=$&`: the link becomes `https://x/?q=%1$s` | the links are inserted verbatim | medium, not executed | `CurrentCourses.DollarAmpersandInLink` | `CurrentCourses.IntendedYearHeading` |

## Left out

- HTTP, cookies and randomness: `wp_remote_get`/`wp_remote_post`, `json_decode`, `Cookies::set`, `random_bytes`, `Options::get` and `site_url` are foreign calls. Their results are inputs, and `Cookies::set` is only recorded. Whether it also updates `$_COOKIE` is not known here, because the `Cookies` class is not part of this model; the model assumes it does not.
- `add_query_arg`: URL assembly is not modelled; the authorization request is the endpoint plus its query map.
- `sanitize_key`: modelled after WordPress's definition (ASCII lower-casing, then keep a-z, 0-9, '_' and '-'). Its filter hook is ignored.
- JSON documents whose top level is a scalar (`true`, `42`, `"x"`) and nested values: decoded bodies are `null` or flat string maps.
- The discovery URL: `get_endpoints` reads it from the options afresh rather than from the client's field. Both are the same input here.
- `fetch_user_info` with a token that lacks `access_token`: the PHP warning is not modelled, only the resulting empty bearer string.
- React rendering, hooks, `apiFetch`, `useFetchAll`, `usePostMeta`, `localStorage` writes, `setTemplateValidity`, i18n (labels are their English source strings) and `dangerouslySetInnerHTML`.
- `fmtProgramsYears`, `fmtCourseCode` and the other formatting helpers: their source is not part of this model. The year label is an input of `CurrentCourses.YearHeading`.
- `String.prototype.replace` with a regular expression, or with a function as replacement: the code only uses a string pattern and a string replacement, which is what `CurrentCourses.Replace` models.
- `BACHELOR_YEARS`, `PROGRAMS` and the other constant lists from `utils/types`: not part of this model. They are parameters.
- JavaScript `Date`: day and month overflow (31 April) and years are out of scope. Ends are midnights of `(month, day)` in the current year.
- `Number(...)` parsing and number-to-text display: the parse result is an input; the stored number is shown as a number.
- Non-finite participant counts, which turn the `b - a` comparator into NaN, are out of scope; counts are finite reals.
- `CoursePage.RenameRepresentative` and `CoursePage.SetRepresentativeCid`: require a valid index, which the rendered list always supplies. The JavaScript array growth on an out-of-range index is not modelled.
- `src/components/dropdown/index.tsx` (DOM events and placement geometry) and `src/blocks/group-page/group-page.tsx` (fetch-and-render UI) are not part of this model.
