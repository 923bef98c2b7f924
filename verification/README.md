# UTM attribution tracker — a Dafny model

`utm-cookies.js` is a browser script that remembers where a visitor came from.

**Where the data comes from**
- The URL's campaign parameters: `utm_source`, `utm_medium`, `utm_campaign`, `utm_content`, `utm_term`, `gclid` and `fbclid`.
- The referrer, when the URL carries none of source, medium or campaign.

**Where it keeps the data**
- First-touch cookies that live 480 minutes.
- A `localStorage` copy that outlives the cookies.
- Hidden fields in the page's forms, so that a form submission carries them.

This project models the script's decision logic over its two key-to-string stores and proves what that logic guarantees.

A key counts as *set* when it is present with a non-empty value. The script tests `getCookie(k)` and `localStorage.getItem(k)` for truthiness, and `null` and `""` are both falsy.

Modules:

- `Stores`: the store type `map<string, string>`, the seven tracked keys, set-ness, and `getItem(k) || ''`.
- `Text`: the string operations the script relies on:
  - `includes`;
  - `split(';')`, with its inverse `Join`;
  - the leading-space strip of `getCookie`.
- `UrlParams` (`getUrlParameter`):
  - finds the leftmost match of `[?&]name=`;
  - captures up to `&` or `#`;
  - turns `+` into a space;
  - decodes with a decoder passed in as a function.

  It comes with a written query string and proofs that the reader reads it back.
- `CookieHeader` (`getCookie`):
  - the search loop as a method, proved against a specification function over the `document.cookie` header;
  - a jar of name/value pairs, serialised as a header;
  - a proof that the lookup reads the jar back.
- `Referrer` (`setReferrerDefaults`): the classifier as nested conditionals, proved equal to a first-match-wins table, with worked examples.
- `Sync`: every pass of the page load as a function from the stores before it to the stores after it. Every pass is one of two moves over the tracked keys:
  - *fill gaps*: the early repair and the URL capture;
  - *overlay*: the mirror into `localStorage` and the final restore.

  Each move also has a key-by-key version that the loops follow. On top of these sit the referrer fallback and the whole page load, with first-touch, guard, idempotence and reload-stability lemmas.
- `Forms` (`populateFormFields`):
  - a form is its inputs in document order;
  - for each of the five mapped fields, the first input of that name takes the stored value, or a hidden input is appended;
  - lemmas cover the values written, what is kept, what is appended, and idempotence.
- `Tracker`: the class `Browser` holds the cookie jar, `localStorage` and the forms.
  - It has a method for each function of the script that changes state: `setCookie`, `setReferrerDefaults`, `trackUTMs`, `storeUTMsInLocalStorage`, `populateFormFields` (with `PopulateOne` for its per-form callback), `restoreUTMsFromLocalStorageToCookies`, `restoreUTMsFromLocalStorage` and the `DOMContentLoaded` handler.
  - The three read-only helpers are functions in other modules: `getUrlParameter` in `UrlParams`, `getCookie` in `CookieHeader` and `isLinkedInReferrer` inside `Referrer.Classify`. The methods read a cookie from the jar map directly.
  - The methods for the passes update the fields in place with the script's loops, and each is proved to produce exactly the state of the matching `Sync` or `Forms` function.
  - Two methods differ. `SetCookie` is a single write, proved to be a map update of the jar. `PopulateOne`, the per-form callback, changes no field: it returns the populated form, proved equal to `Forms.PopulateForm`, and `PopulateFormFields` stores it.
  - An end-to-end lemma follows a campaign link into both stores.

Where the code and the script's own comments differ, the model follows the code:

- **Final restore overwrites.** `restoreUTMsFromLocalStorage` (utm-cookies.js:151-159) writes every non-empty `localStorage` value over its cookie. Its comments (utm-cookies.js:150 and 168) say it restores values "if cookies are removed", but it does not only fill missing cookies, so it can replace a set cookie (`Sync.Overlay`, `Sync.PageLoadSynced`).
- **`t.co` is a plain substring test.** Any referrer containing `t.co`, such as `https://www.reddit.com/…` or `https://www.microsoft.com/…`, is classified as Twitter organic social (`Referrer.ClassifyRedditExample`).
- **Fallback guard tests one cookie.** The comment at utm-cookies.js:82 says the fallback runs "if no UTM parameters are present", but the guard (utm-cookies.js:83-86) tests only three URL parameters and the `utm_source` cookie. When it runs, it overwrites `utm_medium` and `utm_campaign` even when those cookies are set (`Sync.FallbackOverwrites`).
- **The early repair can suppress the fallback.** When `utm_source` is only in `localStorage`, the repair (utm-cookies.js:138-148) copies it into the cookie before `trackUTMs`. The fallback guard then sees a set `utm_source`, so no medium or campaign is written. Without the repair they would be (`Sync.RepairChangesPageLoad`).

## Model

| member | source | states |
|---|---|---|
| Stores.IsSet | utm-cookies.js:77 | a key is *set* when it is present with a non-empty value: the truthiness of `getCookie(k)` and `getItem(k)` (definition; its properties are in `Stores.Get` and the `Sync` lemmas) |
| Stores.NoneSet | utm-cookies.js:97 | the `every(param => !localStorage.getItem(param))` test: no tracked key is set (definition; used by `Sync.Mirror`) |
| Stores.Get | utm-cookies.js:121 | `getItem(k) \|\| ''` is non-empty exactly when the key is set, and is then the stored value |
| Text.StartsWith | utm-cookies.js:29 | `c.indexOf(nameEQ) == 0`: the segment begins with `name=` (definition; `Text.KeyPrefix` states what it means for a jar segment) |
| Text.Contains | utm-cookies.js:36 | `includes`: the pattern occurs at some position (definition; the classifier lemmas and examples rest on it) |
| Text.IndexOf | utm-cookies.js:25 | the position where `split(';')` cuts: the first `;`, or the length when there is none |
| Text.Split | utm-cookies.js:25 | `split(';')` yields at least one part and no part contains the separator |
| Text.JoinSplit | utm-cookies.js:25 | joining the parts of a split with the separator gives back the string |
| Text.SplitJoin | utm-cookies.js:25 | splitting a join of separator-free parts gives back the parts |
| Text.TrimLeadingSpaces | utm-cookies.js:28 | the strip loop stops at a character that is not a space (or at the end), and never lengthens the string |
| Text.TrimLeadingSpacesSuffix | utm-cookies.js:28 | the strip drops exactly the leading spaces: the result is a suffix of the input, and everything dropped is a space |
| Text.KeyPrefix | utm-cookies.js:24-29 | for names without `=`, a segment `n=…` starts with `name=` exactly when `n` is `name` |
| UrlParams.RawParameter | utm-cookies.js:6-7 | `regex.exec(location.search)`: a captured value never contains `&` or `#` (its leftmost-match property is `UrlParams.RawParameterIsLeftmostMatch`) |
| UrlParams.RawParameterAtLeftmost | utm-cookies.js:6-7 | when `[?&]name=` matches, the value found is the capture after the leftmost match |
| UrlParams.GetUrlParameter | utm-cookies.js:4-9 | `''` when `[?&]name=` matches nowhere; otherwise the capture after the leftmost match, with `+` turned into a space and then decoded |
| UrlParams.MatchesAt | utm-cookies.js:6 | the pattern `[\?&]name=` matches at one position: a `?` or `&` followed by `name=` (definition; `UrlParams.RawParameterIsLeftmostMatch` and `UrlParams.LeftmostMatch` build on it) |
| UrlParams.TakeValue | utm-cookies.js:6 | the capture `([^&#]*)` is the longest prefix free of `&` and `#` |
| UrlParams.RawParameterIsLeftmostMatch | utm-cookies.js:6-7 | no match exactly when `[?&]name=` matches nowhere; otherwise the value is captured after the leftmost match |
| UrlParams.RawParameterNone | utm-cookies.js:6-7 | the pattern finds no value exactly when `[?&]name=` matches at no position |
| UrlParams.RawParameterSome | utm-cookies.js:6-7 | a value found is the capture after the leftmost position where `[?&]name=` matches |
| UrlParams.PlusToSpace | utm-cookies.js:8 | `replace(/\+/g, ' ')` keeps the length, puts a space at every position that held `+`, and keeps every other character |
| UrlParams.ReadTracked | utm-cookies.js:65-73 | the `utmParams` object has exactly the seven tracked keys, each holding `getUrlParameter` of that key |
| UrlParams.QueryRoundTrip | utm-cookies.js:4-8 | on a query string written from plain pairs, the reader finds the value of the first pair of that name, or none |
| UrlParams.GetUrlParameterOfQuery | utm-cookies.js:8 | on a written query string, `getUrlParameter` is `''` for a missing name and the decoded first value otherwise |
| UrlParams.ReadTrackedOfQuery | utm-cookies.js:65-73 | a tracked parameter whose value needs no decoding is read back as written |
| CookieHeader.SegmentValue | utm-cookies.js:27-29 | one turn of the loop: strip the leading spaces, and if the rest starts with `name=`, return what follows (definition; `CookieHeader.SegmentValueIsSuffix` states its property) |
| CookieHeader.FirstSegmentValue | utm-cookies.js:26-31 | the loop over the segments: the first segment's value, else null (definition; `CookieHeader.FirstSegmentValueIsFirstMatch` states its property) |
| CookieHeader.SegmentValueIsSuffix | utm-cookies.js:28-29 | a segment's value is what follows `name=` in the segment with its leading spaces removed |
| CookieHeader.FirstSegmentValueIsFirstMatch | utm-cookies.js:26-31 | no value exactly when no stripped segment starts with `name=`; otherwise the value comes from the first segment that does |
| CookieHeader.FirstSegmentValueNone | utm-cookies.js:26-31 | the loop returns null exactly when no stripped segment starts with `name=` |
| CookieHeader.FirstSegmentValueSome | utm-cookies.js:26-31 | a value returned comes from the first stripped segment starting with `name=` |
| CookieHeader.FirstValueLacks | utm-cookies.js:26-31 | a character absent from every segment is absent from the value found |
| CookieHeader.CookieLookup | utm-cookies.js:23-32 | `getCookie` on the `document.cookie` header: a value returned never contains `;` |
| CookieHeader.GetCookie | utm-cookies.js:23-32 | the loop over `split(';')`, with its inner space-strip loop, returns the value of the first matching segment, or null |
| CookieHeader.Segments | utm-cookies.js:19 | a jar serialises to one segment per cookie, in order; segment `i` is the cookie's `name=value`, after the lead for the first and after a space for the others |
| CookieHeader.JarValueIsStoreLookup | utm-cookies.js:19 | the first pair of a name in the jar is that name's entry in the jar's map |
| CookieHeader.SegmentsLookup | utm-cookies.js:24-31 | in a serialised jar, the first segment naming a cookie holds the jar's value for it |
| CookieHeader.SegmentsNoSemicolon | utm-cookies.js:19 | a jar whose values have no `;` serialises to segments without `;` |
| CookieHeader.CookieLookupReadsJar | utm-cookies.js:19-32 | `getCookie` on a serialised jar finds a cookie exactly when the jar holds that name, and returns its value |
| Referrer.Classify | utm-cookies.js:40-61 | campaign is always `Not-Provided`; medium is `Direct` exactly when the referrer is empty, and then the source is the page URL; medium is `Organic Search` exactly when the referrer names google./bing./yahoo.; a `Referral` keeps the referrer as source; with a page URL the source is never empty |
| Referrer.FirstRule | utm-cookies.js:46-55 | a rule found is in the table and its substring occurs in the referrer |
| Referrer.FirstRuleUnfolded | utm-cookies.js:46-55 | the table is read in order google., bing., yahoo., facebook., t.co, linkedin. |
| Referrer.ClassifyIsFirstMatch | utm-cookies.js:40-61 | the nested conditionals equal the first-match-wins table, else the referral |
| Referrer.SearchBeforeSocial | utm-cookies.js:46-51 | a referrer naming both Google and a social network is classified as Google organic search |
| Referrer.ClassifyGoogleExample | utm-cookies.js:46-50 | a Google results page gives (Google, Organic Search, Not-Provided) |
| Referrer.ClassifyTwitterExample | utm-cookies.js:51-55 | a `t.co` link gives (Twitter, Organic Social, Not-Provided) |
| Referrer.ClassifyRedditExample | utm-cookies.js:51-55 | a reddit.com referrer contains `t.co`, so it gives (Twitter, Organic Social, Not-Provided) |
| Referrer.ClassifyReferralExample | utm-cookies.js:56-59 | an unlisted site gives (referrer, Referral, Not-Provided) |
| Sync.FillGaps | utm-cookies.js:76-80 | only tracked keys that are unset in the target and set in the source change, and they take the source value; every other entry is kept |
| Sync.Overlay | utm-cookies.js:151-159 | every tracked key set in the source takes the source value, even over a set target; every other entry is kept |
| Sync.FillGapsOver | utm-cookies.js:76-80 | the test-then-set loop of the capture (76-80) and of the repair (140-147), one key at a time against the store as it stands (definition; the loop invariant of `Tracker.Browser.TrackUTMs` and `Tracker.Browser.RestoreUTMsFromLocalStorageToCookies`; `Sync.FillGapsOverKeys` relates it to FillGaps) |
| Sync.OverlayOver | utm-cookies.js:100-105 | the copy loops of the mirror (100-105) and the final restore (153-158), one key at a time (definition; the loop invariant of the matching methods; `Sync.OverlayOverKeys` relates it to Overlay) |
| Sync.FillGapsOverKeys | utm-cookies.js:139-147 | testing each gap in the store as it stands, one distinct key at a time, fills exactly the gaps the store had at the start |
| Sync.OverlayOverKeys | utm-cookies.js:153-158 | overlaying one key at a time overlays every key |
| Sync.FillGapsOverTracked | utm-cookies.js:139-147 | the loop over the seven keys computes FillGaps |
| Sync.OverlayOverTracked | utm-cookies.js:152-158 | the loop over the seven keys computes Overlay |
| Sync.WriteAttribution | utm-cookies.js:43-59 | all three attribution cookies are written and nothing else changes |
| Sync.NeedsFallback | utm-cookies.js:84 | the fallback guard: the URL has no source, medium or campaign and the `utm_source` cookie is unset (definition; used by `Sync.Fallback`) |
| Sync.Fallback | utm-cookies.js:83-86 | the classifier's triple is written exactly when the URL has no source, medium or campaign and the `utm_source` cookie is unset after capture; otherwise the cookies are unchanged |
| Sync.Mirror | utm-cookies.js:93-107 | if any tracked key is set in localStorage, it is unchanged; otherwise a tracked key becomes set in it exactly when its cookie is set, and then holds the cookie's value; every other entry is kept |
| Sync.Track | utm-cookies.js:64-90 | trackUTMs: capture, then fallback, then mirror (definition; `Sync.FillGapsCovers`, `Sync.FallbackKeepsSet` and `Sync.Mirror` state its parts, `Tracker.Browser.TrackUTMs` its loops) |
| Sync.PageLoad | utm-cookies.js:162-170 | the handler: repair, trackUTMs, final restore (definition; the `Sync.PageLoad…` lemmas state its properties) |
| Sync.FillGapsIdempotent | utm-cookies.js:138-148 | repairing twice is repairing once |
| Sync.OverlayIdempotent | utm-cookies.js:151-159 | restoring twice is restoring once |
| Sync.MirrorIdempotent | utm-cookies.js:93-107 | a second mirror changes nothing |
| Sync.FillGapsAfterOverlay | utm-cookies.js:138-159 | after the final restore, the early repair has nothing left to do |
| Sync.OverlaySubsumesFillGaps | utm-cookies.js:138-159 | restoring directly after a repair from the same store gives what the restore alone gives |
| Sync.RepairChangesPageLoad | utm-cookies.js:162-170 | with `utm_source` only in localStorage and no URL parameters, the page load writes no medium, yet without the repair the fallback would write `Direct` |
| Sync.FallbackOverwrites | utm-cookies.js:83-86 | when the fallback runs, medium and campaign take the classifier's values even if those cookies were set |
| Sync.FallbackKeepsSet | utm-cookies.js:83-86 | the fallback never unsets a cookie, and with a page URL its guard is false afterwards |
| Sync.FillGapsCovers | utm-cookies.js:76-80 | after capture every non-empty URL value has a set cookie, and set cookies stay set |
| Sync.OverlayKeepsSet | utm-cookies.js:151-159 | the final restore never unsets a cookie |
| Sync.FillGapsSettled | utm-cookies.js:76-80 | capture changes nothing once every URL value already has a cookie |
| Sync.MirrorSettled | utm-cookies.js:93-107 | the mirror has nothing to do after the final restore |
| Sync.PageLoadSynced | utm-cookies.js:162-170 | after page load every tracked key held in localStorage has an equal cookie, and localStorage changes only on a visit that found it empty |
| Sync.PageLoadKeepsFirstTouch | utm-cookies.js:76-86 | a set cookie that localStorage lacks or holds with the same value survives page load whatever the URL says; for medium and campaign this holds whenever the fallback guard is off: the URL carries a source, medium or campaign, or `utm_source` is set as a cookie or in localStorage (the repair writes that cookie before the guard) |
| Sync.PageLoadCaptures | utm-cookies.js:76-80 | a URL value for a key neither store holds reaches the cookie, and also localStorage when that held no tracked key |
| Sync.PageLoadStable | utm-cookies.js:162-170 | reloading with the same URL and referrer changes neither store, for every page URL |
| Sync.RefallbackStable | utm-cookies.js:83-107 | after a load whose fallback wrote a classifier triple, writing that triple again over the restored cookies leaves localStorage unchanged by the mirror, and the final restore gives back the same cookies |
| Sync.RewriteUnderOverlay | utm-cookies.js:151-159 | rewriting the triple the cookies already hold, between two final restores, changes nothing |
| Forms.ApplyFields | utm-cookies.js:120-133 | the field loop of one form: each mapped field in turn is written with SetField (definition; the `Forms.ApplyFields…` lemmas state its properties) |
| Forms.PopulateForm | utm-cookies.js:112-134 | one form, all five mapped fields (definition; `Forms.PopulateFormIdempotent` states its property) |
| Forms.FirstNamed | utm-cookies.js:123 | `querySelector('input[name=…]')` finds the first input of that name, or none exactly when no input has it |
| Forms.FirstNamedByNames | utm-cookies.js:123 | the lookup depends on the inputs' names only |
| Forms.SetField | utm-cookies.js:121-132 | the first input of the name takes the value, keeping its name and type; if there is none, one hidden input with the name and value is appended; nothing else changes |
| Forms.SetFieldHolds | utm-cookies.js:124-131 | after a field write, the first input of that name exists and holds the value written |
| Forms.HoldsSurvives | utm-cookies.js:121-132 | a later write of another name keeps the value the first input of a name holds |
| Forms.SetFieldAppends | utm-cookies.js:127-131 | on a form without the name, the write appends one hidden input with the name and value |
| Forms.SetFieldKeepsOtherNames | utm-cookies.js:121-132 | writing one field leaves the first input of every other name where it was and as it was |
| Forms.SetFieldUnchanged | utm-cookies.js:124-125 | writing the value the first input already holds changes nothing |
| Forms.PopulateAll | utm-cookies.js:111-112 | every form is populated, and the number of forms is kept |
| Forms.ApplyFieldsKeepsInputs | utm-cookies.js:120-133 | populating keeps every input with its name and type, and only appends, at most one input per field |
| Forms.ApplyFieldsUntouched | utm-cookies.js:120-133 | only the first input of a mapped name can change value; every other input is left as it was |
| Forms.ApplyFieldsAppendsHidden | utm-cookies.js:127-131 | appended inputs are hidden and carry mapped names that no input of the form had |
| Forms.ApplyFieldsAppendsDistinct | utm-cookies.js:127-131 | no two appended inputs share a name |
| Forms.ApplyFieldsWritesValues | utm-cookies.js:120-133 | for mapped fields with distinct names, the first input of each holds that field's stored value, or `''` when nothing is stored |
| Forms.ApplyFieldsFixpoint | utm-cookies.js:120-133 | a form whose first inputs already hold the stored values is left unchanged |
| Forms.PopulateFormIdempotent | utm-cookies.js:110-135 | populating a second time with the same storage changes nothing and appends nothing |
| Forms.FieldsDistinct | utm-cookies.js:113-118 | the five mapped field names are pairwise distinct |
| Forms.ApplyFieldsToBareForm | utm-cookies.js:127-131 | a form with none of the names gets one hidden input per field, in mapping order, holding the stored values |
| Forms.Appended | utm-cookies.js:127-131 | the hidden inputs appended for absent names, one per field, in order |
| Tracker.Browser.constructor | utm-cookies.js:2 | the tracker starts from the given jar, storage and forms |
| Tracker.Browser.SetCookie | utm-cookies.js:12-20 | the jar maps the name to the value and nothing else changes |
| Tracker.Browser.SetReferrerDefaults | utm-cookies.js:40-61 | the three attribution cookies take the classifier's triple |
| Tracker.Browser.StoreUTMsInLocalStorage | utm-cookies.js:93-107 | the `every` test and the copy loop leave localStorage as Mirror of the cookies |
| Tracker.Browser.TrackUTMs | utm-cookies.js:64-90 | the capture loop, the fallback and the mirror leave the cookies and localStorage as Fallback after FillGaps, then Mirror |
| Tracker.Browser.PopulateFormFields | utm-cookies.js:110-135 | every form becomes the populated form for the current localStorage |
| Tracker.Browser.PopulateOne | utm-cookies.js:112-134 | the per-form callback's field loop yields the populated form |
| Tracker.Browser.RestoreUTMsFromLocalStorageToCookies | utm-cookies.js:138-148 | the loop leaves the cookies as FillGaps from localStorage |
| Tracker.Browser.RestoreUTMsFromLocalStorage | utm-cookies.js:151-159 | the loop leaves the cookies as Overlay by localStorage |
| Tracker.Browser.OnDomContentLoaded | utm-cookies.js:162-170 | repair, track and final restore leave both stores as PageLoad of the URL's parameters |
| Tracker.TrackedNamesPlain | utm-cookies.js:5-6 | every tracked key consists of lower-case letters and `_` only: it holds no `=` and no regular-expression metacharacter, so the pattern matches it literally |
| Tracker.CampaignLinkReachesBothStores | utm-cookies.js:64-90 | on a first visit, a tracked parameter of the landing URL that needs no decoding ends up in both the cookie and localStorage |

## Left out

- Tracker.Browser.SetCookie: the expiry date (`Date`, `toUTCString`, utm-cookies.js:13-18) and the `path=/` attribute are browser semantics. A write is a map update; the 480-minute lifetime appears only as `Stores.CookieTtlMinutes` and as an unused argument, so cookies never expire in the model.
- Tracker.Browser.SetCookie: `value || ""` is not modelled, because every value passed in is already a string.
- A cookie value containing `;` would be cut short by the browser, and a browser also trims leading and trailing whitespace from a written value (so `?utm_source=+news` is stored as `news`); the model stores the value as written (` news`). The jar bridge (`CookieHeader.CookieLookupReadsJar`) requires values without `;` and names without `=`, `;` or a leading space.
- The class reads cookies from the jar map directly. `CookieHeader.GetCookie` models the parse of the `document.cookie` header, and `CookieLookupReadsJar` is what ties the two together.
- `decodeURIComponent` is a function parameter `decode`. Its throwing on malformed `%` escapes is not modelled. Such a throw would abort the `DOMContentLoaded` handler inside `trackUTMs`, after the repair: capture, fallback, mirror and the final restore would not run, and neither would the `setTimeout` that populates the forms. The model always completes the handler.
- The storage APIs' exceptions are not modelled. Reading `window.localStorage` throws a SecurityError when the user blocks site data, `setItem` (utm-cookies.js:103) can throw a QuotaExceededError, and `document.cookie` throws in a sandboxed frame. The script catches none of these. A throw at the first storage call (utm-cookies.js:141-142 in the repair) would end the `DOMContentLoaded` handler there, and the rest would not run, including the `setTimeout` that populates the forms. In the model the cookie jar and localStorage are maps, and reading or writing them never fails.
- The regular expression is built from the name with only the first `[` and `]` escaped (utm-cookies.js:5-6). Only literal names without metacharacters are modelled, which covers all seven tracked keys.
- UrlParams: the pattern scans the whole `location.search`, so a `?` or `&` inside another parameter's value can start a match. `RawParameter` follows the scan exactly, but `QueryRoundTrip` only covers values without `?`, `&` or `#`.
- Tracker.Browser.OnDomContentLoaded: the `DOMContentLoaded` listener and the `setTimeout(populateFormFields, 2000)` delay are event and timer plumbing. The handler is a method; the caller runs `PopulateFormFields` afterwards, reading localStorage as the handler left it.
- DOM calls (`querySelectorAll`, `createElement`, `appendChild`): forms are sequences of inputs.
  - An input's position in document order stands for its nesting.
  - Only `name`, `value` and whether the type is `hidden` are kept.
- Forms.ApplyFieldsWritesValues: the guarantee needs distinct field names, which the script's mapping has (`Forms.FieldsDistinct`).
- `isLinkedInReferrer` (utm-cookies.js:35-37) is folded into `Referrer.Classify` as the substring test it performs.
- Cross-tab races on `localStorage` are concurrency and are not modelled.
