# IT department home page: state and search logic

The home page of a university IT department is a single React component
(`src/App.tsx`). Almost all of it is static markup. This project models the
few parts that hold logic:

- the **course search**: a query typed into the search box narrows the fixed
  six-course catalog to the courses whose lower-cased name or code contains the
  lower-cased query, keeping catalog order;
- the **news carousel**: a position in the fixed three-entry news list that the
  forward and back buttons move with JavaScript's `%`, wrapping at both ends;
- the **theme toggle**: a dark-mode flag, read from storage at start-up,
  flipped by the toggle button and written back as the text `"true"` or
  `"false"` after every change;
- the **visibility tracker**: the set of section ids that have entered the
  viewport, grown by the intersection observer's callback and never shrunk.

Modules:

- `Text` (`text.dfy`): ASCII `toLowerCase` (`Lower`) and `includes`
  (`Contains`, a left-to-right scan), with the lemma that the scan finds `q`
  exactly when `q` occurs at some position.
- `Courses` (`courses.dfy`): the `Course` record, the six-entry `Catalog`, the
  search predicate `Matches` and the stable filter `Filter`, with lemmas for
  membership, order, the empty query, idempotence and case-insensitivity, and
  the exact lists the catalog gives for a few queries.
- `Carousel` (`carousel.dfy`): the news entries, JavaScript's truncating
  remainder `JsRem`, one step `Next`/`Prev`, and lemmas for repeated presses
  and any run of presses.
- `Page` (`page.dfy`): the class `App` with the component's four state fields,
  the browser's local storage and whether a window exists at all. Its methods
  are the event handlers. `Valid()` is the invariant every handler keeps: the
  carousel position indexes the news list, in a browser the text stored under
  "darkMode" matches the theme, and only page sections are recorded as
  visible. `ThemeSession`, `CarouselSession`, `SearchSession` and
  `ScrollSession` are client runs through the handlers.

## Model

| member | source | states |
|---|---|---|
| Text.LowerChar | src/App.tsx:170-171 | upper-case ASCII letters move to lower case by code point +32, every other character is kept, and the result is never an upper-case letter |
| Text.Lower | src/App.tsx:170-171 | `toLowerCase` keeps the length and lower-cases each character in place |
| Text.LowerIdempotent | src/App.tsx:170-171 | lower-casing twice is the same as lower-casing once |
| Text.Contains | src/App.tsx:170-171 | `includes` finds the empty query in every string and never finds a query longer than the string |
| Text.ContainsFromSpec | src/App.tsx:170-171 | the scan from position i succeeds exactly when the query occurs in the string at some position j >= i |
| Text.ContainsSpec | src/App.tsx:170-171 | `s.includes(q)` holds exactly when `q` occurs at some position of `s` |
| Text.ContainsEmpty | src/App.tsx:169-172 | the empty query is contained in every string |
| Text.ContainsSelf | src/App.tsx:170-171 | every string contains itself |
| Text.MissingChar | src/App.tsx:170-171 | a query holding a character that the string lacks is not found |
| Courses.Catalog | src/App.tsx:72-121 | the catalog has six courses |
| Courses.Matches | src/App.tsx:170-171 | the empty query matches every course, and a query can only match when it is no longer than the course's name or its code |
| Courses.Filter | src/App.tsx:169-172 | the filtered list is never longer than the catalog |
| Courses.FilterMembership | src/App.tsx:169-172 | a course is listed exactly when it is in the catalog and its lower-cased name or code contains the lower-cased query |
| Courses.FilterConcat | src/App.tsx:169-172 | filtering a concatenation is the concatenation of the filtered parts, so entries are never reordered across a split |
| Courses.FilterSnoc | src/App.tsx:169-172 | appending one course appends it to the result exactly when it matches |
| Courses.FilterSubsequence | src/App.tsx:169-172 | the result is the catalog read at strictly increasing positions, and a position is picked exactly when its course matches: a stable filter in catalog order |
| Courses.PrefixSubsequence | src/App.tsx:169-172 | the same stable-subsequence statement for the first n courses |
| Courses.FilterAllMatch | src/App.tsx:169-172 | when every course matches, the list comes back unchanged |
| Courses.FilterNoneMatch | src/App.tsx:169-172 | when no course matches, the list is empty |
| Courses.FilterEmptyQuery | src/App.tsx:169-172 | the empty query shows the whole list in its original order |
| Courses.FilterIdempotent | src/App.tsx:169-172 | filtering the filtered list again with the same query changes nothing |
| Courses.FilterCaseInsensitive | src/App.tsx:169-172 | two queries with the same lower-cased form give the same list |
| Courses.FilterLowerQuery | src/App.tsx:169-172 | lower-casing the query first gives the same list |
| Courses.FilterExactlyOne | src/App.tsx:169-172 | when the course at one position is the only one that matches, the list holds that course alone |
| Courses.FilterFour | src/App.tsx:169-172 | on a six-course list whose fourth and sixth courses alone fail to match, the list is the other four in catalog order |
| Courses.NoTrigram | src/App.tsx:170-171 | a three-character query is not found in a string where no three consecutive characters spell it |
| Courses.NetQueryExample | src/App.tsx:72-121 | in the catalog, the query "net" lists exactly NET101 |
| Courses.WebQueryExample | src/App.tsx:72-121 | in the catalog, the query "advanced web development" lists exactly WEB301 |
| Courses.CsQueryExample | src/App.tsx:72-121 | in the catalog, "CS", "cs" and "Cs" give the same list: exactly CS101, CS201, CS301 and SEC201, in that order |
| Carousel.NewsItems | src/App.tsx:51-70 | the news list has three entries |
| Carousel.JsRem | src/App.tsx:175-179 | JavaScript's `%` by a positive length: the result is strictly between -n and n, takes the sign of the dividend, and leaves the same remainder modulo n as the dividend |
| Carousel.Next | src/App.tsx:174-176 | from a valid position, `nextNews` gives a valid position: the next one, or 0 after the last |
| Carousel.Prev | src/App.tsx:178-180 | from a valid position, `prevNews` gives a valid position: the previous one, or the last before 0 |
| Carousel.PrevUndoesNext | src/App.tsx:174-180 | back undoes forward and forward undoes back |
| Carousel.NextTimesClosedForm | src/App.tsx:174-176 | k forward presses from position i show entry (i + k) mod n |
| Carousel.PrevTimesClosedForm | src/App.tsx:178-180 | k back presses from position i show entry (i - k) mod n, never negative |
| Carousel.FullCycle | src/App.tsx:174-176 | n forward presses return to the starting entry |
| Carousel.RunInBounds | src/App.tsx:223-230 | after any run of forward and back presses from a valid position, the position is still a valid index, so the reads of the current entry are in bounds |
| Carousel.RunNetSteps | src/App.tsx:174-180 | after any run of presses the position is the start plus forward presses minus back presses, mod n |
| Page.BoolText | src/App.tsx:27 | `toString()` of a boolean is "true" or "false", and "true" exactly for `true` |
| Page.InitialDarkMode | src/App.tsx:10-15 | the start-up theme is light without a window or without a stored entry; it is dark exactly when a window exists and the stored text under "darkMode" is "true" |
| Page.PersistRoundTrip | src/App.tsx:10-15 | reading back the text the theme effect stored under "darkMode" restores the same theme, whatever else storage holds |
| Page.SectionCount | src/App.tsx:216-413 | the page has eight sections with distinct ids |
| Page.IntersectingIdsSnoc | src/App.tsx:33-37 | one more entry in a batch adds its id exactly when it intersects |
| Page.App.constructor | src/App.tsx:10-27 | start-up: the theme is `InitialDarkMode` of the window flag and storage; empty query; carousel at 0; no section seen; in a browser the effect then stores the theme's text under "darkMode", and without a window storage is left alone |
| Page.App.ToggleTheme | src/App.tsx:49 | the theme flips; in a browser the entry "darkMode" becomes the new theme's `toString()` (the effect at line 27) and the other entries stay; without a window storage is unchanged; nothing else changes |
| Page.App.SetSearchQuery | src/App.tsx:316 | the query becomes the typed text; nothing else changes |
| Page.App.NextNews | src/App.tsx:174-176 | the position becomes `Next` of the old one and stays in bounds; nothing else changes |
| Page.App.PrevNews | src/App.tsx:178-180 | the position becomes `Prev` of the old one and stays in bounds; nothing else changes |
| Page.App.OnIntersect | src/App.tsx:32-37 | the visible set becomes the old set plus the ids of the intersecting entries: it only grows, and a batch of ids already recorded leaves it as it was |
| Page.App.FilteredCourses | src/App.tsx:169-172 | the courses shown are exactly the catalog courses that match the current query |
| Page.App.CurrentNews | src/App.tsx:223-230 | the entry the carousel shows is one of the news entries: the read is in bounds |
| Page.App.IsVisible | src/App.tsx:216 | in a valid state only a section of the page can be marked visible |

## Left out

- Rendering: the JSX tree, Tailwind classes, icons, image URLs as images, and the footer year from `new Date()` (src/App.tsx:448). They are presentation with no logic.
- Browser storage and the document: `document.documentElement.classList` (src/App.tsx:21-25) is presentation. Local storage (src/App.tsx:12, 27) is the field `storage`, a map from keys to text; `getItem` returning `null` is the key being absent. Whether a window exists (src/App.tsx:11) is the constant field `hasWindow`. Without a window no effect runs, so the model never writes storage then.
- React scheduling: each setter is an immediate field update, and the theme effect's write (src/App.tsx:27) happens inside the handler and the constructor that change the theme. Batching and the order of effects are not modelled.
- The IntersectionObserver itself: construction, the 0.1 threshold, `querySelectorAll` registration and `disconnect` (src/App.tsx:31-46) belong to the platform. Only the callback's effect on the set is modelled (`OnIntersect`). Its requirement `ObservedTargets` states the platform's guarantee that entries only target the observed `section[id]` elements.
- Text.Lower: full Unicode case mapping of `toLowerCase` is not modelled. Only ASCII `A`-`Z` are mapped, so the search is case-insensitive only for ASCII letters.
- Carousel.JsRem: only a positive divisor is modelled. An empty news list (where `%` gives `NaN`) cannot occur, because the list is a fixed three-entry constant.
- The static lists of achievements, facilities, programs, events, stats and contact entries have no decision logic and are not modelled. The news entries and courses are modelled as data.
