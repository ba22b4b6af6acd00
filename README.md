# Horizone blog: content and identity store

A Dafny model of the browser-side store behind the Horizone blog
(`javascript/script.js`). The site keeps everything in `localStorage`:

- the user collection (`users_db`) with its read-time schema migration;
- the current-user pointer (`currentUserEmail`) and the 30-day session
  record (`userSession`);
- locally authored posts (`user_posts`), merged over the built-in catalog;
- per-post comment lists (`post_comments`);
- one sliding-window rate-limit list per action (`rateLimit_<action>`);
- a performance log (`performance_log`) capped at 50 entries.

`Store.Store` is a class with one field per collection. Its methods are the
handlers and helpers that read and rewrite them: signup, login, session
restore, profile-image update, saving an article, creating a post, posting
a comment, logging a page load. Each method states its whole new state as
`State() == old(State()).(...)`, in terms of pure functions on values. It
also keeps `Valid()`: unique emails, duplicate-free saved lists, local posts
stored under their own ids, and a log of at most 50 entries. `Login` relies
on it: with unique emails, a successful login means the record later found by
that email is the one whose password matched.

The pure parts are functions, with the properties the site relies on proved
as lemmas:

- the escape chain;
- the email and text validators;
- the signup form check;
- the migration;
- the saved-article toggle;
- the rate-limit window;
- the merged post view and the slug;
- the image path rule;
- the saved-articles list;
- pagination;
- keyword extraction, title similarity and the related-posts selection;
- the profile-image file checks.

The clock is a parameter throughout: every operation takes `now`, in
milliseconds. Dates are kept as those integers, not ISO strings.

Module layout, one file each: `Wrappers`, `JsText` (the JavaScript string
primitives: `\s`, `trim`, `toLowerCase`, `split(/\s+/)`), `Security`,
`Forms`, `Users`, `Sessions`, `RateLimit`, `Posts`, `Pagination`,
`Related`, `ProfileImage`, `PerfLog`, `Store`.

## Model

| member | source | states |
|---|---|---|
| JsText.Trim | javascript/script.js:858-859 | The result is non-empty iff the input has a non-whitespace character, has no whitespace at either end and is no longer than the input |
| JsText.TrimCutsRuns | javascript/script.js:858-859 | A non-empty trim is exactly the input with its leading and trailing whitespace runs cut off |
| JsText.Lower | javascript/script.js:2602 | Same length, every character case-mapped, ASCII letters only |
| JsText.SplitWs | javascript/script.js:2602-2603 | At least one piece, no piece contains whitespace, a whitespace-free string splits into itself, and the first piece is the text before the first whitespace |
| JsText.SplitWsStep | javascript/script.js:2602-2603 | A whitespace-free piece followed by a maximal whitespace run splits into that piece and then the split of the rest; an empty piece gives the empty first piece of a text that starts with whitespace, an empty rest the empty last piece |
| JsText.SplitWordPieces | javascript/script.js:2595-2596 | Splitting text made only of word characters and whitespace yields pieces made only of word characters |
| Security.SanitizeInput | javascript/script.js:4-13 | A non-string becomes ""; an escaped string contains none of `<` `>` `"` `'` `/` |
| Security.EscapeHtmlIsPerChar | javascript/script.js:6-12 | The six chained global replacements equal replacing each character by its own entity, left to right; later replacements never touch an earlier entity |
| Security.EscapeAllNoMarkup | javascript/script.js:6-12 | No output of the escape chain contains a markup character |
| Security.EscapeHtml | javascript/script.js:6-12 | A string without any of the six special characters is returned unchanged |
| Security.SanitizeKeepsOrdinary | javascript/script.js:4-13 | An ordinary character survives sanitising in place, between the sanitised text on either side of it |
| Security.EmailShapeIsPattern | javascript/script.js:16 | The structural description (one `@` with text before it, a dot inside the domain, no whitespace) holds iff the regular expression matches (both directions) |
| Security.ValidateEmail | javascript/script.js:15-18 | Accepts iff the pattern matches and the address has at most 254 characters |
| Security.ValidateTextInput | javascript/script.js:20-22 | Accepts iff the value is a string of at most `maxLength` characters with some non-whitespace character |
| Forms.ValidateSignupForm | javascript/script.js:779-802 | Flags the name iff it is shorter than 2, the email iff the pattern fails, the password iff it is shorter than 6; flags come in check order |
| Forms.ValidFormHasEmail | javascript/script.js:779-802 | A form with no flags has an email of at least 5 characters, a name of at least 2 and a password of at least 6 |
| Users.MigrateUser | javascript/script.js:56-71 | The record gets a `null` image and join date `now` where they are missing; a current record is unchanged |
| Users.Migrate | javascript/script.js:54-80 | Same length, each record upgraded in place, none left needing migration |
| Users.MigrateNoop | javascript/script.js:74-79 | A list with no legacy record migrates to itself, which is why nothing is written back |
| Users.MigrateIdempotent | javascript/script.js:43-81 | Reading the users a second time, at any later time, changes nothing |
| Users.MigrateKeepsCredentials | javascript/script.js:911-912 | Migration never changes which email and password pairs can log in |
| Users.IndexOfEmail | javascript/script.js:192 | The first record with the email, or -1 exactly when there is none |
| Users.FindUser | javascript/script.js:176 | Finds a record iff one has the email; it is the first record with that email |
| Users.UniqueFind | javascript/script.js:176 | With unique emails, looking up a record's email finds that very record |
| Users.UniqueCredentials | javascript/script.js:911-912 | With unique emails, a login succeeds iff the one record with the email has the password |
| Users.AppendUnique | javascript/script.js:868-882 | Appending a user whose email is not taken keeps emails unique |
| Users.ReplaceUser | javascript/script.js:189-199 | Only the first record with the email is replaced; emails keep their places and stay unique |
| Users.SetProfileImage | javascript/script.js:227-247 | Only the image of the first record with the email changes; emails keep their places and stay unique |
| Users.IndexOf | javascript/script.js:1242 | The first position of the id, or -1 exactly when it is absent |
| Users.Toggle | javascript/script.js:1242-1248 | A present id is spliced out at its first position; an absent id is pushed at the end |
| Users.ToggleNoDup | javascript/script.js:1242-1248 | Toggling keeps a saved list free of duplicates |
| Users.ToggleFlips | javascript/script.js:1276-1282 | Toggling flips the id's membership and no other id's |
| Users.ToggleTwiceAbsent | javascript/script.js:1242-1248 | Saving an unsaved id and toggling it again restores the list exactly |
| Users.ToggleTwicePresent | javascript/script.js:1276-1282 | Unsaving and re-saving keeps the same ids but moves this one to the end |
| Sessions.ParseSession | javascript/script.js:109-118 | A stored record is returned; garbled text and an empty slot read as no session |
| Sessions.ExpiryBoundary | javascript/script.js:134-148 | A session is valid at exactly 30 days and at 29, expired one millisecond after 30 days and at 31 |
| Sessions.ActivityDoesNotExtend | javascript/script.js:120-126 | Refreshing `lastActivity` never changes whether a session has expired; age is measured from `loginTime` |
| RateLimit.Recent | javascript/script.js:30 | Keeps exactly the timestamps strictly inside the window, taken from the input |
| RateLimit.RecentAppend | javascript/script.js:30 | Filtering distributes over concatenation, so order is kept |
| RateLimit.Check | javascript/script.js:24-39 | Allowed iff fewer than `limit` recent attempts; a denial stores nothing new, an allowance stores the recent attempts plus `now` |
| RateLimit.AllowedIsBounded | javascript/script.js:24-39 | After an allowed call at most `limit` timestamps are stored, all inside the window, the last being `now` |
| RateLimit.DenialIsStable | javascript/script.js:32-34 | A denial consumes no slot: retrying at the same moment is denied again with the same list |
| RateLimit.CheckFresh | javascript/script.js:24-39 | Against a list inside the window, allowed exactly when it is shorter than the limit |
| RateLimit.CheckStale | javascript/script.js:24-39 | Against a list wholly outside the window, allowed and storing only `now` |
| RateLimit.ThreePerWindow | javascript/script.js:1023 | With limit 3, three calls in one window pass, a fourth is denied, and a call once the window has passed is allowed again |
| Posts.Merge | javascript/script.js:937 | The keys are the union; a local post wins over a built-in one with the same id |
| Posts.MergeKeyedById | javascript/script.js:937 | If both sources store posts under their ids, so does the merged view |
| Posts.ShadowOne | javascript/script.js:1186-1188 | Storing a local post makes it the merged view's entry for its id and changes no other entry |
| Posts.CollapseWs | javascript/script.js:1166 | The result has no whitespace and is no longer than the input; a whitespace-free string is unchanged |
| Posts.CollapseWsRun | javascript/script.js:1166 | A non-empty run of whitespace becomes a single `-` |
| Posts.CollapseWsAppend | javascript/script.js:1166 | Cut outside a whitespace run, the collapse of the whole is the collapse of the parts, so other characters keep their order |
| Posts.KeepSlugChars | javascript/script.js:1166 | The result has only `a-z`, `0-9` and `-` and is no longer than the input; a string already of that form is unchanged |
| Posts.KeepSlugCharsMembers | javascript/script.js:1166 | A character occurs in the result iff it is a slug character of the input |
| Posts.KeepSlugCharsAppend | javascript/script.js:1166 | The filter distributes over concatenation, so kept characters stay in order |
| Posts.Slug | javascript/script.js:1166 | A post id has only `a-z`, `0-9` and `-` |
| Posts.SlugOfSlug | javascript/script.js:1166 | A title that is already a slug is its own id |
| Posts.SlugIdempotent | javascript/script.js:1166 | Deriving an id from an id changes nothing |
| Posts.KeepSlugCharsNone | javascript/script.js:1166 | A string with no slug character filters to the empty string |
| Posts.EmptySlug | javascript/script.js:1166 | A title such as "!!!" passes the 200-character title check yet yields the empty id |
| Posts.ImageSrc | javascript/script.js:948-949 | URLs and data URIs are used as they are; any other path becomes exactly `../` followed by the path |
| Posts.AppendComment | javascript/script.js:1035-1039 | The post's list gains the comment at its end (created when missing); every other list is unchanged |
| Posts.ResolvedIds | javascript/script.js:1708-1710 | Exactly the saved ids found in the merged view, none invented |
| Posts.ResolvedIdsAppend | javascript/script.js:1708-1710 | Resolution keeps saved order |
| Posts.ResolvedIdsAll | javascript/script.js:1708-1710 | When every saved id resolves, none is skipped |
| Posts.SavedArticleCards | javascript/script.js:1701-1733 | One card per resolved id, in saved order, each with the post's id, title, date and image path |
| Pagination.Slice | javascript/script.js:1807 | `slice` clamps to the list: the result is the run of elements from `start`, of length `min(end, length) - start` when `start` is below both, else empty |
| Pagination.PageItems | javascript/script.js:1803-1814 | At most six posts, the run starting at `(page - 1) * 6` |
| Pagination.PageCount | javascript/script.js:1817 | The ceiling of the number of posts over six |
| Pagination.PageLinks | javascript/script.js:1817-1823 | No links for one page or none; otherwise links 1 to the page count |
| Pagination.PagesPrefix | javascript/script.js:1805-1807 | The first `k` pages together are the first `6k` posts, in order |
| Pagination.PagesCoverAll | javascript/script.js:1805-1820 | All pages together are exactly the post list: nothing dropped or repeated |
| Pagination.PageNonEmpty | javascript/script.js:1805-1820 | Every linked page shows at least one post; pages beyond the count show none |
| Related.BlankNonWord | javascript/script.js:2595 | Same length; word characters and whitespace stay in place, every other character becomes a space |
| Related.KeepKeywords | javascript/script.js:2597 | Keeps only words longer than three characters that are not stop words, taken from the input |
| Related.KeepKeywordsCounts | javascript/script.js:2597 | Every keyword occurs as often as in the input, every other word not at all |
| Related.KeepKeywordsAppend | javascript/script.js:2597 | The filter distributes over concatenation, so keywords stay in text order |
| Related.Take | javascript/script.js:2598 | The prefix of length `min(n, length)` |
| Related.ExtractKeywords | javascript/script.js:2590-2599 | The first `min(20, k)` of the `k` keywords of the split, blanked text; each longer than three characters, not a stop word, made of word characters |
| Related.ExtractKeywordsOfKeyword | javascript/script.js:2590-2599 | A text that is one keyword yields exactly that keyword |
| Related.CommonWords | javascript/script.js:2605 | Only words of the first list that occur in the second |
| Related.CommonWordsCounts | javascript/script.js:2605 | Every word of the second list occurs as often as in the first, every other word not at all |
| Related.CommonWordsAppend | javascript/script.js:2605 | The filter distributes over concatenation, so the first list's order is kept |
| Related.DistinctCount | javascript/script.js:2606 | The distinct-word count is positive for a non-empty list and at most its length |
| Related.TitleSimilarity | javascript/script.js:2601-2609 | The ratio is never negative |
| Related.RelatedScore | javascript/script.js:2547-2578 | Never negative; at least 50 on a category match and at least 20 on an author match |
| Related.SortDesc | javascript/script.js:2584 | The result is ordered by descending score and is a permutation of the input |
| Related.PositivePosts | javascript/script.js:2586-2587 | Exactly the posts of the positively scored entries: each comes from one, every one survives, and nothing is dropped when all are positive |
| Related.PositivePostsAppend | javascript/script.js:2586-2587 | The filter-and-map distributes over concatenation, so the kept posts stay in the entries' order, each once per entry |
| Related.PositivePostsWithin | javascript/script.js:2586-2587 | Every post occurs in the result at most as often as among the entries |
| Related.PositivePostsSound | javascript/script.js:2586-2587 | On a list pairing candidates with their scores, every kept post is a candidate scoring above zero |
| Related.PositivePostsBounded | javascript/script.js:2586-2587 | On a descending, faithful list no kept post scores above the head entry |
| Related.PositivePostsOrdered | javascript/script.js:2584-2587 | Filtering a descending, faithful list keeps the posts in descending score order |
| Related.PostsOfAppend | javascript/script.js:2587 | Taking the posts of entries distributes over concatenation |
| Related.PostsOfScoreAll | javascript/script.js:2548-2580 | Scoring the candidates and taking the posts back gives the candidates, in order |
| Related.InsertPosts | javascript/script.js:2584 | Inserting an entry adds exactly its post to the multiset of posts |
| Related.SortDescPosts | javascript/script.js:2584 | Sorting keeps the multiset of posts |
| Related.Candidates | javascript/script.js:2545 | Every candidate comes from the merged view and has another id; every enumerated post with another id is a candidate |
| Related.CandidatesComplete | javascript/script.js:2545 | When the order lists every key once, every post of the merged view with another id is a candidate |
| Related.ScoreAll | javascript/script.js:2548-2580 | Each candidate is paired with its score, in order |
| Related.SortedFaithful | javascript/script.js:2583-2587 | Sorting keeps every entry paired with its own post's score |
| Related.AllPositiveKept | javascript/script.js:2583-2587 | With no more candidates than result slots, every positively scored candidate is returned |
| Related.TopIsBest | javascript/script.js:2583-2587 | On a descending list, the positive entries of the first `k` are a best set: nothing left out scores above them, and with a slot to spare every positive entry is kept |
| Related.SelectionIsBest | javascript/script.js:2583-2587 | No candidate left out of the selection scores above a selected one |
| Related.SelectionIsFull | javascript/script.js:2583-2587 | A selection with fewer than `maxResults` posts holds every positively scored candidate |
| Related.SelectionWithin | javascript/script.js:2583-2587 | No post occurs in the selection more often than among the candidates |
| Related.SelectTop | javascript/script.js:2583-2587 | At most `maxResults` candidates, each scoring above zero, in descending score order; none left out scores above one chosen; every positive candidate when a slot is spare or all fit; no post more often than among the candidates |
| Related.FindRelated | javascript/script.js:2539-2588 | Empty for an unknown id; at most `maxResults` posts from the merged view, never the current post, all scoring above zero, in descending score order; no other post scores above a returned one; all positive ones are returned when a slot is spare or all candidates fit; no post more often than among the candidates |
| Related.FindRelatedPosts | javascript/script.js:2539-2588 | Every `FindRelated` clause, stated with `RelatedScore`, the site's own score: empty for an unknown id, bounded, from the merged view and never the current post, positive, descending, a best set, complete when a slot is spare or all candidates fit, and no post more often than among the candidates |
| ProfileImage.ValidateProfileImageFile | javascript/script.js:328-386 | Accepts iff every check passes; each rejection names the first check that fails, in the source's order |
| ProfileImage.SizeBoundsInclusive | javascript/script.js:354-360 | 100 bytes and exactly 2 MiB pass the size checks; one byte less or more fails |
| PerfLog.KeepLast | javascript/script.js:2326-2328 | At most 50 entries, the last ones of the log |
| PerfLog.AppendBounded | javascript/script.js:2318-2330 | After logging, the log is bounded, ends with the new entry and keeps a suffix of the old log before it |
| PerfLog.AppendShort | javascript/script.js:2326-2328 | A log below the cap loses nothing |
| Store.Store.GetUsers | javascript/script.js:43-81 | Returns the migrated users; writes them back iff some record needed migration; nothing else changes; keeps the invariant |
| Store.Store.SetUserSession | javascript/script.js:95-107 | Ignores an empty email; otherwise stores a fresh persistent session with login and activity time `now` |
| Store.Store.SetCurrentUserEmail | javascript/script.js:87-91 | Sets the pointer, then the session as `SetUserSession` does |
| Store.Store.GetUserSession | javascript/script.js:109-118 | Returns the parsed session; garbled text is removed |
| Store.Store.UpdateSessionActivity | javascript/script.js:120-126 | Refreshes `lastActivity` of a readable session; otherwise the slot ends up empty |
| Store.Store.ClearUserSession | javascript/script.js:128-132 | Removes the session and the pointer, nothing else |
| Store.Store.IsSessionValid | javascript/script.js:134-148 | True iff a session is readable and not older than 30 days; an expired one is cleared with the pointer |
| Store.Store.RestoreUserSession | javascript/script.js:150-170 | True iff a valid session names an existing user; then it restores the pointer and refreshes activity, and a session whose user is gone is cleared |
| Store.Store.GetCurrentUser | javascript/script.js:172-187 | No pointer or an empty one gives no user and no change; otherwise the user found in the migrated list, and a dangling pointer is removed |
| Store.Store.UpdateUser | javascript/script.js:189-199 | Ignored for an empty email; otherwise the migrated list with the first match replaced; keeps the invariant when the new saved list has no duplicates |
| Store.Store.UpdateUserProfileImage | javascript/script.js:227-236 | True iff the email exists; sets only that record's image |
| Store.Store.RemoveUserProfileImage | javascript/script.js:238-247 | True iff the email exists; resets only that record's image to `null` |
| Store.Store.AddUser | javascript/script.js:881-882 | Appends the record to the users and changes nothing else; keeps the invariant for a new email |
| Store.Store.Signup | javascript/script.js:852-890 | Invalid trimmed fields are rejected with no change; a taken email is refused; otherwise the new user is appended and logged in; emails stay unique |
| Store.Store.Login | javascript/script.js:895-922 | Empty fields are refused with no change; it logs in iff some record matches both the email and the password; with unique emails, the record found by that email then holds that password |
| Store.Store.ToggleSaved | javascript/script.js:1239-1249 | The page's copy gets the toggled list and is written back with `UpdateUser` |
| Store.Store.RateLimitCheck | javascript/script.js:24-39 | Returns `RateLimit.Check`'s verdict; only an allowed call writes, and only that action's list |
| Store.PostInputError | javascript/script.js:1145-1158 | Rejects a blank or over-200 title first, then blank or over-10000 content, then an empty category; accepts otherwise |
| Store.NewPost | javascript/script.js:1166-1176 | The id is the title's slug; title, author name and category are stored as the per-character escape of the input, so they carry no markup; date and content as given; the upload, or the fallback image when none |
| Store.Store.SaveLocalPost | javascript/script.js:1186-1188 | Stores the post under its id and changes nothing else; keeps the invariant |
| Store.Store.CreatePost | javascript/script.js:1132-1188 | Validation failures change nothing; a rate-limited post changes nothing; otherwise it takes the slot and stores the post under its slug; the id is a slug |
| Store.NewComment | javascript/script.js:1029-1033 | Author name and text are stored as the per-character escape of the input, so they carry no markup and plain text is kept as it is; dated `now` |
| Store.Store.SaveComment | javascript/script.js:1035-1040 | Appends the comment to the post's list, creating it when missing; nothing else changes |
| Store.Store.SubmitComment | javascript/script.js:1012-1043 | An invalid comment changes nothing; a rate-limited one changes nothing; otherwise it takes the slot and, with a signed-in user, appends the escaped comment |
| Store.Store.LogPerformance | javascript/script.js:2316-2330 | Appends the entry and keeps the last 50 |

## Left out

- The DOM and every rendering, alert, redirect and event handler around the store.
  The handlers become methods that take the form values as parameters.
- Image processing: `compressImage`, `processProfileImage`, the canvas, SVG and `btoa` paths, `debugImageFile` and `testImageCompatibility`.
  They are browser APIs; only the file checks are modelled.
- TinyMCE and the Fuse.js search are third-party code and are not part of this model.
- `stripHtmlAndDecode` is a function parameter `strip` because it goes through the DOM (`javascript/script.js:2643-2647`).
- The post catalog in `javascript/posts.js` is not part of this model; it is an abstract map keyed by id.
- JSON serialisation is not modelled, except that an unparsable session record is `Garbled`, the one place the site recovers from bad JSON.
- Dates are integers in milliseconds, not ISO strings.
  A `loginTime` that does not parse (`NaN` age, so never expired) cannot be expressed.
- Display dates (`toLocaleDateString`) are an opaque string parameter.
- Every method takes one `now`. The source reads the clock several times within one handler; this model does not capture the few milliseconds between those reads.
- Lengths count Unicode scalar values, not UTF-16 code units, so the 254, 200, 2000 and 10000 character limits differ for text outside the Basic Multilingual Plane.
- `toLowerCase` is modelled for ASCII letters only.
  Characters whose lower case differs or changes length (e.g. `İ`, the Kelvin sign) are left as they are.
- Scores and durations are mathematical reals, not IEEE doubles.
- RelatedScore: states bounds only, not the exact score, because exact floating-point agreement is outside the model.
- Related.FindRelated, Related.FindRelatedPosts: an inherited name such as `constructor` given as the current id is found by `allPostsData[currentPostId]` in the source, which then fails on the missing `title`; in the model that id is simply unknown and the result is empty.
- Object.values order: `findRelatedPosts` takes the key order of the merged view as a parameter `order`, required to list every key exactly once. Which order the engine picks is not modelled; every contract holds for any such order.
- Posts.AppendComment, Posts.ResolvedIds, Posts.SavedArticleCards: the source looks ids up in plain objects, so an id such as `constructor` or `toString` finds an inherited property. The model uses maps without inherited keys and does not capture the failures that follow: the `push` on an inherited `allComments[postId]` throws after the rate-limit slot is taken (`javascript/script.js:1023-1039`), and a saved id resolving to an inherited function makes the `post.image` access throw (`javascript/script.js:1709-1715`).
- Related.SortDesc: stability and the resulting order among equal scores are not stated.
- Related.TitleSimilarity: states only that the value is non-negative. Repeated words count in the numerator but not in the distinct-word denominator, so as written the value can exceed 1.
- Users.ToggleTwicePresent: toggling twice restores the list only for an id that was not saved; a saved id moves to the end.
- Forms.ValidateSignupForm: the signup check has no 254-character bound, unlike `validateEmail`. The code does this, and the model follows it.
- Posts.Slug: may be empty (`Posts.EmptySlug`), and different titles can share a slug. The later post then overwrites the earlier one (`Posts.ShadowOne`).
- `getUserAvatar`, `getUserAvatarElement`, the theme, sharing, lazy loading and accessibility code are presentation only.
- `logout` is `ClearUserSession` plus a redirect.
