# TC-GROUP reels: a Dafny model of the app's state transitions

TC-GROUP is a single-page React app for short educational videos ("reels").
Learners get a personalised feed and follow creators. They answer each reel's
quiz, comment, vote in its poll, keep playlists and work through micro-courses
built from reels. Creators upload reels and assemble micro-courses.

All of that logic lives in `App.js`, inside event handlers and `useMemo`
bodies. This project lifts it out as pure functions over immutable values:
users, reels and courses. It then proves what those functions promise.

Modules:

- `Wrappers`: `Option`.
- `Seqs`: a generic order-preserving `Filter` with its algebra, duplicate
  freedom and sums.
- `Text`: JavaScript's `trim`, plus `split` / `map(trim)` / `filter(Boolean)`,
  used to parse the quiz options and course tags typed into forms.
- `Entities`: the data model, `users.find` for the logged-in user, and the
  store's replace-by-id with a shallow merge (`updateUser`, `updateCourse`).
- `StableSort`: a stable insertion sort by descending key. This is the
  ordering `Array.prototype.sort` gives.
- `Feed`: the "For You" ranking and the "Following" filter.
- `Following`: the follow button.
- `Engagement`: the quiz check, comments and poll votes on a reel card.
- `CourseProgress`: marking a reel complete, the progress percentage and the
  profile's completed-course count.
- `Playlists`: creating a playlist and adding the selected reel to one.
- `Authoring`: the reel upload form, the reel-selection checkbox and the
  micro-course builder.

A shallow merge `{ ...x, ...updater(x) }` is modelled as an updater that
returns the merged record, written with Dafny's `x.(field := v)`. Every
operation takes the store's collections and returns new ones. The logged-in
user is a parameter: the user id, or the looked-up `Option<User>`.

What the code does, and so what the model does:

- Blank input is a silent no-op and raises no error. This covers comment
  text, a playlist name, a reel's title or topic, and a course title.
- The quiz check compares the selection with `correctIndex`. The selection
  is not range-checked.
- Follow refuses only when no learner is logged in or the creator is already
  followed. A learner may follow themselves, and the target's role is not
  checked.
- Mark-complete does not check that the reel belongs to the course. It
  needs someone logged in, not necessarily a learner.
- The progress percentage divides the length of the completed list by the
  course's reel count. It does not intersect the list with the course's
  reels. With no reels in the course the result is NaN or Infinity.
- Adding a reel to a playlist does not check that the playlist or the reel
  exists. An unknown playlist id changes nothing, and the empty selection is
  a no-op.
- A new reel's `correctIndex` is taken as typed. It is not checked against
  the options.

## Model

| member | source | states |
|---|---|---|
| Entities.FirstIndex | App.js:148 | The index returned is the first position holding the id; every earlier user has another id; the list's length means nobody has it |
| Entities.FindUser | App.js:147-150 | The current user is a member of the store carrying the requested id, and the lookup fails exactly when no user carries it |
| Entities.ReplaceById | App.js:153-163 | The store keeps its length; each entity whose id matches is replaced by the merged record, and every other entity is left as it was |
| Entities.ReplaceMissing | App.js:153-163 | Replacing an id that no entity carries leaves the store unchanged |
| Entities.ReplaceKeepsIds | App.js:153-163 | An updater that keeps ids leaves every position's id in place, so unique ids stay unique |
| Entities.FindAfterReplace | App.js:147-157 | After an id-keeping update of the current user, the lookup finds the updated version of the user found before, at the same position |
| Entities.ReplaceTwice | App.js:153-163 | Replacing twice with an id-keeping, idempotent updater equals replacing once |
| Text.Trim | App.js:361 | The trimmed text begins and ends with no whitespace, and it is empty exactly when the input is blank |
| Text.TrimIsSlice | App.js:361 | The trimmed text is a contiguous slice of the input |
| Text.TrimIdempotent | App.js:361 | Trimming twice is trimming once |
| Text.TrimChars | App.js:361 | Trimming introduces no character that was absent from the input |
| Text.Split | App.js:692-693 | Splitting always yields at least one piece |
| Text.SplitAvoids | App.js:692-693 | No piece of a split contains the separator |
| Text.JoinSplit | App.js:692-693 | Joining the parts of a split with the separator rebuilds the input |
| Text.SplitJoin | App.js:848-849 | Splitting a join of separator-free parts gives those parts back |
| Text.CleanTidy | App.js:694-695 | Trimming and dropping empties leaves a list of non-empty, trimmed entries unchanged |
| Text.Fields | App.js:848-851 | Every parsed field is non-empty, trimmed and free of the separator |
| Text.SplitCat | App.js:848-849 | A separator splits the text into the pieces before it followed by the pieces after it |
| Text.CleanConcat | App.js:850-851 | Trimming and dropping empties works piece by piece, so it distributes over concatenation |
| Text.CleanEmpty | App.js:850-851 | Nothing is left exactly when every piece is blank |
| Text.FieldsOne | App.js:848-851 | Text without the separator gives no field when blank, and otherwise one field, its trimmed self |
| Text.FieldsCat | App.js:848-851 | The fields of text around a separator are the fields before it followed by the fields after it; with FieldsOne this fixes every field list, in order |
| Text.FieldsEmpty | App.js:692-695 | With a whitespace separator such as the line break, text has no fields exactly when it is blank |
| Text.FieldsJoin | App.js:848-851 | Non-empty, trimmed, separator-free entries written with separators are parsed back exactly |
| StableSort.Sort | App.js:286 | The sort returns a permutation (same multiset) ordered by non-increasing key |
| StableSort.InsertSorted | App.js:286 | Inserting into a key-descending list keeps it key-descending |
| StableSort.SortStable | App.js:286 | For every key value, the elements with that key appear in the output in input order |
| StableSort.SortCharacterization | App.js:286 | A list is the sort's output if and only if it is key-descending and agrees with the input on each key's elements |
| Feed.Score | App.js:279-284 | The score is between 0 and 6. It is 0 exactly when the reel matches neither the interests nor a followed creator. A score of 4 or more implies a followed creator |
| Feed.PersonalizedFeed | App.js:274-288 | With nobody logged in the feed is empty; otherwise it holds every reel exactly as often as the collection does, ordered by non-increasing score |
| Feed.PersonalizedFeedStable | App.js:278-287 | Reels with equal score keep their relative order from the collection |
| Feed.PersonalizedFeedUnique | App.js:278-287 | The feed is the only ordering of the reels that is by non-increasing score and keeps ties in collection order |
| Feed.PersonalizedFeedExample | App.js:278-287 | For interests [DSA] and following [c1], the reels r1, r2, r3 score 5, 2, 3 and are ranked r1, r3, r2 |
| Feed.FollowingFeed | App.js:290-295 | With nobody logged in the feed is empty; otherwise a reel is in it exactly when it is in the collection and its creator is followed |
| Feed.FollowingFeedCount | App.js:292-294 | Each followed creator's reel keeps all its copies; every other reel has none |
| Feed.FollowingFeedOrder | App.js:292-294 | The filter distributes over concatenation, so collection order is kept |
| Following.Follow | App.js:341-352 | Without a learner logged in, or with the creator already followed, nothing changes. Otherwise the creator is appended to the follow list of each user with the current id, and nothing else changes |
| Following.IsFollowing | App.js:341-344 | Only a logged-in learner follows anyone, and a learner follows exactly the creators on their follow list |
| Following.FollowRecordsCreator | App.js:346-351 | Afterwards the learner follows the creator. The follow list is the old one, extended by the creator exactly when it was missing. No other field of the user changes |
| Following.FollowIdempotent | App.js:346-352 | Following twice leaves the users as following once |
| Following.FollowKeepsNoDup | App.js:348-350 | A follow list without duplicates stays without duplicates |
| Engagement.CheckAnswer | App.js:354-358 | There is no verdict without a selection; the answer is judged correct exactly when the selection equals the correct index |
| Engagement.ExactlyOneCorrect | App.js:356 | With the correct index in range, exactly one option is judged correct |
| Engagement.DisplayName | App.js:364 | The name shown is the user's own name when someone is logged in with a non-empty name, and "Anonymous" otherwise |
| Engagement.AddComment | App.js:360-371 | Blank text leaves the reel unchanged. Otherwise exactly one comment (fresh id, display name, trimmed text) is appended, earlier comments stay as they were, and no other field changes |
| Engagement.AddCommentKeepsWellFormed | App.js:361-366 | If every comment has non-empty trimmed text and a non-empty name, that still holds after posting |
| Engagement.Vote | App.js:374-383 | The chosen counter grows by one. Every other counter, the vote array's length, the question, the options and the rest of the reel are unchanged |
| Engagement.VoteAddsOne | App.js:376-377 | One vote adds exactly one to the poll's total |
| Engagement.VoteConservation | App.js:374-383 | After N votes the total has grown by exactly N; the options and the rest of the reel are unchanged |
| CourseProgress.MarkComplete | App.js:389-401 | A reel already recorded leaves the course unchanged. Otherwise the learner's list, empty if there was none, gains the reel at its end. No other course field changes |
| CourseProgress.MarkCompleteMonotone | App.js:390-399 | Marking creates the learner's record if missing and records the reel. Every record survives and only grows at its end. Other learners' records are unchanged |
| CourseProgress.MarkCompleteIdempotent | App.js:393 | Marking a reel twice equals marking it once |
| CourseProgress.MarkAllMonotone | App.js:387-403 | Over any run of clicks, each learner's completed list extends the one before, so its length never decreases; other course fields are unchanged |
| CourseProgress.MarkCompleteInCourses | App.js:387-403 | With nobody logged in nothing changes; otherwise exactly the courses with the clicked id are marked for the current user |
| CourseProgress.RoundedPercent | App.js:531 | With no reels the value is NaN when nothing is done and Infinity otherwise; with reels it is a non-negative whole number |
| CourseProgress.RoundedPercentNearest | App.js:531 | The value is the whole number nearest to 100·done/total, with halves rounding up |
| CourseProgress.RoundedPercentBounds | App.js:531 | For at most `total` reels done, the value lies in 0..100. It is 0 when none are done and 100 when all are done |
| CourseProgress.ProgressPercent | App.js:525-532 | With nobody logged in or no record the value is 0; otherwise it is the rounded share of the record's length over the course's reel count |
| CourseProgress.RecordWithinCourse | App.js:385-403 | A duplicate-free record drawn from the course's reels lists at most as many reels as the course has |
| CourseProgress.MarkCompleteKeepsWellFormed | App.js:385-403 | Marking a reel of the course keeps every record duplicate-free and within the course's reels |
| CourseProgress.ProgressBounded | App.js:525-532 | For a well-formed course with reels, the value shown is a whole number in 0..100 |
| CourseProgress.CompleteShowsHundred | App.js:926-931 | A course the profile counts as completed shows 100% |
| CourseProgress.HundredWithoutCompletion | App.js:926-931 | The converse fails: 199 of 200 reels show 100% without the course counting as completed |
| CourseProgress.IsCourseComplete | App.js:926-931 | The profile counts a course as completed only when the learner has a record. For a well-formed course without repeated reels, it is completed exactly when every reel of the course is in the learner's record |
| CourseProgress.AllReelsDone | App.js:928-929 | A duplicate-free record drawn from a course without repeated reels is as long as the course exactly when it holds every reel of the course |
| CourseProgress.CompleteStaysComplete | App.js:393 | In a well-formed, completed course, marking any of its reels changes nothing |
| CourseProgress.CompletedCourseCount | App.js:925-931 | The count never exceeds the number of courses. It is 0 for a creator, and 0 for a learner who has completed no course |
| CourseProgress.CompletedCourseCountOne | App.js:926-931 | A single course counts 1 exactly when the learner has completed it, and 0 otherwise; with the split lemma this fixes the count of any list |
| CourseProgress.CompletedCourseCountSplit | App.js:926-931 | The count adds up over any split of the course list |
| CourseProgress.MarkCompleteKeepsCount | App.js:926-931 | Marking a reel of its course never lowers a learner's completed-course count |
| CourseProgress.ProgressExample | App.js:525-532 | For a two-reel course, a learner without a record goes from 0% to 50%, then to 100% and complete |
| Playlists.CreatePlaylist | App.js:571-586 | Without a learner, or with a blank name, nothing changes. Otherwise the learner's playlists gain, at their end only, one playlist with the fresh id, the trimmed name and no reels. Other users and fields are unchanged |
| Playlists.CreatePlaylistKeepsWellFormed | App.js:576-583 | With a fresh id, a learner's playlists keep unique ids and non-empty trimmed names |
| Playlists.AddReel | App.js:591-595 | Only a playlist with the given id that lacks the reel changes, and only by gaining the reel at its end; all other fields and playlists are unchanged |
| Playlists.AddReelIdempotent | App.js:592 | Adding a reel twice is adding it once |
| Playlists.AddReelOnce | App.js:592-593 | After adding, the target playlist holds the reel exactly once, if it did not already hold it twice |
| Playlists.AddReelKeepsNoDup | App.js:592-593 | Duplicate-free playlists stay duplicate-free |
| Playlists.AddReelToPlaylist | App.js:588-597 | Without a learner, or with no reel selected, nothing changes; otherwise only the learner's playlist with the given id can gain the reel |
| Playlists.AddReelToPlaylistIdempotent | App.js:588-597 | Adding the same selection twice leaves the users as after once |
| Authoring.TrimOr | App.js:706-708 | A field that is not blank is used trimmed; a blank one is replaced by the default |
| Authoring.QuizOptions | App.js:692-709 | Blank text gives the two placeholders "Option A" and "Option B"; otherwise the options are the text's lines, trimmed, with blank lines dropped, in order; there is always at least one |
| Authoring.QuizOptionsRoundTrip | App.js:692-695 | Options typed one per line are read back as typed |
| Authoring.NewReel | App.js:697-718 | The new reel has the fresh id, the creator and trimmed title, topic and concept. A duration of 0 becomes 60. Summary and question are the trimmed fields, or "Short AI-style summary of this reel." and "Quick understanding check." when blank. The parsed options and the typed correct index are used. It has no comments and a fresh Yes/No poll with zero votes |
| Authoring.CreateReel | App.js:688-720 | Without a creator (the studio is only shown to creators, App.js:657), or with a blank title or topic, nothing changes. Otherwise the new reel goes in front and the others follow unchanged |
| Authoring.CreateReelKeepsInvariants | App.js:697-720 | With a fresh id, reel ids stay unique. Every reel keeps one counter per poll option, at least one quiz option and a non-empty title |
| Authoring.ToggleReelSelection | App.js:830-836 | Ticking an unselected reel appends it at the end. Unticking a selected reel removes every copy of it and keeps every other reel as often as before. Membership of the clicked reel flips, and nothing else changes membership |
| Authoring.UntickKeepsOrder | App.js:830-836 | Unticking a reel closes the gap it leaves: the reels before and after it stay in their order, which becomes the course's reel order |
| Authoring.ToggleKeepsNoDup | App.js:830-836 | A selection without duplicates stays without duplicates |
| Authoring.ToggleTwice | App.js:830-836 | Ticking an unselected reel and unticking it restores the selection |
| Authoring.NewCourse | App.js:841-853 | The new course has the fresh id, the creator, the selected reels in order, trimmed title and description, and no progress records. Its tags are the comma-separated fields of the tag text, each non-empty and trimmed |
| Authoring.CourseTagsSpaced | App.js:848-851 | Two clean tags typed with a space after the comma, as in "DSA, placements", give exactly those two tags in order |
| Authoring.CourseTagsRoundTrip | App.js:848-851 | Clean tags typed with commas between them are read back as typed |
| Authoring.CreateCourse | App.js:838-857 | Without a creator, with a blank title or with an empty selection, nothing changes. Otherwise the new course is appended after the unchanged existing ones |
| Authoring.NewCourseStartsEmpty | App.js:852 | A new course is well formed; every user sees 0% and has not completed it |

## Left out

- Rendering, React hooks, context and `useMemo` are left out. So is the UI state: tabs, feed tab, user switcher, form fields, quiz result text. None of it is logic.
- Ids come from `Date.now()` in the source (App.js:363, 578, 698, 842). Here the caller passes in a fresh id. Freshness is a lemma hypothesis where a property needs it.
- The per-card copy `localReel` (App.js:339) is left out. It keeps comments and votes from reaching the store. Here, commenting and voting are pure functions from a reel to a reel.
- No concurrency is modelled: the code has only single-threaded `setState` updaters.
- The poll's percentage display (App.js:496-505) is presentation only and is not modelled.
- CourseProgress.RoundedPercent: computes `Math.round` exactly on rationals, with halves rounding up. IEEE floating-point rounding is not modelled.
- Engagement.Vote: requires an index within the vote array. An out-of-range index makes the source's JavaScript array grow a new slot (App.js:377), and that is not modelled.
- Text.Trim: treats only space, tab, line feed, vertical tab, form feed and carriage return as whitespace. JavaScript's `trim` also strips the other Unicode spaces and line terminators.
- Authoring.NewReel: takes the duration and correct index as integers. The source's `Number(...)` coercion of form strings is not modelled: a non-numeric duration becomes 60 and a non-numeric index becomes 0 (App.js:701, 710). Only the integer 0 falling back to the default is modelled.
- Authoring.CreateReel: folds in the creator check that the studio's render performs (App.js:657). The source handler itself assumes a creator is logged in.
- Playlists.CreatePlaylist: folds in the learner check that the playlist screen's render performs (App.js:571). The same applies to Playlists.AddReelToPlaylist.
- Feed.PersonalizedFeed: assumes a stable `Array.prototype.sort`, as the language has required since ES2019.
