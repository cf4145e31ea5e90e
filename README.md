# Kata Social Network: a model of the command interpreter

The repository is a small React application: a console-style social network
for three users, Alice, Bob and Charlie. Its whole behaviour sits in
`src/App.js`. Strip the React hooks and what is left is a sequential
interpreter with three pieces of state:

- `users`: the roster, each user with the names they follow;
- `posts`: newest first;
- `log`: the output lines, each with a type (untyped echo, command, post, error).

Pressing Enter on a line does three things. It echoes the line as `> line`.
It dispatches on substring markers in a fixed order: `" -> "` goes to post,
`" follows "` to follow, `" wall"` to wall, and an exact roster name to read.
Then the chosen handler validates, updates the state and appends result or
error lines. A pure helper renders a post's age as "N unit(s) ago".

The project has six modules:

- `Text` (`text.dfy`): the JavaScript string operations the code relies on.
  These are `includes`, `split` with the one-group regular expressions
  `/ -> (.+)/` and `/ follows (.+)/`, `split(' ')[0]`, and the decimal text a
  template literal gives a number. The regular expression is modelled
  exactly. The split happens at the leftmost delimiter followed by at least
  one character other than a line terminator. The captured group runs
  greedily up to the first line terminator. When nothing matches, the first
  element is the whole line and the second is `undefined` (`None`), which a
  template literal renders as `undefined`.
- `Age` (`age.dfy`): `getReadableTimeDiff`, with `Math.round` of the
  elapsed milliseconds divided by 1000, JavaScript's truncating `%`, and the
  if-chain returning `undefined` when no branch applies.
- `Social` (`social.dfy`): the entities as datatypes and every handler as a
  function of the state. `Step` is one Enter on a `State`. `Inv` is the
  invariant every line keeps.
- `Properties` (`properties.dfy`): what the handlers guarantee. These cover
  dispatch precedence, the exact outcome of each kind of line, the order and
  the selection of the read and wall scans, idempotent follow, growing follow
  lists and the preservation of the invariant.
- `Kata` (`engine.dfy`): the `Engine` class with the fields `users`,
  `posts` and `log`. Its methods update the fields in place, and its `read`
  and `wall` scans are `while` loops that build `newLogLines` as the
  source's `forEach` does. Each method is proved equal to the function
  of `Social` that specifies it.
- `Scenarios` (`scenarios.dfy`): sessions from the initial state, and ages
  at the bucket boundaries.

The clock is a parameter. `Enter(command, now)` takes the reading `now`, in
integer milliseconds, that stands for every `new Date()` of that Enter. A post
stores the `now` of the Enter that made it.

Where the documented behaviour and the code differ, the model follows the code:

- `getReadableTimeDiff` takes one parameter and always measures against the
  clock (src/App.js:132-133). Read passes a second argument that is ignored
  (src/App.js:88). Wall passes none (src/App.js:115). Both views therefore
  show the age relative to `now`.
- A line that passes none of the four tests is still echoed
  (src/App.js:27-28). Nothing else happens.
- Wall on a first token that names no user does not log an error. The lookup
  `users.filter(...)[0].follows` throws (src/App.js:107). The model returns
  `completed == false` from `Enter`. The echo, queued before the throw, stays.
  Nothing else changes.

Two inputs the code handles need no precondition here:

- A negative elapsed time, from a post stamped after the reading. It rounds to
  a non-positive number of seconds, and the age is `undefined`.
- Line terminators inside the command. The model treats them as the regular
  expression does.

## Model

| member | source | states |
|---|---|---|
| Text.FirstCaptureFrom | src/App.js:45 | the leftmost index at or after the start where the delimiter is followed by a character `.` matches; none exists when the result is `None` |
| Text.RunEnd | src/App.js:45 | the greedy `(.+)` stops at the first line terminator or at the end of the line, and contains none |
| Text.SplitCapture | src/App.js:45 | `undefined` second element exactly when the regex matches nowhere, and then the first element is the whole line; otherwise prefix + delimiter + capture is a prefix of the line, the capture is non-empty and on one line, and no match starts earlier |
| Text.SplitRoundTrip | src/App.js:45 | on a single line the split reassembles the whole line, and no occurrence of the delimiter starts before the split point |
| Text.SplitFailsIff | src/App.js:45 | on a single line the split fails exactly when every occurrence of the delimiter ends the line (as in `"Alice -> "`) |
| Text.SplitJoin | src/App.js:59 | splitting `word + delimiter + rest` gives back the word and all of `rest`, later delimiters included |
| Text.Contains | src/App.js:30-34 | `includes`: an occurrence fits inside the line, and a prefix occurs at index 0; `ContainsChar`, `AbsentWithoutChar`, `SoleSpaceExcludes` and `ContainsAfterWord` state when a marker is present or absent |
| Text.SoleSpaceExcludes | src/App.js:30-34 | a marker made of a space and a character other than the one after the line's only space does not occur in the line |
| Text.ContainsAfterWord | src/App.js:30-34 | a marker that starts with a space occurs in `word + rest` exactly when it occurs in `rest` |
| Text.FirstToken | src/App.js:106 | `split(' ')[0]` is a space-free prefix of the line, followed by a space or the end |
| Text.FirstTokenOfWord | src/App.js:106 | the first token of a word followed by a space is that word |
| Text.TemplateText | src/App.js:75 | no ensures: the text `${…}` inserts for a split capture that may be `undefined`, the captured text itself or the literal `undefined` (also the age at src/App.js:88 and 115, which renders `(undefined)`); `FollowRejected` shows it in `> name or undefined doesn't exists.` |
| Text.NatToString | src/App.js:138 | the interpolated number is a non-empty string of decimal digits denoting it, with no leading zero |
| Age.RoundedSeconds | src/App.js:133 | the rounded seconds lie within half a second of the elapsed milliseconds |
| Age.JsRem | src/App.js:134 | `a % b`: the dividend minus the result is a multiple of the divisor, the result is smaller than the divisor in magnitude, and it has the sign of the dividend; together these fix JavaScript's truncating remainder |
| Age.ReadableTimeDiff | src/App.js:132-150 | from `e` rounded seconds: whole hours from 3600 on, singular below 7200; total minutes from 60 to 3599, singular below 120; seconds from 1 to 59, singular at 1; `undefined` exactly when `e <= 0` |
| Social.IsUser | src/App.js:36 | `users.some(user => user.name === name)` holds exactly when the name is among the users' names |
| Social.InitialUsers | src/App.js:5-8 | no ensures: the roster `Alice`, `Bob`, `Charlie`, in that order, each following no one; `Scenarios.InitialInv` shows it meets the invariant |
| Social.Initial | src/App.js:9-15 | no ensures: the initial state, with that roster, no posts and the one `command` entry `Welcome to Kata Social Network`; `Kata.Engine.constructor` builds it |
| Social.Echo | src/App.js:27 | no ensures: the untyped entry `> ` followed by the whole line; `Social.Step` and `Kata.Engine.Enter` put it first among the new entries |
| Social.Followed | src/App.js:66-69 | no ensures: the `map` callback, which appends the target to the follower's record when it is not already there and returns every other record as it was; `Social.FollowUsers` states the result |
| Social.ReadLine | src/App.js:86-89 | no ensures: the `post` entry `> content (age)`, with the age of `ReadableTimeDiff` against the clock, `undefined` when it has none |
| Social.OnWall | src/App.js:110-111 | no ensures: the wall's author test, true when the post is by the user or by a name in their follow list; `Properties.WallLinesSelect` uses it |
| Social.WallLine | src/App.js:113-116 | no ensures: the `post` entry `> name - content (age)`, with the age of `ReadableTimeDiff` against the clock, `undefined` when it has none |
| Social.FindUser | src/App.js:107 | the lookup finds a user exactly when one has the name, and it is the first user with that name |
| Social.FollowUsers | src/App.js:65-70 | names are kept; users other than the follower are unchanged; the follower's list keeps its old entries as a prefix, gains the target and nothing else |
| Social.PostEffect | src/App.js:44-56 | either the posts are unchanged and exactly one error line is logged, or exactly one post is prepended, the older posts kept in order, and nothing is logged; a new post is by a user, stamped with the clock, with non-empty one-line content, and the line starts with `name -> content`; `PostByRosterName`, `PostByStranger`, `PostByNonRosterName` and `PostWithEmptyContent` give the exact outcome |
| Social.FollowEffect | src/App.js:58-80 | the roster names are kept and no follow list loses an entry; either nothing is logged, or the roster is unchanged and exactly one error line is logged; nothing is logged only when the split gives two different users, and then the follower's list holds the target; `FollowByRosterNames`, `FollowRejected` and `SelfFollowRejected` give the exact outcome |
| Social.ReadLines | src/App.js:84-91 | at most one line per post; `ReadLinesSelect`, `ReadLinesConcat` and `ReadLinesArePosts` state which posts, in which order and with which type |
| Social.ReadEffect | src/App.js:92-102 | the scan's lines, between one and the number of posts, or exactly `> user has no posts`; `ReadByRosterName` gives it as the outcome of a read line |
| Social.WallLines | src/App.js:109-118 | at most one line per post; `WallLinesSelect`, `WallLinesConcat` and `WallLinesArePosts` state which posts, in which order and with which type |
| Social.WallEffect | src/App.js:105-130 | lines exactly when the first token names a user (otherwise the lookup throws); then the scan's lines, between one and the number of posts, or exactly `> No posts`; `WallOfRosterUser` and `WallOfNonRosterNameThrows` give the outcome of a wall line |
| Social.Step | src/App.js:23-42 | the echo is the first new log entry and the old log is kept; the roster names are kept; posts are unchanged or gain one at the front; a line that throws adds only the echo |
| Properties.RosterUsers | src/App.js:5-8 | under the invariant a name is a user exactly when it is one of the three roster names |
| Properties.FindRosterUser | src/App.js:107 | under the invariant the wall lookup of a roster name finds that user's record |
| Properties.UnsplitPostLineIsNoUser | src/App.js:45-46 | a line holding `" -> "` is never a roster name, so an unsplit post line fails the author test |
| Properties.ReadLinesConcat | src/App.js:84-91 | the read scan over two runs of posts is the scan of the first followed by the scan of the second |
| Properties.ReadLinesSelect | src/App.js:84-91 | read emits a line for a post exactly when its author is the user, and nothing when there is no such post |
| Properties.ReadLinesArePosts | src/App.js:86-89 | every line read emits has the type `post` |
| Properties.ReadShowsNewestFirst | src/App.js:47 | a new post is the first line of its author's read, followed by the older lines in order |
| Properties.WallLinesConcat | src/App.js:109-118 | the wall scan over two runs of posts is the scan of the first followed by the scan of the second |
| Properties.WallLinesSelect | src/App.js:109-118 | wall emits a line for a post exactly when its author is the user or someone they follow, and nothing when there is no such post |
| Properties.WallLinesArePosts | src/App.js:113-116 | every line wall emits has the type `post` |
| Properties.WallShowsNewestFirst | src/App.js:47 | a new post by anyone on the wall comes first on it |
| Properties.FollowIdempotent | src/App.js:65-70 | following twice gives the same roster as following once |
| Properties.NoDuplicatesOnce | src/App.js:66 | a name in a list without duplicates occurs in it exactly once |
| Properties.FollowListsTargetOnce | src/App.js:65-70 | after a follow the target is in the follower's list exactly once and the list has no duplicates |
| Properties.FollowKeepsWellFormed | src/App.js:60-70 | a follow of a different roster user keeps every list free of self-follows, duplicates and non-users |
| Properties.StepKeepsInv | src/App.js:23-130 | every line keeps the roster names, keeps follow lists well formed, and keeps every post by a roster user with non-empty content |
| Properties.PostTakesPrecedence | src/App.js:30-31 | a line holding `" -> "` is handled as a post, whatever else it holds |
| Properties.UnrecognizedLineOnlyEchoes | src/App.js:30-38 | a line passing none of the four tests changes users and posts not at all and logs only its echo |
| Properties.PostByRosterName | src/App.js:45-47 | `name -> content` by a roster name prepends exactly one post with all of `content` and the clock reading, keeps the older posts in order, and logs only the echo |
| Properties.PostByStranger | src/App.js:46-54 | a post whose author is not a user leaves the posts unchanged and logs exactly the echo and `> name cannot posts.` |
| Properties.PostByNonRosterName | src/App.js:45-54 | `name -> content` by a single word outside the roster logs exactly the echo and `> name cannot posts.` |
| Properties.PostWithEmptyContent | src/App.js:45-54 | `name -> ` does not split, and the whole line is quoted in the error |
| Properties.FollowByRosterNames | src/App.js:59-71 | `name follows target` between two different roster names updates the roster as `FollowUsers` states and logs only the echo |
| Properties.FollowRejected | src/App.js:60-78 | a follow without two different users leaves the roster unchanged and logs exactly the echo and `> name or target doesn't exists.` |
| Properties.SelfFollowHasNoPostMarker | src/App.js:30 | `a follows a` with a space-free `a` holds no `" -> "`, so it reaches the follow handler |
| Properties.SelfFollowRejected | src/App.js:61 | `a follows a` is refused with the echo and `> a or a doesn't exists.` for every non-empty single-word name on one line |
| Properties.FollowTwiceIsFollowOnce | src/App.js:58-80 | entering the same line twice leaves the roster as entering it once |
| Properties.StepGrowsFollows | src/App.js:65-70 | no line removes a name from a follow list |
| Properties.ReadByRosterName | src/App.js:36-37 | a roster name on its own line gets the read output and nothing else |
| Properties.WallLineDispatch | src/App.js:34-35 | `name wall…` with a single-word `name` holds the wall marker, and the wall handler takes `name` as the user, whatever follows the marker |
| Properties.GluedWallLineHasNoOtherMarker | src/App.js:30-34 | text glued to the marker, as in `Alice wallpaper`, adds no post or follow marker |
| Properties.WallOfRosterUser | src/App.js:105-130 | any line with the wall marker and no post or follow marker whose first token is a roster user (such as `Alice wall`, `Alice wallpaper` or `Alice says wall`) logs the wall lines of their posts and of those they follow, or `> No posts` |
| Properties.WallOfNonRosterNameThrows | src/App.js:107 | any line with the wall marker and no post or follow marker whose first token is not a roster name does not complete and logs only the echo |
| Properties.ReadAfterFirstPost | src/App.js:44-103 | a user's first post is exactly what their next read shows |
| Kata.Engine.constructor | src/App.js:5-15 | the three roster users with no follows, no posts, the greeting, and the invariant |
| Kata.Engine.Enter | src/App.js:23-42 | the new fields and the completion flag are exactly what `Step` gives, the invariant is kept, and the echo comes first |
| Kata.Engine.PostMessage | src/App.js:44-56 | the posts and the log become what `PostEffect` states, and the invariant is kept |
| Kata.Engine.FollowUser | src/App.js:58-80 | the roster and the log become what `FollowEffect` states, and the invariant is kept |
| Kata.Engine.ReadUser | src/App.js:82-103 | the loop appends `ReadLines` of the posts in order, or the error line; the invariant is kept |
| Kata.Engine.ShowWall | src/App.js:105-130 | completes exactly when the first token names a user; then the loop appends `WallLines` in order, or `> No posts`; the invariant is kept |
| Scenarios.InitialInv | src/App.js:5-15 | the initial state satisfies the invariant |
| Scenarios.FirstPost | src/App.js:44-47 | the first post from the initial state by a roster user |
| Scenarios.FollowedFromStart | src/App.js:65-70 | in the initial roster, `b` following `a` gives `b` the record following exactly `a` |
| Scenarios.ThenFollow | src/App.js:58-71 | after `b follows a`, `b`'s record is exactly `b` following `a` |
| Scenarios.WallOfSoleFollow | src/App.js:105-121 | when `b` follows only `a` and the only post is `a`'s, `b wall` completes with exactly that post's wall line |
| Scenarios.PostFollowWall | src/App.js:23-130 | `a -> content`, `b follows a`, `b wall` shows exactly `a`'s post on `b`'s wall |
| Scenarios.AgeUndefined | src/App.js:132-150 | under half a second, or negative, gives `undefined` |
| Scenarios.AgeSeconds | src/App.js:145-148 | "1 second ago" at 0.5 s and "59 seconds ago" at 59.499 s |
| Scenarios.AgeMinutes | src/App.js:141-144 | "1 minute ago" at 59.5 s and "59 minutes ago" just before the hour |
| Scenarios.AgeHours | src/App.js:137-140 | "1 hour ago" from 3599.5 s and "2 hours ago" at two hours |

## Left out

- React plumbing is not modelled, because it is UI. This covers `useState`, `useRef`, `useEffect` and focus (src/App.js:17-21), the `keyCode === 13` test (`Enter` is the call made when it holds), `setCommand('')` clearing the prompt (src/App.js:40), and the JSX rendering with `Math.random()` keys (src/App.js:152-173).
- React's batching of state updates is not modelled. Each handler's updates are immediate assignments, in source order; each Enter runs one handler.
- `new Date()` is a parameter. One reading `now` serves for the post stamp and for every age computed during an Enter.
- Floating point is not modelled. Times are integer milliseconds and `Math.round(ms / 1000)` is `(ms + 500) / 1000` with floor division, which is exact for integers.
- Characters are Dafny `char`s rather than the UTF-16 code units of JavaScript strings. The two differ only for characters outside the Basic Multilingual Plane.
- The exception that wall throws on an unknown first token is modelled as `completed == false`. The rest of `handleEnter`, the prompt clear, is then skipped; it is not part of the model anyway.
- The function `Social.PostEffect` also tests that the capture is defined. The source tests only the author. Under the invariant the two agree, because an unsplit post line holds `>` and is never a roster name (`Properties.UnsplitPostLineIsNoUser`); `Kata.Engine.PostMessage` uses that lemma in place of the extra test.
- Sessions with literal strings (for example `Alice wallpaper` or `Dave -> hi`) are stated generically, over any roster name and any single-word text. The verifier cannot unfold the string operations on long literals within its resource bound.
