# LockIn core, modelled in Dafny

LockIn is a focus app. It has a countdown timer and a stopwatch that log
sessions, an analytics page over the logged sessions, a music player with an
editable playlist, local profiles, and a small Convex backend. In that
backend users register a unique username, link up with one friend into a
shared space, and publish their live study status.

This project models that core as pure functions over immutable values:

- `Study` (`study.dfy`) holds the backend mutations and queries of
  `convex/study.ts`. Each table is a sequence in insertion order, which is
  the `_creationTime` order. A `.withIndex(...).first()` lookup is the first
  element with that key. A patch rewrites that element in place, and an
  insert appends.
- `TimeFormat` (`time_format.dfy`) holds `formatTime` and its
  `MM:SS` / `HH:MM:SS` layout.
- `UserContext` (`user_context.dfy`) holds the profile list with its active
  id.
- `MusicPlayer` (`music_player.dfy`) holds the current track, next and
  previous, adding and deleting tracks, the category filter, and the
  YouTube id taken from a url.
- `Timer` (`timer.dfy`) and `Stopwatch` (`stopwatch.dfy`) hold the two
  clocks as state machines. A `setInterval` firing is one `Tick` event, and
  a completed session is an output.
- `Analytics` (`analytics.dfy`) holds the summary figures, the pie split and
  the empty state of the analytics page. Its input is the session list as
  `App.tsx` keeps it, newest first, so "earlier in the list" means "more
  recent".
- The helper modules are `Wrappers` (`Option`), `Seqs` (first match,
  filter, count, removal at an index), `Text` (JavaScript `trim`,
  `includes`, ASCII upper-casing, splitting) and `Sessions` (the `Session`
  record of `src/types/index.ts`).

Several things become explicit parameters: the random colour, `Date.now()`,
`crypto.randomUUID()` and `new Date().toISOString()`. A JavaScript
`TypeError`, such as reading `.id` or `.url` of `undefined`, is modelled as
a `None` result.

## Model

| member | source | states |
|---|---|---|
| Study.RegisterUser | convex/study.ts:6-20 | A taken username fails with "Username taken" and writes nothing, even when the caller already owns that username. Otherwise the call succeeds. The first user with that email gets the new name and username in place, or else one user is appended. Stats and links never change. |
| Study.GetUser | convex/study.ts:22-27 | Returns the first user with the email, and null exactly when nobody has it. |
| Study.ResolveInvite | convex/study.ts:29-35 | Returns the email and name of the first user with the username, and null exactly when nobody has it. |
| Study.RegisterUserKeepsUnique | convex/study.ts:9-17 | The check-then-write keeps emails unique and usernames unique among users. |
| Study.RegisterThenLookup | convex/study.ts:6-35 | After a successful registration, `getUser(email)` returns exactly the registered record and `resolveInvite(username)` the email and name. |
| Study.GetUserOfUnique | convex/study.ts:22-27 | When emails are unique, `getUser` finds every stored user by its email. |
| Study.AddFriend | convex/study.ts:38-80 | An unknown username fails with "User not found. Check the username.". Linking oneself fails with "You cannot add yourself.". An existing link in either direction succeeds with "Already connected!" and writes nothing. Otherwise one link (me, friend, default video theme) is appended. |
| Study.AddFriendKeepsPairsUnique | convex/study.ts:58-76 | The two existence checks keep at most one link per unordered pair, and no link joins a user to themself. |
| Study.AddFriendLinksBothSides | convex/study.ts:72-76 | When neither side was linked before, both sides afterwards see a linked space with the default theme, each with the other as partner. |
| Study.AddFriendIdempotent | convex/study.ts:58-69 | Asking again, from either side, succeeds with "Already connected!" and writes nothing. |
| Study.LocateLink | convex/study.ts:95-98 | The link a user's space resolves to: the first link where they are `user1`, otherwise the first where they are `user2`. It is null exactly when no link involves them. |
| Study.LocateLinkIgnoresThemes | convex/study.ts:105-108 | Which link is found depends only on the participants, so rewriting themes never moves a user to another link. |
| Study.LeaveSpace | convex/study.ts:92-100 | Deletes exactly the located link and leaves everything else alone. Without a link the call is a no-op. |
| Study.LeaveSpaceUnlinksBoth | convex/study.ts:92-100 | When each participant has only that link, leaving makes both of them solo. |
| Study.UpdateTheme | convex/study.ts:102-110 | Rewrites the theme of the located link only, and keeps every link's participants. |
| Study.UpdateThemeThenGetSpace | convex/study.ts:102-130 | After a theme update, the caller's space is linked and shows the new theme. |
| Study.SyncStats | convex/study.ts:83-90 | Upsert: the first stats row for the email is overwritten in place, or else one row is appended. |
| Study.SyncStatsKeepsUnique | convex/study.ts:86-88 | The upsert keeps at most one stats row per email. |
| Study.PresenceOf | convex/study.ts:122-127 | The partner's first stats row under the partner's email, or the Offline / 0 / "" fallback when there is none. |
| Study.SyncStatsThenPresence | convex/study.ts:83-127 | After a sync, the user's presence as a partner sees is exactly the synced status, minutes and song. |
| Study.GetSpace | convex/study.ts:112-130 | Solo exactly when no link involves the user. Otherwise it gives the located link's theme and the presence of whichever side is not the caller. |
| Study.GetSpacePartnerIsOther | convex/study.ts:121 | With no self-links, the reported partner is never the caller. |
| Study.RemoveAtKeepsLinkInvariants | convex/study.ts:96-98 | Deleting a link keeps pair uniqueness and the absence of self-links. |
| Study.ApplyKeepsConsistent | convex/study.ts:6-110 | Every mutation preserves the store invariants: unique emails, unique usernames, one stats row per email, one link per pair, no self-link. |
| Study.RunKeepsConsistent | convex/study.ts:6-110 | Any sequence of mutations from a consistent store keeps it consistent. |
| Study.RunFromEmptyConsistent | convex/study.ts:6-110 | Every store reached from the empty database by any sequence of mutations is consistent. |
| TimeFormat.Decimal | src/utils/time.ts:6 | `num.toString()` for a natural number: digits only, with no leading zero. It has one digit exactly below 10. |
| TimeFormat.ParseDecimalOfDecimal | src/utils/time.ts:6 | Reading back the decimal digits gives the number. |
| TimeFormat.Pad | src/utils/time.ts:6 | `padStart(2, '0')`: reads back as the number, and is two characters below 100, otherwise the plain digits. |
| TimeFormat.Breakdown | src/utils/time.ts:2-4 | Hours, minutes below 60 and seconds below 60 that add back to the total. Hours are non-zero exactly from 3600 seconds on. |
| TimeFormat.FormatTime | src/utils/time.ts:1-13 | Below an hour it is `MM:SS` (5 characters), and the two fields read back as the minutes and seconds of the breakdown. From an hour on it is `HH:MM:SS` with at least two hour digits, and the three fields read back as the hours, minutes and seconds of the breakdown. The hours field is two digits below ten hours and the plain digits from then on, with no extra leading zero. |
| TimeFormat.FormatTimeExampleMinutes | src/utils/time.ts:1-13 | 75 seconds show as "01:15". |
| TimeFormat.FormatTimeExampleHours | src/utils/time.ts:1-13 | 3725 seconds show as "01:02:05". |
| TimeFormat.FormatTimeExampleHundredHours | src/utils/time.ts:1-13 | 360000 seconds show as "100:00:00". |
| TimeFormat.FormatTimeRoundTrip | src/utils/time.ts:1-13 | Parsing the displayed clock gives back the number of seconds. |
| TimeFormat.FormatTimeInjective | src/utils/time.ts:1-13 | Different second counts always display differently. |
| Text.Trim | src/components/Timer.tsx:44 | `trim()` with JavaScript's whitespace set: the result is a slice of the text with only whitespace cut off before and after it, empty exactly when the text is all whitespace, and with no whitespace left at either end. |
| UserContext.CurrentUser | src/context/UserContext.tsx:30 | The first profile with the active id, else the first profile. It is undefined exactly when the list is empty. |
| UserContext.AddUser | src/context/UserContext.tsx:37-48 | Appends one profile with the fresh id, the name, the upper-cased first letter as avatar and one of the five colours, and makes it active. |
| UserContext.SwitchUser | src/context/UserContext.tsx:50 | Only the active id changes. |
| UserContext.DeleteUser | src/context/UserContext.tsx:52-57 | A no-op for one profile or fewer. Otherwise every profile with the id goes, and the result is a subsequence of the list: the others keep their multiplicity and relative order. Deleting the active profile activates the first remaining one, which is the first profile of the old list with another id. It fails exactly when the active id is deleted and nothing remains. |
| UserContext.DeleteAbsentId | src/context/UserContext.tsx:52-57 | Deleting an id nobody has keeps the list, and only re-points an active id that equals it. |
| UserContext.ActKeepsValid | src/context/UserContext.tsx:37-57 | Every dock action (add with a non-blank name and a fresh id, switch, delete) succeeds on a valid list and keeps it non-empty with distinct ids. |
| UserContext.DeleteKeepsValid | src/context/UserContext.tsx:52-57 | Deleting any id from a non-empty list with distinct ids succeeds, and the list stays non-empty with distinct ids. |
| UserContext.ReplayKeepsValid | src/context/UserContext.tsx:37-57 | The same holds for any sequence of such actions. |
| UserContext.NeverEmpty | src/context/UserContext.tsx:5-7 | From the default profile, no sequence of allowed actions empties the list, so a current user always exists. |
| MusicPlayer.CurrentTrack | src/components/MusicPlayer.tsx:125-127 | The first track with the selected url, else the first track, else the first default track. |
| MusicPlayer.SourceType | src/components/MusicPlayer.tsx:129 | YouTube exactly when the current track's url contains "youtu". |
| MusicPlayer.FilteredPlaylist | src/components/MusicPlayer.tsx:131-133 | Everything for 'all'. Otherwise exactly the tracks of that category, with their multiplicities and in playlist order (a subsequence of the playlist). |
| MusicPlayer.TrackIndex | src/components/MusicPlayer.tsx:161 | The first position whose url is the current track's url. |
| MusicPlayer.StepIndexInverse | src/components/MusicPlayer.tsx:162 | The wrap-around step forward and the step back undo each other. |
| MusicPlayer.ChangeTrack | src/components/MusicPlayer.tsx:160-165 | Selects the url of the neighbouring position, wrapping at both ends, and starts playing. It throws exactly on an empty playlist. |
| MusicPlayer.NextThenPrev | src/components/MusicPlayer.tsx:160-165 | With distinct urls, next then previous returns to the track that was current. |
| MusicPlayer.AddTrack | src/components/MusicPlayer.tsx:167-171 | Ignored when the name or url is empty. Otherwise exactly one track is appended. |
| MusicPlayer.AddTrackThenFilter | src/components/MusicPlayer.tsx:131-171 | An added track appears at the end of the 'all' view and of its own category's view. Every other view is unchanged, and nothing changes when the name or url is empty. |
| MusicPlayer.DeleteTrackAsWritten | src/components/MusicPlayer.tsx:173-178 | The handler as written: nothing happens for one track or fewer. Otherwise exactly the tracks with another url stay, with their multiplicities and order. When the deleted url was selected, the selection moves to the track after the current one and playback starts. Otherwise the selection and the playing flag are unchanged. |
| MusicPlayer.DeleteTrackAsWrittenEmpties | src/components/MusicPlayer.tsx:175-177 | Two tracks that share the deleted url pass the guard, the playlist ends up empty, and a later next then throws. |
| MusicPlayer.DeleteTrack | src/components/MusicPlayer.tsx:173-178 | The corrected handler never empties a non-empty playlist. It removes exactly the tracks with the url and keeps the others with their multiplicities and order. Deleting the selected url moves to the next track and plays. |
| MusicPlayer.DeleteTrackAgrees | src/components/MusicPlayer.tsx:173-178 | The correction behaves as written whenever some track keeps a different url. |
| MusicPlayer.SelectFirst | src/components/MusicPlayer.tsx:121-123 | Selects the first track's url only while nothing is selected and the playlist is non-empty. |
| MusicPlayer.SelectFirstKeepsCurrentTrack | src/components/MusicPlayer.tsx:121-127 | That selection does not change which track is current. |
| MusicPlayer.TogglePlay | src/components/MusicPlayer.tsx:158 | Flips playing and paused, and nothing else. |
| MusicPlayer.TogglePlayTwice | src/components/MusicPlayer.tsx:158 | Toggling twice restores the player. |
| MusicPlayer.SelectTrack | src/components/MusicPlayer.tsx:320 | Clicking a track selects its url and plays. |
| MusicPlayer.DispatchKeepsNonEmpty | src/components/MusicPlayer.tsx:121-178 | On a non-empty playlist no handler throws, and none empties the playlist (with `deleteTrack` corrected). |
| MusicPlayer.PlayKeepsNonEmpty | src/components/MusicPlayer.tsx:121-178 | The same holds along any sequence of adds, deletes, steps, clicks, first selections and toggles. |
| MusicPlayer.PlayerNeverThrows | src/components/MusicPlayer.tsx:105-178 | Starting from the default playlist, any run of events (with `deleteTrack` corrected) succeeds, and a next or previous afterwards does not throw. |
| MusicPlayer.SelectTrackMakesCurrent | src/components/MusicPlayer.tsx:320 | After the click the current track has the clicked url. With distinct urls it is the clicked track. |
| MusicPlayer.YouTubeId | src/components/MusicPlayer.tsx:180 | The capture of the leftmost match of `[?&]v=([^&]+)`: a non-empty run without '&' after "?v=" or "&v=", running to the next '&' or the end. It is null exactly when nothing matches. |
| Timer.Start | src/components/Timer.tsx:43-52 | A blank purpose only sets the error message. Otherwise it clears the error and the timer runs unpaused. |
| Timer.Tick | src/components/Timer.tsx:20-41 | A running timer with time left loses one second. An active timer at zero completes, paused or not, and emits one 'timer' session of the full duration under the purpose. In every other case nothing happens. |
| Timer.TogglePause | src/components/Timer.tsx:148 | Only the paused flag flips. |
| Timer.Reset | src/components/Timer.tsx:54-59 | Stops, unpauses, uncompletes and refills the countdown to the duration. |
| Timer.Preset | src/components/Timer.tsx:171-180 | While idle, a preset of m minutes sets both the duration and the time left to m*60, one of 900, 1500, 2700 or 3600. |
| Timer.EditPurpose | src/components/Timer.tsx:70-75 | The purpose can be typed only while the timer is not active. |
| Timer.StepKeepsValid | src/components/Timer.tsx:12-59 | Every event keeps the time left within a preset duration, and a completed timer inactive. |
| Timer.RunKeepsValid | src/components/Timer.tsx:12-59 | The same holds for any sequence of events from a valid state. |
| Timer.RunFromInitialValid | src/components/Timer.tsx:12-59 | The freshly mounted timer (25 minutes, idle, no purpose) is valid, and so is every state an enabled run of events reaches from it. |
| Timer.RunToCompletion | src/components/Timer.tsx:20-41 | A running countdown with k seconds left emits exactly one session after k+1 ticks, and nothing more afterwards. |
| Timer.IdleTicksAreSilent | src/components/Timer.tsx:20-28 | Ticks of an inactive timer change nothing and emit nothing. |
| Stopwatch.Tick | src/components/Stopwatch.tsx:15-21 | One second is added while active, and nothing changes otherwise. |
| Stopwatch.Toggle | src/components/Stopwatch.tsx:54 | Only the running flag flips. |
| Stopwatch.Stop | src/components/Stopwatch.tsx:23-35 | Always stops. With elapsed time it emits one 'stopwatch' session "Freestyle Flow" of that many seconds and clears the clock. Otherwise it emits nothing. |
| Stopwatch.TicksWhileActive | src/components/Stopwatch.tsx:15-21 | While running, n ticks add exactly n seconds. |
| Stopwatch.StartTickStop | src/components/Stopwatch.tsx:12-35 | Start, n ticks, stop: back at rest, with exactly one session of n seconds when n > 0 and none when n = 0. |
| Analytics.TotalDuration | src/pages/Analytics.tsx:19 | The sum of the durations: at least each single duration, and zero exactly when every duration is zero. |
| Analytics.TotalDurationAppend | src/pages/Analytics.tsx:19 | The total is additive over concatenation. |
| Analytics.Purposes | src/pages/Analytics.tsx:21-27 | The distinct titles of timer sessions: exactly the titles with a positive count. |
| Analytics.PurposesInListOrder | src/pages/Analytics.tsx:21-27 | Every listed title has a timer session, and the titles are listed in the order in which their first timer sessions stand in the session list. |
| Analytics.PurposeCounts | src/pages/Analytics.tsx:21-24 | Built session by session, it maps exactly the timer titles, each to the number of timer sessions with it. |
| Analytics.PurposeCountsSumToTimerSessions | src/pages/Analytics.tsx:21-24 | The counts add up to the number of timer sessions. |
| Analytics.TopIndex | src/pages/Analytics.tsx:27-29 | The head of the stable descending sort: a title of maximal count, the earliest such title. |
| Analytics.TimerTitlesArePurposes | src/pages/Analytics.tsx:21-24 | Every timer session's title is counted. |
| Analytics.TopIndexIsEarliestListed | src/pages/Analytics.tsx:27-29 | The first timer session of the title at the head of the sort stands earlier in the session list than that of every other title with the same count. The app keeps the list newest first (src/App.tsx:25), so this is the most recently used of the tied titles. |
| Analytics.MostCommonIsEarliestListed | src/pages/Analytics.tsx:21-32 | With some timer session, the title shown has the top count, is shown as itself, or as the placeholder exactly when it is empty, and its first timer session stands earlier in the session list than that of every other title with the top count. |
| Analytics.ComputeStats | src/pages/Analytics.tsx:18-32 | The total duration and session count. With no timer session: the placeholder and 0. Otherwise the top count is positive, no title is more frequent, and the shown title is one with that count, except that an empty title is always shown as the placeholder. |
| Analytics.PieSplit | src/pages/Analytics.tsx:48-52 | Timer and stopwatch sessions together account for every session. |
| Analytics.PieData | src/pages/Analytics.tsx:48-52 | The numbers of timer and of stopwatch sessions, summing to the session count. |
| Analytics.Render | src/pages/Analytics.tsx:54-67 | The empty state is shown exactly for an empty list. Otherwise the dashboard shows the figures. |

## Left out

- Rendering, animation, styling, audio and the YouTube embed's effects
  (`playNotificationSound`, the volume effect, the player refs): these only
  call browser APIs or third-party components.
- `localStorage` persistence (`useLocalStorage`, `useUserLocalStorage`, the
  profile effect) and the `visible` prop: these are I/O. The stored values
  are modelled as the state itself.
- The Convex runtime: `_id`, `_creationTime`, argument validation,
  transactions and subscriptions. Each mutation is modelled as one atomic
  function on the whole store. `v.number()` minutes are integers here.
- Study.AddFriend: as in the code, nothing stops a user from joining a
  second link. `getSpace` and the other calls then act on the first link
  found, and the model states exactly that rather than a one-space-per-user
  invariant.
- Study.RegisterUser: the client-side lower-casing of usernames in
  `Onboarding.tsx` is not part of this model, so usernames are compared
  exactly as given.
- Session logging, leveling and squad statistics: the backend file modelled
  here has no such functions.
- The seven-day chart of the analytics page: it depends on the clock and on
  `date-fns` date parsing.
- Analytics.PurposeCounts: a title that names a member inherited from
  `Object.prototype` (such as `constructor`, `toString`, `valueOf` or
  `hasOwnProperty`) starts from that inherited function rather than from 0,
  so JavaScript stores a string such as `"function Object() { [native code] }1"`
  and the sort compares NaN. The model counts such titles like any other.
- Analytics.Purposes: `Object.entries` lists integer-like keys first, in
  numeric order, and treats `"__proto__"` specially. The model uses
  insertion order for every title, so the tie-break for such titles is not
  modelled.
- TimeFormat.FormatTime: only natural numbers of seconds are modelled.
  Negative or fractional inputs are not.
- UserContext.AddUser: `toUpperCase` is modelled for ASCII letters only.
  Characters are code points, not UTF-16 code units, so `name[0]` of an
  astral character differs.
- Text.Trim: characters are code points, and JavaScript's whitespace set is
  written out in full.
- The `addTrack` form reset and the view-mode and category tabs: these are
  UI state with no effect on the playlist.
- `useSharedSpace` and the other hooks and components that only call the
  backend or render state: they add no logic beyond the calls modelled.

## Findings

| source | as written | input that shows it | evidently intended | confidence | as-written member | corrected member |
|---|---|---|---|---|---|---|
| src/components/MusicPlayer.tsx:175-177 | `deleteTrack` guards on `playlist.length <= 1`, then removes every track with the url | a playlist of two tracks with the same url, deleting that url: the playlist becomes empty, and a later next or previous then reads `.url` of `undefined` | the last playable track can never be deleted, so the playlist never becomes empty | not executed | MusicPlayer.DeleteTrackAsWritten, MusicPlayer.DeleteTrackAsWrittenEmpties | MusicPlayer.DeleteTrack |
