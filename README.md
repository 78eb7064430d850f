# CreativeStoryflow store and formatters, in Dafny

This project models the core of CreativeStoryflow, a collaborative storyboard
application. Users create challenges, add numbered comic panels to them, and
vote on panels.

- **The in-memory store** (`MemStorage`, server/storage.ts).
  - It has four insertion-ordered `Map` tables: users, challenges, panels and
    votes. It also has four id counters.
  - It keeps three kinds of derived state up to date:
    - each challenge's `panelCount` and `contributors`;
    - each panel's `votes`;
    - each panel's 1-based `position` within its challenge.
  - The model is the class `Storage.MemStorage`. Its fields are the tables and
    counters. Its create, update and vote operations are methods with
    `modifies this`. The two contributor helpers and the storyboard list are
    methods with loops.
  - Each method states its new state as a step function of the old state
    (`Snapshot() == PanelCreated(old(Snapshot()), panel)`). The invariants
    are proved about those step functions, as lemmas on values.
- **The tables** (module `JsMap`).
  - A JavaScript `Map` is modelled as an ordered map: a key order plus an
    entry map.
  - `set` on a new key appends it. `set` on a present key keeps its slot.
- **The read side** (module `Queries`): filters, the stable sort by position,
  contributor counting and listing, vote lookup, and the challenge and
  storyboard projections, as functions of the tables' values.
- **The two client time formatters** (module `DateUtils`,
  client/src/utils/date-utils.ts). The current time is a parameter.
- **The three label and style helpers of the community cards** (module
  `ChallengeLabels`, client/src/components/CommunityChallenges.tsx).

## What is proved

- **The store invariant is kept by every operation** (`Tables.Valid`).
  - Every user, panel and vote key equals its record's id, and each id is
    below its counter. Challenge ids are covered by `CountsAccurate`.
  - Every panel names a stored challenge and a stored user.
  - Positions are exactly as createPanel assigns them. So each challenge's
    panels have positions 1..N in creation order.
  - No (panel, user) pair is voted twice.
- **The derived challenge counts stay accurate** (`CountsAccurate`).
  `panelCount` is the number of stored panels of the challenge, and
  `contributors` is the number of their distinct authors.
  - This holds after every create and every vote.
  - It holds after an update if the update leaves `id`, `panelCount` and
    `contributors` alone. An update that rewrites them with their stored
    values keeps it too.
- **Vote tallies stay exact** (`TalliesExact`): each panel's `votes` is the
  number of votes naming it.
  - This holds as long as every vote names a stored panel. The source stores
    a vote for a missing panel all the same.
- **The contributor helpers agree with each other.**
  - getUniqueContributors lists each author's username once, in order of
    first appearance.
  - Its length equals countUniqueContributors when every author exists.
- **The formatters can be read back.**
  - formatTimeAgo's phrase determines the unit and count it was built from.
  - formatTimeRemaining's label shows whole hours, then minutes and seconds
    below 60.
  - "just now" is shown exactly for differences below 29.5 seconds.

### Where the code and its description differ (the model follows the code)

- **updateChallenge can break the derived counts.** The challenge counts are
  described as written only by panel creation. But updateChallenge accepts
  any `Partial<Challenge>`, including `id`, `panelCount` and `contributors`,
  and stores it as given. createPanel then writes the challenge back under
  the record's own `id`. So the derived-count invariant is conditional
  (`KeepsDerivedFields`).
- **A vote for a panel id that does not exist is stored.** votePanel does not
  check that the panel exists. Only the tally update is skipped.
- **At most one active daily challenge is not enforced.** getDailyChallenge
  simply returns the first match.
- **createChallenge writes a lower-case status.** It stores "active"
  (server/storage.ts:127), while the card helpers compare against "Active"
  and "Completed". A challenge created through the store therefore falls
  through to the default label and style. A challenge becomes "completed"
  only through updateChallenge or through the demo seeding, which writes
  "completed" (server/storage.ts:445-469) and falls through the same way
  (`StoreSpellingsFallThrough`). The seeding also writes "Coming Soon" and
  "Completed" (server/storage.ts:409, 420), which the helpers do match; the
  seeding is not modelled.
- **An unflagged challenge is previewed but never found.** A challenge
  created without `isDaily` counts as "not daily" for the previews, but
  getCommunityChallenge tests `isDaily === false` and never returns it.
- **29 rounded days read "0 month ago".** formatTimeAgo switches to months
  above 28 rounded days but floors `days / 30`
  (`TwentyNineDaysIsZeroMonths`).

## Model

| member | source | states |
|---|---|---|
| Storage.MemStorage.constructor | server/storage.ts:38-58 | a new store is valid with accurate counts and tallies, four empty tables and every counter at 1 |
| Storage.MemStorage.GetUser | server/storage.ts:65-67 | a user is found exactly for a stored key and is the record stored under it; in a valid store it carries that id, which is below the user counter |
| Queries.UserByUsername | server/storage.ts:69-73 | none is found exactly when no user has the name; otherwise the first user in table order with that name |
| Storage.MemStorage.GetUserByUsername | server/storage.ts:69-73 | none exactly when no stored user has the name; otherwise the stored user with that name that comes first in insertion order |
| Storage.MemStorage.CreateUser | server/storage.ts:75-86 | the user takes the next id; an absent or empty avatar colour is replaced by the random one; it is appended to the users; the counter moves on; the invariant, counts and tallies are kept |
| Storage.UserAdded | server/storage.ts:75-86 | the user write keeps the invariant, the counts and the tallies, and the user goes last |
| Storage.AddUser | server/storage.ts:76-84 | the user is stored under its id, every other key reads as before, the user counter moves on by one and the other tables and counters are untouched |
| Schema.Message | server/storage.ts:167-175 | each error kind has its own thrown text (the vote error at line 209): "Challenge not found", "User not found", "User has already voted for this panel", each exactly for its kind |
| Schema.OrElse | server/storage.ts:81 | `s \|\| fallback`: a present non-empty string is kept, an absent or empty one gives the fallback |
| Storage.MemStorage.GetChallenge | server/storage.ts:89-91 | a challenge is found exactly for a stored key and is the record stored under it; with accurate counts it carries that id and counts its stored panels |
| Queries.DailyChallenge | server/storage.ts:93-97 | none exactly when no challenge is daily and "active"; otherwise the first such challenge in table order |
| Storage.MemStorage.GetDailyChallenge | server/storage.ts:93-97 | none exactly when no stored challenge is daily and "active"; otherwise the first such challenge in insertion order |
| Queries.CommunityChallengeById | server/storage.ts:99-103 | none exactly when no challenge has the id with isDaily exactly false; otherwise the first such challenge in table order |
| Storage.MemStorage.GetCommunityChallenge | server/storage.ts:99-103 | none exactly when no stored challenge has the id with isDaily exactly false; otherwise such a challenge, first in insertion order, and with accurate counts the same record getChallenge returns |
| Queries.UnflaggedChallengeIsPreviewedButNotFound | server/storage.ts:99-110 | a challenge without an isDaily flag passes the previews' `!isDaily` filter but is never returned by getCommunityChallenge |
| Queries.CommunityPreviews | server/storage.ts:105-118 | the projections of the first four non-daily challenges in table order, or of all of them when there are fewer |
| Storage.MemStorage.GetCommunityChallengePreviews | server/storage.ts:105-118 | the projections of the first four stored non-daily challenges in insertion order, or of all of them when there are fewer |
| Queries.Preview | server/storage.ts:109-117 | the card carries the challenge's id, title, description, status, contributors and daysLeft, and its cover is the challenge's own when present and non-empty, else "" |
| Storage.MemStorage.CreateChallenge | server/storage.ts:120-139 | the challenge takes the next id with status "active", zero counts, a 24-hour budget, no end date, 3 days left and creator 1; the invariant is kept; with accurate counts it goes last and the counts stay accurate |
| Storage.ChallengeAdded | server/storage.ts:120-139 | the challenge write keeps the invariant and tallies; a fresh id has no panels, so zero counts are accurate and the challenge is appended |
| Storage.NoPanelsForFreshChallenge | server/storage.ts:120-139 | in a valid store a challenge key that is not stored has no panels and no contributors |
| Storage.AddChallenge | server/storage.ts:121-137 | the challenge is stored under its id, every other key reads as before, the challenge counter moves on by one and nothing else changes |
| Storage.MemStorage.UpdateChallenge | server/storage.ts:141-148 | a missing id gives none and changes nothing; otherwise the supplied fields overwrite the stored ones in the same slot; the invariant and tallies are kept, and the counts too when id, panelCount and contributors are not supplied |
| Storage.ChallengeStored | server/storage.ts:141-148 | writing a challenge keeps the invariant and the tallies, keeps the slot of a stored key, and keeps the counts accurate when id and counts are unchanged |
| Storage.StoreChallenge | server/storage.ts:146 | the challenge is stored under the key (as updateChallenge does here and createPanel at lines 195-199), every other key reads as before, and no other table or counter changes |
| Schema.PatchAlgebra | server/storage.ts:145 | applying two updates in turn is applying their merge; repeating an update changes nothing more; the empty update changes nothing |
| Schema.ApplyPatch | server/storage.ts:145 | the patched record holds every supplied value; it equals the stored one exactly when each supplied value is already stored; id, panelCount and contributors survive a patch that does not supply them |
| Queries.PanelsByChallengeSpec | server/storage.ts:151-155 | the result is sorted by position and a permutation of the challenge's panels; in a valid store it is the panels in creation order |
| Queries.PanelsByChallenge | server/storage.ts:151-155 | the result is sorted by position and a permutation of the challenge's panels |
| Storage.MemStorage.GetPanelsByChallenge | server/storage.ts:151-155 | the result is sorted by position and a permutation of the challenge's stored panels; in a valid store it is those panels in creation order, with positions 1..N |
| Queries.SortByPosition | server/storage.ts:151-155 | the result is sorted by position and a permutation of the input |
| Queries.InsertByPosition | server/storage.ts:151-155 | inserting into a sorted list keeps it sorted and adds exactly the new element |
| Queries.SortOfSortedIsIdentity | server/storage.ts:151-155 | the stable sort leaves an already sorted list unchanged |
| Queries.PanelsForMembers | server/storage.ts:153 | the filter keeps exactly the panels of the challenge |
| Queries.PanelsFor | server/storage.ts:153 | the filter by challenge (also at lines 179, 287 and 298) is no longer than the panels and keeps only panels of the challenge |
| Storage.MemStorage.GetPanel | server/storage.ts:157-159 | a panel is found exactly for a stored key and is the record stored under it; in a valid store it carries that id and names a stored challenge and user |
| Storage.MemStorage.CreatePanel | server/storage.ts:161-202 | a missing challenge, then a missing user, fails with its error after a panel id is used up; otherwise the panel gets the next id, no votes, the next position of its challenge and its author's username; it is appended, and the challenge gets panelCount + 1 and a recount of its contributors; the invariant, the counts and the tallies are kept |
| Storage.MemStorage.StorePanel | server/storage.ts:192-199 | after the id is taken and the checks pass, the panel write and the challenge recount give exactly the state PanelCreated describes |
| Storage.MemStorage.RecountChallenge | server/storage.ts:194-199 | the challenge is written back under its own id with panelCount + 1 and its contributors recounted over the panels as they stand; nothing else changes |
| Storage.WithPanelCounted | server/storage.ts:195-199 | the written-back challenge has one more panel, contributors equal to the distinct authors of its panels, and every other field as before |
| Storage.PanelCreated | server/storage.ts:192-199 | the panel is stored under its id, the panel's challenge is written back under the record's own id with one more panel and a recount over the panels including the new one, the panel counter moves on, and the users, votes and other counters are untouched |
| Storage.PanelIdTaken | server/storage.ts:162 | a panel id used up by a failed call breaks no invariant |
| Storage.TakePanelId | server/storage.ts:162 | the panel counter moves on by one and nothing else changes |
| Storage.PanelAdded | server/storage.ts:178-192 | the panel write keeps the invariant (positions included) and appends the panel |
| Storage.AddPanel | server/storage.ts:192 | the panel is stored under its id, every other key reads as before, and only the panel table and counter change |
| Storage.PanelAddedTallied | server/storage.ts:182-192 | a fresh panel with no votes keeps the tallies exact |
| Storage.PanelCreatedAccurate | server/storage.ts:192-199 | the panel write followed by the challenge recount keeps every challenge's counts accurate |
| Storage.PanelCreatedKeeps | server/storage.ts:161-202 | a created panel keeps the invariant and goes last; accurate counts stay accurate with the challenge in its slot, and exact tallies stay exact |
| Queries.PositionsSequentialAppend | server/storage.ts:178-187 | a panel whose position is one more than its challenge's stored panels keeps positions sequential |
| Queries.PositionsRunOneToN | server/storage.ts:178-187 | the positions of each challenge's panels in creation order are exactly 1..N |
| Queries.PanelsForAppend | server/storage.ts:178-192 | a new panel extends the filter of its own challenge and no other |
| Storage.MemStorage.VotePanel | server/storage.ts:205-234 | the call fails exactly when the (panel, user) pair has already voted, and a failure changes nothing; otherwise the vote takes the next id, is appended and records the pair, and a stored panel gets one more vote; the panel order, the invariant and the counts are kept, and the tallies too when the panel exists |
| Storage.VoteAdded | server/storage.ts:212-222 | the vote write keeps the invariant and the counts, appends the vote, records its pair and raises the vote count of exactly its panel by one |
| Storage.AddVote | server/storage.ts:212-222 | the vote is stored under its id, every other key reads as before, and only the vote table and counter change |
| Queries.VoteAppend | server/storage.ts:212-222 | a vote for an unrecorded pair keeps pairs unique, records the pair and adds one to the count of its panel only |
| Storage.VoteCountedOnly | server/storage.ts:225-231 | the panel write keeps the panel order and changes only that panel's votes |
| Storage.CountVote | server/storage.ts:225-231 | the stored panel reads back with one more vote, every other key reads as before, and only the panel table changes |
| Storage.OneMoreVote | server/storage.ts:227-230 | the panel has one more vote and every other field as before |
| Storage.VoteCounted | server/storage.ts:225-231 | a change of vote counts alone keeps the invariant |
| Storage.VoteCountedAccurate | server/storage.ts:225-231 | a change of vote counts alone keeps every challenge's counts accurate |
| Storage.VoteTallied | server/storage.ts:222-231 | the vote and one more vote on its panel keep the tallies exact |
| Storage.VoteStoredKeeps | server/storage.ts:205-234 | an accepted vote keeps the invariant and the counts, goes last, records its pair and keeps the panel order; exact tallies stay exact when the panel is stored |
| Storage.VoteStored | server/storage.ts:212-231 | the vote is stored under its id and the vote counter moves on; a stored panel reads back with one more vote, and the panels are untouched when the panel is missing; nothing else changes |
| Queries.VotesOnlyChangedFilter | server/storage.ts:225-231 | panel lists that differ only in votes have filters that differ only in votes |
| Queries.VotesOnlyChangedPositions | server/storage.ts:225-231 | a change of vote counts alone keeps positions sequential |
| Queries.VotesOnlyChangedAuthors | server/storage.ts:225-231 | a change of vote counts alone keeps the author ids and the contributor names |
| Storage.MemStorage.HasUserVoted | server/storage.ts:236-240 | the scan finds the pair exactly when some stored vote has that panel and user |
| Queries.HasVoted | server/storage.ts:237-239 | `some` holds exactly when the `find` scan for the (panel, user) pair stops somewhere |
| Queries.VotesUniqueAt | server/storage.ts:207-210 | because each vote was added only for an unrecorded pair, no two stored votes share a (panel, user) pair |
| Storage.MemStorage.GetCompletedStoryboards | server/storage.ts:243-262 | the result is the storyboard of each of the first three challenges whose status is "completed", in table order |
| Queries.CompletedStoryboards | server/storage.ts:243-262 | one storyboard for each challenge CompletedChallenges picks, in the same order, each the projection of that challenge and its stored panels |
| Queries.CompletedChallenges | server/storage.ts:244-246 | the first three challenges in table order whose status is exactly "completed", or all of them when there are fewer |
| Queries.Storyboards | server/storage.ts:248-261 | one storyboard per challenge |
| Queries.StoryboardsAt | server/storage.ts:248-261 | the i-th storyboard is the projection of the i-th challenge |
| Queries.StoryboardsGrow | server/storage.ts:248-261 | one more challenge adds its storyboard at the end |
| Queries.StoryboardOf | server/storage.ts:249-260 | the storyboard keeps the challenge's id, title and category, counts the challenge's stored panels, dates itself by the end date or else the creation date, and lists the usernames of the distinct authors in order of first appearance, as many as countUniqueContributors counts when every author exists |
| Storage.MemStorage.StoryboardFor | server/storage.ts:249-260 | the projection is built from the sorted panels and the contributor list of the looked-up id |
| Queries.StoryboardCountsStoredPanels | server/storage.ts:249-260 | in a valid store the storyboard counts the stored panels, not the challenge's panelCount; its cover is the image of the position-1 panel, or empty; its date is the end date, else the creation date |
| Storage.MemStorage.GetCompletedStoryboard | server/storage.ts:264-280 | none exactly for a missing id; otherwise the storyboard of that challenge, whatever its status |
| Storage.MemStorage.CountUniqueContributors | server/storage.ts:283-291 | the count is the number of distinct authors of the challenge's panels |
| Queries.AuthorIdsMembers | server/storage.ts:283-291 | an id is among the author ids exactly when some panel carries it |
| Queries.AuthorIdsWithin | server/storage.ts:283-291 | the author ids lie within any set that holds every panel's author |
| Queries.AuthorIdsAppend | server/storage.ts:283-291 | one more panel adds its author to the author ids |
| Queries.ContributorCount | server/storage.ts:283-291 | the count is at most the number of the challenge's panels, and zero exactly when it has none |
| Queries.AuthorIdsSize | server/storage.ts:284-290 | a set of author ids is no larger than the panels it came from, and empty exactly for no panels |
| Storage.MemStorage.GetUniqueContributors | server/storage.ts:293-310 | the list is the contributor walk over the challenge's panels in storage order |
| Storage.ContributorNamesStep | server/storage.ts:299-307 | one step of the walk: a seen author adds nothing; an unseen one is marked seen and adds its username if the user exists |
| Queries.ContributorNamesInFirstAppearanceOrder | server/storage.ts:293-310 | the list is the usernames of the distinct authors in order of first appearance, skipping authors with no user |
| Queries.ContributorNames | server/storage.ts:297-307 | the walk lists at most one name per panel, and nothing when every author is already seen |
| Queries.FirstAppearancesOrdered | server/storage.ts:297-307 | for i < j, every panel by the j-th listed author comes after some panel by the i-th |
| Queries.FirstAppearances | server/storage.ts:293-310 | the first appearances hold exactly the author ids |
| Queries.FirstAppearancesDistinct | server/storage.ts:293-310 | no author appears twice among the first appearances |
| Queries.ContributorNamesAppend | server/storage.ts:293-310 | walking a + b is walking a, then b with a's authors already seen |
| Queries.UsernamesOfAppend | server/storage.ts:293-310 | the usernames of a + b are those of a followed by those of b |
| Queries.ContributorNamesCount | server/storage.ts:293-310 | the list has one name per unseen author that has a user |
| Queries.ContributorNamesMatchCount | server/storage.ts:283-310 | when every author exists, getUniqueContributors lists as many names as countUniqueContributors counts |
| JsMap.OrderedMap.Set | server/storage.ts:84 | `map.set` keeps the map valid, stores the value, keeps the order for a present key and appends a new one |
| JsMap.SetNewKeyAppends | server/storage.ts:84 | setting a new key appends its value to `values()` |
| JsMap.SetExistingKeyInPlace | server/storage.ts:227-230 | setting a present key replaces its value in place in `values()` |
| JsMap.KeysDistinct | server/storage.ts:39-42 | a valid map's key order repeats no key |
| JsMap.OrderedMap.Values | server/storage.ts:70 | `Array.from(map.values())` lists the entries in key order |
| JsMap.AllValuesIffAllEntries | server/storage.ts:70 | a property holds of every element of `Array.from(map.values())` exactly when it holds of every entry |
| JsArray.FindIndex | server/storage.ts:93-97 | `find` stops at the first element that satisfies the predicate, and finds none only when no element does |
| JsArray.Find | server/storage.ts:70-72 | `find` (also at lines 94-96 and 100-102) returns nothing exactly when no element satisfies the predicate, and otherwise the first element that does |
| JsArray.Filter | server/storage.ts:107 | `filter` keeps the elements that satisfy the predicate, and only those |
| JsArray.MatchIndices | server/storage.ts:107 | the positions of the matching elements, strictly ascending, each one a match and every match among them |
| JsArray.FilterPicksMatches | server/storage.ts:107 | `filter` keeps order and multiplicity: its i-th element is the element at the i-th matching position |
| JsArray.Take | server/storage.ts:108 | `slice(0, n)` is the first n elements, or all of them when there are fewer |
| DateUtils.FormatTimeRemaining | client/src/utils/date-utils.ts:5-18 | "Time's up!" is returned exactly for a non-positive count |
| DateUtils.TimeRemainingShowsClock | client/src/utils/date-utils.ts:10-17 | a positive count reads back as whole hours (no wrap at 24), minutes within the hour and seconds within the minute, each below 60 |
| DateUtils.ParseClockReadsBack | client/src/utils/date-utils.ts:17 | any label of one or more hour digits, two minute digits and two second digits in the `H:MM:SS left` layout reads back as those three numbers |
| DateUtils.SubSecondIsZeroClock | client/src/utils/date-utils.ts:6-17 | a positive count below one second still reads "0:00:00 left" |
| DateUtils.DefaultBudgetLabel | client/src/utils/date-utils.ts:10-17 | the store's 24-hour budget reads "24:00:00 left" |
| Decimal.PadStart2Digits | client/src/utils/date-utils.ts:17 | `padStart(2, '0')` of a number below 100 gives two digits that read back as the number |
| Decimal.NatToString | client/src/utils/date-utils.ts:17 | a non-negative number's decimal form has no leading zero and reads back as the number |
| Decimal.PadStart2 | client/src/utils/date-utils.ts:17 | a string of two or more characters is kept; a shorter one is left-padded with zeros to exactly two characters ending in it |
| DateUtils.RoundDiv | client/src/utils/date-utils.ts:29-32 | `Math.round(a / b)` is the integer r with 2br - b <= 2a < 2br + b |
| DateUtils.RoundDivMonotone | client/src/utils/date-utils.ts:29-32 | rounding division is monotone in the dividend |
| DateUtils.RoundedMinutes | client/src/utils/date-utils.ts:29-30 | seconds rounded, then minutes rounded, stay within half a minute plus half a second of the exact difference |
| DateUtils.RoundedHours | client/src/utils/date-utils.ts:29-31 | hours rounded from the rounded minutes stay within about half an hour of the exact difference, the drift of the chained rounding bounded on both sides |
| DateUtils.RoundedDays | client/src/utils/date-utils.ts:29-32 | days rounded from the rounded hours stay within about half a day of the exact difference, the drift of the chained rounding bounded on both sides |
| DateUtils.ElapsedSince | client/src/utils/date-utils.ts:28-44 | a minute, hour or day count is at least one |
| DateUtils.PhraseRoundTrip | client/src/utils/date-utils.ts:34-44 | the phrase determines the unit and the count it was built from |
| DateUtils.ParseCountPhrase | client/src/utils/date-utils.ts:35-41 | "<digits> <unit word> ago" reads back as the count and unit |
| DateUtils.Phrase | client/src/utils/date-utils.ts:35-43 | "just now" exactly when no unit elapsed; otherwise the text starts with the count's digits and ends in " ago" |
| DateUtils.PluralIffMoreThanOne | client/src/utils/date-utils.ts:35-41 | the unit word takes its plural "s" exactly when the count exceeds one |
| DateUtils.JustNowIffUnderHalfMinute | client/src/utils/date-utils.ts:24-45 | "just now" is returned exactly for a difference below 29.5 seconds, every future date included |
| DateUtils.FormatTimeAgo | client/src/utils/date-utils.ts:24-45 | the phrase reads back as exactly the elapsed unit and rounded count that were measured |
| DateUtils.MinutesPositiveIff | client/src/utils/date-utils.ts:29-30 | the rounded minutes are positive exactly from 29.5 seconds on |
| DateUtils.UnitMonotone | client/src/utils/date-utils.ts:28-44 | a later past date never reports a larger unit than an earlier one |
| DateUtils.HalfDayIsOneDay | client/src/utils/date-utils.ts:29-37 | twelve hours, rounded from rounded hours, read "1 day ago" |
| DateUtils.TwentyNineDaysIsZeroMonths | client/src/utils/date-utils.ts:34-35 | 29 rounded days pass the month threshold but read "0 month ago" |
| ChallengeLabels.JsRemainder | client/src/components/CommunityChallenges.tsx:91 | JavaScript's `%` is smaller than the divisor in magnitude, equals the mathematical remainder for a non-negative dividend, and for a negative dividend is zero or negative and differs from the dividend by a multiple of the divisor |
| ChallengeLabels.MultipleHasNoRemainder | client/src/components/CommunityChallenges.tsx:91 | a multiple of the divisor leaves remainder zero, which JsRemainder's congruence rests on |
| ChallengeLabels.ChallengeColors | client/src/components/CommunityChallenges.tsx:83-92 | a gradient is returned exactly for a non-negative id or a multiple of 4, it is one of the four options, and for a non-negative id it is the option at id mod 4 |
| ChallengeLabels.ChallengeColorsByResidue | client/src/components/CommunityChallenges.tsx:83-92 | two non-negative ids get the same gradient exactly when they agree mod 4 |
| ChallengeLabels.GradientsDistinct | client/src/components/CommunityChallenges.tsx:84-89 | the four gradient options are pairwise different |
| ChallengeLabels.TimeLabel | client/src/components/CommunityChallenges.tsx:94-98 | "Tomorrow" is returned exactly for "Coming Soon", whatever daysLeft is |
| ChallengeLabels.TimeLabelCases | client/src/components/CommunityChallenges.tsx:94-98 | any status but "Coming Soon" shows daysLeft, read back exactly, in the "ago" form exactly for "Completed" |
| Decimal.IntToStringRoundTrip | client/src/components/CommunityChallenges.tsx:95-97 | an integer's decimal form, sign included, reads back as the integer |
| Decimal.IntToString | client/src/components/CommunityChallenges.tsx:95-97 | a non-negative number is written as its digits; a negative one as "-" followed by the digits of its magnitude |
| ChallengeLabels.StatusStyles | client/src/components/CommunityChallenges.tsx:100-111 | the active style exactly for "Active", the completed style exactly for "Completed", and the muted style for every other status |
| ChallengeLabels.StoreSpellingsFallThrough | client/src/components/CommunityChallenges.tsx:94-111 | the store's lower-case "completed" and "active" both take the default label and the default style |

## Left out

- Storage.MemStorage.constructor: the source's constructor also seeds demo data (`initializeSampleData`). The model starts from an empty store, and the seeding is not modelled.
- getRandomColor: it picks a colour at random. createUser takes the chosen colour as a parameter.
- The clock: every `new Date()` becomes a `now` parameter, and timestamps are millisecond counts.
- Promises: every `async` operation runs to completion before the next starts, so `await` points are not modelled. The store is single-writer; concurrency is out of scope.
- Exceptions: a thrown `Error` is a `Failure` carrying the error kind. Schema.Message gives its text.
- Storage.MemStorage.UpdateChallenge: an explicit `undefined` in a patch overwrites the field with `undefined`; the model treats a supplied field as present and an absent one as `None`, so it does not model that case.
- formatTimeAgo: the `Date | string` argument is taken as a millisecond count; parsing a date string is not modelled.
- DateUtils.FormatTimeRemaining: the count is an integer number of milliseconds; fractional and non-finite numbers are not modelled.
- ChallengeLabels.ChallengeColors: a negative index reads `undefined` (`None`); `NaN` and fractional ids are not modelled.
- Numbers are unbounded integers; JavaScript's 2^53 limit on exact integers is not modelled.
- The rest of the repository (routes, image generation, React components other than the three helpers) is not part of this model.
