# Scrum master rota: a Dafny model of the weekly rotation

The app gives one member of an ordered roster the scrum-master duty each week. It uses
round-robin order, counted in whole Monday-to-Sunday weeks from an anchor ("week zero")
Monday. The anchor is the first Monday of the year in which the rotation is first shown.
It is stored once and reused from then on. This model covers that scheduler and the two
roster edits: adding a member (blank names refused, next id = largest id + 1) and removing
a member by id.

Dates are whole day numbers. Day 0 is 1970-01-01, a Thursday. `Calendar.Weekday` is
`getDay` (Sunday = 0 … Saturday = 6). `Calendar.JanuaryFirst` is `new Date(year, 0, 1)`
for years from 100 on, using proleptic Gregorian leap years (the `Date` constructor reads
years 0–99 as 1900–1999; see Left out).

Files:
- `wrappers.dfy`: `Option`. It stands for an absent stored key, and for `null`/`undefined` as the current scrum master.
- `calendar.dfy`: weekdays, week alignment (`(getDay() + 6) % 7`), the week label's Monday and Sunday, and years.
- `roster.dfy`: `Member`, `String.prototype.trim`, id assignment, and `addTeamMember`/`removeTeamMember` as functions over `seq<Member>`.
- `rotation.dfy`: the anchor computation, weeks since the anchor, and member selection. Selection appears twice: as written with JavaScript `%`, and corrected (see Findings).
- `store.dfy`: the class `RotaStore`, which holds the component state and the two persisted keys.
  - `members` is both the `teamMembers` state and the "Members" key. The effect at src/App.jsx:61-63 writes that key after every change.
  - `anchor` is the "RotationStartDate" key.
  - `current` is `currentScrumMaster`.
  - The React effects are explicit calls. The rotation effect (`Refresh`) runs on mount and after every roster change. A blank add changes no state, so it re-runs nothing.

The host clock is a pair of parameters: `today` (the local day number of `new Date()`) and
`year` (its `getFullYear()`).

Two edge cases of the code:
- The code uses JavaScript `%`, which is negative for a negative week count. `Rotation.SelectAsWritten` and the store model it, and the Findings table records the consequence.
- An unparseable stored roster makes `JSON.parse` throw; an unparseable anchor gives an invalid `Date`. Parsing is not modelled (see Left out).

## Model

| member | source | states |
|---|---|---|
| `Calendar.Weekday` | src/App.jsx:24 | a weekday is one of 0..6 |
| `Calendar.DaysSinceMonday` | src/App.jsx:46 | `(getDay() + 6) % 7` is in 0..6, and stepping back that many days reaches a Monday (0 on Monday, 6 on Sunday) |
| `Calendar.MondayOf` | src/App.jsx:45-48 | the aligned day is a Monday, on or before today and at most 6 days earlier |
| `Calendar.MondayOfWeek` | src/App.jsx:45-48 | every day from a Monday to the following Sunday aligns to that Monday |
| `Calendar.SameWeek` | src/App.jsx:89-91 | two days align to the same Monday exactly when the second lies in the first one's Monday-to-Sunday week |
| `Calendar.MondayOfNextWeek` | src/App.jsx:46-47 | a week later, the aligned Monday is 7 days later |
| `Calendar.WeekRange` | src/App.jsx:85-95 | the label's first day is a Monday, its last day is a Sunday exactly 6 days later, and today lies between them |
| `Calendar.JanuaryFirst` | src/App.jsx:21 | the day number of January 1st; characterised by `YearLength` and `JanuaryFirstKnownYears` below |
| `Calendar.YearLength` | src/App.jsx:21 | January 1st of the next year is 366 days later in a leap year and 365 days later otherwise |
| `Calendar.JanuaryFirstKnownYears` | src/App.jsx:21 | January 1st is day 0 in 1970 (a Thursday), a Monday in 2024 and a Thursday in 2026 |
| `Roster.IsWhitespace` | src/App.jsx:66-70 | the characters `trim` strips: ECMAScript WhiteSpace (tab, vertical tab, form feed, space, no-break space, byte order mark, the Zs spaces) and LineTerminator (LF, CR, U+2028, U+2029) |
| `Roster.IsBlank` | src/App.jsx:66 | `!name.trim()` holds exactly when every character of the name is whitespace |
| `Roster.TrimStart` | src/App.jsx:70 | only leading whitespace is removed, and the rest starts with a non-whitespace character |
| `Roster.TrimEnd` | src/App.jsx:70 | only trailing whitespace is removed, and the rest ends with a non-whitespace character |
| `Roster.Trim` | src/App.jsx:66 | the trimmed name is empty exactly when the name is all whitespace; otherwise it starts and ends with non-whitespace |
| `Roster.TrimIsSlice` | src/App.jsx:70 | trimming keeps a contiguous slice of the name and drops only whitespace around it |
| `Roster.TrimIdempotent` | src/App.jsx:66-70 | trimming a trimmed name changes nothing |
| `Roster.MaxId` | src/App.jsx:69 | `Math.max(...ids)` is at least every id and is the id of some member |
| `Roster.NextId` | src/App.jsx:69 | the new id exceeds every existing id; it is 1 for an empty roster and otherwise one more than some member's id |
| `Roster.AddMember` | src/App.jsx:65-73 | a blank name leaves the roster unchanged. Otherwise exactly one member is appended, with the trimmed non-empty name and an id above every existing one (1 on an empty roster). Earlier members keep their order. Unique ids stay unique |
| `Roster.AddMemberId` | src/App.jsx:69 | on a non-empty roster the new id is the largest id + 1 |
| `Roster.RemoveMember` | src/App.jsx:77-79 | nobody left carries the removed id, and the roster never grows |
| `Roster.RemoveMemberContents` | src/App.jsx:78 | the members left are exactly the roster's members whose id differs from the removed one |
| `Roster.RemoveMemberConcat` | src/App.jsx:78 | removal distributes over concatenation, so the survivors keep their relative order |
| `Roster.RemoveAbsent` | src/App.jsx:78 | removing an id nobody has leaves the roster unchanged |
| `Roster.RemoveAt` | src/App.jsx:77-78 | with unique ids, removing member k's id gives the roster without position k, with the rest in order |
| `Roster.RemoveKeepsUniqueIds` | src/App.jsx:78 | removal preserves id uniqueness |
| `Roster.TrimLetter` | src/App.jsx:66-70 | a one-letter name is not blank and trims to itself |
| `Roster.IdAssignmentExample` | src/App.jsx:69 | adding "A", "B", "C" to an empty roster gives ids 1, 2, 3 in order |
| `Roster.IdAfterRemoveExample` | src/App.jsx:69-78 | after removing id 2 from ids 1, 2, 3, adding "D" gives it id 4, not 3 |
| `Rotation.DaysToFirstMonday` | src/App.jsx:24-25 | `daysToAdd` is in 0..6, and January 1st's weekday plus `daysToAdd` is a Monday (mod 7) |
| `Rotation.FirstMondayFrom` | src/App.jsx:23-26 | the computed anchor is a Monday, 0..6 days after January 1st, with no Monday in between |
| `Rotation.FirstMondayOfYear` | src/App.jsx:20-26 | the anchor made on first use in `year` is a Monday within the first seven days of that year (the first Monday, by `FirstMondayFrom`) |
| `Rotation.FirstMondayIsMondayOfSeventh` | src/App.jsx:23-26 | the anchor equals the Monday of the week holding January 7th, a second and independent definition |
| `Rotation.FirstMondayExamples` | src/App.jsx:20-26 | 2024 (January 1st a Monday) is anchored on January 1st; 2026 (January 1st a Thursday) on January 5th |
| `Rotation.WeeksSinceAnchor` | src/App.jsx:50-53 | `weeksDiff` is the floor of the days from the anchor to the current Monday over 7: the current Monday lies in `[anchor + 7w, anchor + 7w + 7)`; exact between Mondays by `WeeksSinceAnchorExact` |
| `Rotation.WeeksSinceAnchorExact` | src/App.jsx:50-53 | from a Monday anchor, `Math.floor(daysDiff / 7)` is exact: the current Monday is the anchor plus 7 × weeksDiff days |
| `Rotation.RotationIndex` | src/App.jsx:56 | corrected (see Findings): the index lies in [0, n) and is weeksDiff minus a whole multiple of n |
| `Rotation.Select` | src/App.jsx:34-57 | corrected (see Findings): no scrum master exactly when the roster is empty; otherwise the member at the rotation index, which is on the roster |
| `Rotation.SelectStableWithinWeek` | src/App.jsx:45-57 | every day from a Monday through its Sunday selects the same member |
| `Rotation.RotationAdvancesWeekly` | src/App.jsx:45-57 | one week later the index becomes `(i + 1) mod n` |
| `Rotation.EveryMemberTakesATurn` | src/App.jsx:51-57 | k weeks after the anchor (k < n), member k is selected, so every member gets a turn |
| `Rotation.RotationExample` | src/App.jsx:51-57 | anchor Monday 2024-01-01 with Alice, Bob and Carol: 3 weeks later it is Alice, 4 weeks later Bob |
| `Rotation.JsRemainder` | src/App.jsx:56 | JavaScript `%` lies in (-n, n). It equals the Euclidean remainder, or that remainder minus n. Its sign follows the dividend |
| `Rotation.ElementAt` | src/App.jsx:57 | `teamMembers[index]` is an element exactly when the index is a valid position, and `undefined` otherwise |
| `Rotation.SelectAsWritten` | src/App.jsx:34-57 | as written: `null` for an empty roster, and any member it yields is on the roster |
| `Rotation.SelectAsWrittenFromAnchorWeek` | src/App.jsx:51-57 | from the anchor's week on, weeksDiff ≥ 0, the index lies in [0, n), and the source's selection equals the rotation |
| `Rotation.FirstUseBeforeFirstMonday` | src/App.jsx:20-53 | on a first use on or after January 1st but before the year's first Monday, weeksDiff against the anchor just created is -1 |
| `Rotation.SelectAsWrittenWeekBeforeAnchor` | src/App.jsx:53-57 | with weeksDiff = -1 and two or more members, the source selects nobody, while the rotation selects the last member |
| `Rotation.FirstUseOnNewYear2026` | src/App.jsx:12-57 | a first use on 2026-01-01 with two members shows no scrum master as written; the corrected rotation shows the second member |
| `Store.RotaStore.Load` | src/App.jsx:5-9 | the roster is the stored one, or empty when the key is absent. The mount-time effect then selects per `SelectAsWritten` (which is `Select` from the anchor's week on), or nobody for an empty roster, without creating the anchor |
| `Store.RotaStore.GetStartDate` | src/App.jsx:12-31 | with a stored anchor, returns it unchanged. Otherwise it stores and returns the year's first Monday |
| `Store.RotaStore.Refresh` | src/App.jsx:34-58 | an empty roster gives no scrum master and leaves the anchor alone. Otherwise the anchor is fetched or created and the current member is `SelectAsWritten` of today, JavaScript `%` included; from the anchor's week on it equals `Select`. The store invariant is preserved |
| `Store.RotaStore.AddTeamMember` | src/App.jsx:65-75 | the roster becomes `AddMember` of the old one. A blank name changes nothing else; otherwise the scrum master is recomputed as `SelectAsWritten` (equal to `Select` from the anchor's week on). Unique ids and the invariant are kept |
| `Store.RotaStore.RemoveTeamMember` | src/App.jsx:77-79 | the roster becomes `RemoveMember` of the old one, and the scrum master is recomputed as `SelectAsWritten` (equal to `Select` from the anchor's week on). The invariant is kept |
| `Store.StartDateIsWriteOnce` | src/App.jsx:14-17 | two fetches of the anchor, even in different years, return the same stored day |

## Findings

| source | as written | input that shows it | evidently intended | confidence | as-written member | corrected member |
|---|---|---|---|---|---|---|
| src/App.jsx:53-57 | `weeksDiff % teamMembers.length` then `teamMembers[index]` | First use on Thursday 2026-01-01 with two members. The anchor is set to 2026-01-05, the current Monday is 2025-12-29, weeksDiff = -1, the index is -1 and `teamMembers[-1]` is `undefined`, so "Please add team members" is shown. The same happens on any first use before the year's first Monday with two or more members | a non-negative modulo, so that the last member is on duty in the week before the anchor | high (not executed) | `Rotation.FirstUseOnNewYear2026` | `Rotation.Select` |

`Rotation.SelectAsWritten` models the code as written, and `Store.RotaStore.Refresh` uses it,
so the store keeps the defect. `Rotation.Select` is the corrected selection, with the rotation
properties proved about it. `Rotation.SelectAsWrittenFromAnchorWeek` proves that the two agree
from the anchor's week on, and every store method states both.

## Left out

- JSX rendering, the text input, button handlers and CSS classes (src/App.jsx:114-173): presentation. The input box's `newMemberName` state is passed to `AddTeamMember` as `name`, and its clearing (`setNewMemberName('')`) is not modelled.
- React scheduling: `useState`/`useEffect` are replaced by explicit calls that run the rotation effect on mount and after every roster change.
- `localStorage` and `JSON.parse`/`JSON.stringify`: the stored keys are fields. A stored value that does not parse (a `JSON.parse` throw, an invalid `Date`) is not modelled. Neither is the round trip of the anchor through `toISOString`.
- Millisecond `Date` arithmetic, time zones and daylight saving time: every day is taken to be exactly 86 400 000 ms, so `Math.floor` of the millisecond difference is exact integer division on day numbers. Across a daylight-saving change, a 23-hour day could make the source's `Math.floor` drop a week. That case is not modelled.
- `toLocaleDateString` and the label text (src/App.jsx:81-83, 97): locale-dependent formatting. Only the Monday and Sunday day numbers are modelled (`Calendar.WeekRange`).
- The commented-out `resetRotation` (src/App.jsx:100-112): disabled code.
- The host clock: `today` and `year` are parameters and are not required to agree. The source also reads the clock separately in the rotation effect and in `getStartDate`.
- `Calendar.JanuaryFirst`: `new Date(year, 0, 1)` reads years 0–99 as 1900–1999. The model takes `year` literally, so it matches the source only for years from 100 on.
- `Roster.MaxId`: JavaScript numbers are unbounded integers here. The loss of precision above 2^53 and the argument-count limit of `Math.max(...ids)` are not modelled.
