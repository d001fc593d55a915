/**
 * The component's state and its two persisted keys, as one object.
 *
 * `members` is both the `teamMembers` state and the "Members" key (the effect at
 * src/App.jsx:61-63 writes it after every change), `anchor` is the "RotationStartDate"
 * key, and `current` is the `currentScrumMaster` state. The host clock is read where the
 * source reads it and is passed in: `today` is the local day number of `new Date()`,
 * `year` its `getFullYear()`.
 */
module Store {
  import opened Wrappers
  import opened Calendar
  import opened Roster
  import opened Rotation

  class RotaStore {
    var members: seq<Member>
    var anchor: Option<int>
    var current: Option<Member>

    /**
     * The store's invariant: ids are unique, a stored anchor is a Monday, and the current
     * scrum master is on the roster. Every method below keeps it (`old(Valid()) ==> Valid()`).
     */
    ghost predicate Valid()
      reads this
    {
      && UniqueIds(members)
      && (anchor.Some? ==> IsMonday(anchor.value))
      && (current.Some? ==> current.value in members)
    }

    /**
     * Mounting the component: the roster loaded from the "Members" key (`[]` when the key
     * is absent), the saved anchor if any, no scrum master yet, then the rotation effect's
     * first run.
     */
    constructor Load(savedMembers: Option<seq<Member>>, savedAnchor: Option<int>, today: int, year: int)
      ensures members == savedMembers.GetOr([])
      ensures members == [] ==> anchor == savedAnchor && current == None
      ensures members != [] ==> anchor == Some(savedAnchor.GetOr(FirstMondayOfYear(year)))
      ensures members != [] ==> current == SelectAsWritten(members, anchor.value, today)
      ensures members != [] && MondayOf(today) >= anchor.value ==> current == Select(members, anchor.value, today)
      ensures UniqueIds(members) && (savedAnchor.Some? ==> IsMonday(savedAnchor.value)) ==> Valid()
    {
      members := savedMembers.GetOr([]);
      anchor := savedAnchor;
      current := None;
      new;
      Refresh(today, year);
    }

    /**
     * `getStartDate`: the saved anchor when there is one; otherwise the first Monday of
     * `year`, which is stored and returned. Only the first call writes, so every later
     * call returns the same day.
     */
    method GetStartDate(year: int) returns (start: int)
      modifies this`anchor
      ensures old(anchor).Some? ==> start == old(anchor).value
      ensures old(anchor).None? ==> start == FirstMondayOfYear(year) && IsMonday(start)
      ensures anchor == Some(start)
    {
      if anchor.Some? {
        return anchor.value;
      }
      var firstDayOfYear := JanuaryFirst(year);
      var dayOfWeek := Weekday(firstDayOfYear);
      var daysToAdd := if dayOfWeek == Sunday then 1 else if dayOfWeek == Monday then 0 else 8 - dayOfWeek;
      firstDayOfYear := firstDayOfYear + daysToAdd;
      anchor := Some(firstDayOfYear);
      start := firstDayOfYear;
    }

    /**
     * The rotation effect: no scrum master for an empty roster (and the anchor is not
     * created then); otherwise the anchor is fetched or created and the member for
     * `today`'s week is selected.
     */
    method Refresh(today: int, year: int)
      modifies this`anchor, this`current
      ensures members == [] ==> anchor == old(anchor) && current == None
      ensures members != [] ==> anchor == Some(old(anchor).GetOr(FirstMondayOfYear(year)))
      ensures members != [] ==> current == SelectAsWritten(members, anchor.value, today)
      ensures members != [] && MondayOf(today) >= anchor.value ==> current == Select(members, anchor.value, today)
      ensures old(Valid()) ==> Valid()
    {
      if |members| == 0 {
        current := None;
        return;
      }
      var startDate := GetStartDate(year);
      var daysSinceMonday := (Weekday(today) + 6) % 7;
      var currentMonday := today - daysSinceMonday;
      var weeksDiff := (currentMonday - startDate) / 7;
      // JavaScript `%`: negative before the anchor, where `teamMembers[index]` is `undefined`
      var index := JsRemainder(weeksDiff, |members|);
      current := ElementAt(members, index);
      if MondayOf(today) >= startDate {
        SelectAsWrittenFromAnchorWeek(members, startDate, today);
      }
    }

    /**
     * `addTeamMember` followed by the rotation effect: a blank name changes nothing;
     * otherwise the member is appended and the scrum master is recomputed.
     */
    method AddTeamMember(name: string, today: int, year: int)
      modifies this`members, this`anchor, this`current
      ensures members == AddMember(old(members), name)
      ensures IsBlank(name) ==> anchor == old(anchor) && current == old(current)
      ensures !IsBlank(name) ==> anchor == Some(old(anchor).GetOr(FirstMondayOfYear(year)))
      ensures !IsBlank(name) ==> current == SelectAsWritten(members, anchor.value, today)
      ensures !IsBlank(name) && MondayOf(today) >= anchor.value ==> current == Select(members, anchor.value, today)
      ensures old(Valid()) ==> Valid()
    {
      var trimmed := Trim(name);
      if trimmed == [] {
        return;
      }
      var id := if |members| > 0 then MaxId(members) + 1 else 1;
      members := members + [Member(id, trimmed)];
      Refresh(today, year);
    }

    /**
     * `removeTeamMember` followed by the rotation effect: the members with this id are
     * dropped (none if the id is absent) and the scrum master is recomputed.
     */
    method RemoveTeamMember(id: int, today: int, year: int)
      modifies this`members, this`anchor, this`current
      ensures members == RemoveMember(old(members), id)
      ensures members == [] ==> anchor == old(anchor) && current == None
      ensures members != [] ==> anchor == Some(old(anchor).GetOr(FirstMondayOfYear(year)))
      ensures members != [] ==> current == SelectAsWritten(members, anchor.value, today)
      ensures members != [] && MondayOf(today) >= anchor.value ==> current == Select(members, anchor.value, today)
      ensures old(Valid()) ==> Valid()
    {
      if UniqueIds(members) {
        RemoveKeepsUniqueIds(members, id);
      }
      members := RemoveMember(members, id);
      Refresh(today, year);
    }
  }

  /** Once an anchor exists, fetching it again in any later year leaves it and returns it unchanged. */
  method StartDateIsWriteOnce(store: RotaStore, year1: int, year2: int) returns (first: int, second: int)
    modifies store
    ensures first == second && store.anchor == Some(first)
  {
    first := store.GetStartDate(year1);
    second := store.GetStartDate(year2);
  }
}
