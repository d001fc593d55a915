/**
 * The roster: the ordered list of team members, the order being the rotation order.
 * `addTeamMember` and `removeTeamMember` build a new roster from the old one;
 * they are modelled here as functions over `seq<Member>`.
 */
module Roster {

  datatype Member = Member(id: int, name: string)

  /** No two members of the roster share an id. */
  predicate UniqueIds(roster: seq<Member>) {
    forall i, j :: 0 <= i < j < |roster| ==> roster[i].id != roster[j].id
  }

  // ---------------------------------------------------------------------
  // String.prototype.trim
  // ---------------------------------------------------------------------

  /** The characters `trim` strips: ECMAScript WhiteSpace (Zs included) and LineTerminator. */
  predicate IsWhitespace(c: char) {
    || c == '\t' || c == '\n' || c == '\U{B}' || c == '\U{C}' || c == '\r' || c == ' '
    || c == '\U{A0}' || c == '\U{1680}' || ('\U{2000}' <= c <= '\U{200A}')
    || c == '\U{2028}' || c == '\U{2029}' || c == '\U{202F}' || c == '\U{205F}'
    || c == '\U{3000}' || c == '\U{FEFF}'
  }

  /** `s` without its leading whitespace. */
  function TrimStart(s: string): (r: string)
    ensures |r| <= |s| && r == s[|s| - |r|..]
    ensures forall i :: 0 <= i < |s| - |r| ==> IsWhitespace(s[i])
    ensures r != [] ==> !IsWhitespace(r[0])
  {
    if s != [] && IsWhitespace(s[0]) then TrimStart(s[1..]) else s
  }

  /** `s` without its trailing whitespace. */
  function TrimEnd(s: string): (r: string)
    ensures |r| <= |s| && r == s[..|r|]
    ensures forall i :: |r| <= i < |s| ==> IsWhitespace(s[i])
    ensures r != [] ==> !IsWhitespace(r[|r| - 1])
  {
    if s != [] && IsWhitespace(s[|s| - 1]) then TrimEnd(s[..|s| - 1]) else s
  }

  /** `s` without leading and trailing whitespace; empty exactly when `s` is all whitespace. */
  function Trim(s: string): (r: string)
    ensures r != [] ==> !IsWhitespace(r[0]) && !IsWhitespace(r[|r| - 1])
    ensures r == [] <==> forall i :: 0 <= i < |s| ==> IsWhitespace(s[i])
  {
    TrimEnd(TrimStart(s))
  }

  /** Whitespace before `i` and from `j` on, and `r` is what lies between. */
  predicate StripsTo(s: string, i: int, j: int, r: string) {
    && 0 <= i <= j <= |s| && r == s[i..j]
    && (forall k :: 0 <= k < i ==> IsWhitespace(s[k]))
    && (forall k :: j <= k < |s| ==> IsWhitespace(s[k]))
  }

  /** Trimming removes only whitespace, and only at the two ends. */
  lemma TrimIsSlice(s: string)
    ensures exists i, j :: StripsTo(s, i, j, Trim(s))
  {
    var t := TrimStart(s);
    var r := TrimEnd(t);
    var i := |s| - |t|;
    assert r == s[i..i + |r|];
    forall k | i + |r| <= k < |s| ensures IsWhitespace(s[k]) {
      assert s[k] == t[k - i];
    }
    assert Trim(s) == r && StripsTo(s, i, i + |r|, r);
  }

  /** Trimming a trimmed name changes nothing. */
  lemma TrimIdempotent(s: string)
    ensures Trim(Trim(s)) == Trim(s)
  {
    var r := Trim(s);
    assert TrimStart(r) == r;
    assert TrimEnd(r) == r;
  }

  /** The name `addTeamMember` refuses: empty once trimmed (`!name.trim()`). */
  predicate IsBlank(name: string)
    ensures IsBlank(name) <==> forall i :: 0 <= i < |name| ==> IsWhitespace(name[i])
  {
    Trim(name) == []
  }

  // ---------------------------------------------------------------------
  // Id assignment: Math.max(...ids) + 1, or 1 for an empty roster
  // ---------------------------------------------------------------------

  /** The largest id in a non-empty roster. */
  function MaxId(roster: seq<Member>): (m: int)
    requires |roster| > 0
    ensures forall k :: 0 <= k < |roster| ==> roster[k].id <= m
    ensures exists k :: 0 <= k < |roster| && roster[k].id == m
  {
    if |roster| == 1 then roster[0].id
    else
      var rest := MaxId(roster[1..]);
      if roster[0].id >= rest then roster[0].id
      else
        assert exists k :: 1 <= k < |roster| && roster[k].id == rest by {
          var k :| 0 <= k < |roster[1..]| && roster[1..][k].id == rest;
          assert roster[k + 1].id == rest;
        }
        rest
  }

  /** The id given to the next member: one past the largest id, 1 when the roster is empty. */
  function NextId(roster: seq<Member>): (id: int)
    ensures forall m :: m in roster ==> m.id < id
    ensures roster == [] ==> id == 1
    ensures roster != [] ==> exists m :: m in roster && id == m.id + 1
  {
    if |roster| > 0 then
      var k :| 0 <= k < |roster| && roster[k].id == MaxId(roster);
      assert roster[k] in roster;
      MaxId(roster) + 1
    else 1
  }

  // ---------------------------------------------------------------------
  // addTeamMember / removeTeamMember
  // ---------------------------------------------------------------------

  /**
   * The roster after adding `name`: unchanged when the name is blank, otherwise the old
   * roster followed by one new member with the trimmed name and a fresh id.
   */
  function AddMember(roster: seq<Member>, name: string): (r: seq<Member>)
    ensures IsBlank(name) ==> r == roster
    ensures !IsBlank(name) ==> |r| == |roster| + 1 && r[..|roster|] == roster
    ensures !IsBlank(name) ==> r[|roster|].name == Trim(name) && r[|roster|].name != []
    ensures !IsBlank(name) ==> forall m :: m in roster ==> m.id < r[|roster|].id
    ensures !IsBlank(name) && roster == [] ==> r[0].id == 1
    ensures UniqueIds(roster) ==> UniqueIds(r)
  {
    if IsBlank(name) then roster
    else roster + [Member(NextId(roster), Trim(name))]
  }

  /** The new member's id is one past the largest id already on the roster. */
  lemma AddMemberId(roster: seq<Member>, name: string)
    requires !IsBlank(name) && roster != []
    ensures AddMember(roster, name)[|roster|].id == MaxId(roster) + 1
  {
  }

  /** The roster without the members whose id is `id` (`filter(member => member.id !== id)`): nobody left has that id. */
  function RemoveMember(roster: seq<Member>, id: int): (r: seq<Member>)
    ensures |r| <= |roster|
    ensures forall i :: 0 <= i < |r| ==> r[i].id != id
  {
    if roster == [] then []
    else
      var rest := RemoveMember(roster[1..], id);
      if roster[0].id != id then [roster[0]] + rest else rest
  }

  /** The members left by a removal are exactly the members of the roster whose id differs. */
  lemma {:induction false} RemoveMemberContents(roster: seq<Member>, id: int)
    ensures forall m :: m in RemoveMember(roster, id) <==> m in roster && m.id != id
  {
    if roster != [] {
      RemoveMemberContents(roster[1..], id);
      assert roster == [roster[0]] + roster[1..];
    }
  }

  /** Removal works member by member, so it keeps the relative order of what remains. */
  lemma {:induction false} RemoveMemberConcat(a: seq<Member>, b: seq<Member>, id: int)
    ensures RemoveMember(a + b, id) == RemoveMember(a, id) + RemoveMember(b, id)
  {
    if a != [] {
      assert (a + b)[1..] == a[1..] + b;
      RemoveMemberConcat(a[1..], b, id);
    } else {
      assert a + b == b;
    }
  }

  /** Removing an id that nobody has leaves the roster as it was. */
  lemma {:induction false} RemoveAbsent(roster: seq<Member>, id: int)
    requires forall m :: m in roster ==> m.id != id
    ensures RemoveMember(roster, id) == roster
  {
    if roster != [] {
      assert forall m :: m in roster[1..] ==> m in roster;
      RemoveAbsent(roster[1..], id);
      assert [roster[0]] + roster[1..] == roster;
    }
  }

  /** A roster with unique ids keeps them without its first member. */
  lemma UniqueIdsTail(roster: seq<Member>)
    requires UniqueIds(roster) && roster != []
    ensures UniqueIds(roster[1..])
  {
  }

  /** With unique ids, nobody after the first member has its id. */
  lemma FirstIdNotInTail(roster: seq<Member>)
    requires UniqueIds(roster) && roster != []
    ensures forall m :: m in roster[1..] ==> m.id != roster[0].id
  {
    forall m | m in roster[1..] ensures m.id != roster[0].id {
      var i :| 0 <= i < |roster| - 1 && roster[1..][i] == m;
      assert m == roster[i + 1];
    }
  }

  /** With unique ids, removing the id of member `k` drops exactly that member and keeps the rest in order. */
  lemma {:induction false} RemoveAt(roster: seq<Member>, k: int)
    requires UniqueIds(roster) && 0 <= k < |roster|
    ensures RemoveMember(roster, roster[k].id) == roster[..k] + roster[k + 1..]
  {
    var id := roster[k].id;
    if k == 0 {
      FirstIdNotInTail(roster);
      RemoveAbsent(roster[1..], id);
    } else {
      assert roster[0].id != id;
      UniqueIdsTail(roster);
      RemoveAt(roster[1..], k - 1);
      assert roster[1..][k - 1] == roster[k];
      assert roster[1..][..k - 1] == roster[1..k] && roster[1..][k..] == roster[k + 1..];
      assert [roster[0]] + roster[1..k] == roster[..k];
    }
  }

  /** Removing never creates a shared id. */
  lemma {:induction false} RemoveKeepsUniqueIds(roster: seq<Member>, id: int)
    requires UniqueIds(roster)
    ensures UniqueIds(RemoveMember(roster, id))
  {
    if roster != [] {
      var rest := roster[1..];
      UniqueIdsTail(roster);
      FirstIdNotInTail(roster);
      RemoveKeepsUniqueIds(rest, id);
      RemoveMemberContents(rest, id);
      var r := RemoveMember(rest, id);
      if roster[0].id != id {
        var s := [roster[0]] + r;
        forall i, j | 0 <= i < j < |s| ensures s[i].id != s[j].id {
          if i == 0 {
            assert s[j] == r[j - 1] && s[j] in r;
          } else {
            assert s[i] == r[i - 1] && s[j] == r[j - 1];
          }
        }
      }
    }
  }

  /** A one-letter name is never blank and trims to itself. */
  lemma TrimLetter(c: char)
    requires 'A' <= c <= 'Z'
    ensures Trim([c]) == [c] && !IsBlank([c])
  {
    assert TrimStart([c]) == [c];
    assert TrimEnd([c]) == [c];
  }

  /** "A", then "B", then "C" added to an empty roster get ids 1, 2, 3. */
  lemma IdAssignmentExample()
    ensures AddMember([], "A") == [Member(1, "A")]
    ensures AddMember([Member(1, "A")], "B") == [Member(1, "A"), Member(2, "B")]
    ensures AddMember([Member(1, "A"), Member(2, "B")], "C")
         == [Member(1, "A"), Member(2, "B"), Member(3, "C")]
  {
    AddFirstMember();
    AddSecondMember();
    AddThirdMember();
  }

  lemma AddFirstMember()
    ensures AddMember([], "A") == [Member(1, "A")]
  {
    TrimLetter('A');
  }

  lemma AddSecondMember()
    ensures AddMember([Member(1, "A")], "B") == [Member(1, "A"), Member(2, "B")]
  {
    TrimLetter('B');
    assert MaxId([Member(1, "A")]) == 1;
  }

  lemma AddThirdMember()
    ensures AddMember([Member(1, "A"), Member(2, "B")], "C")
         == [Member(1, "A"), Member(2, "B"), Member(3, "C")]
  {
    TrimLetter('C');
    assert MaxId([Member(1, "A"), Member(2, "B")]) == 2;
  }

  /** After removing id 2 from 1, 2, 3, the next member "D" gets 4, not 3. */
  lemma IdAfterRemoveExample()
    ensures RemoveMember([Member(1, "A"), Member(2, "B"), Member(3, "C")], 2) == [Member(1, "A"), Member(3, "C")]
    ensures AddMember([Member(1, "A"), Member(3, "C")], "D") == [Member(1, "A"), Member(3, "C"), Member(4, "D")]
  {
    RemoveSecondMember();
    AddAfterRemove();
  }

  lemma RemoveSecondMember()
    ensures RemoveMember([Member(1, "A"), Member(2, "B"), Member(3, "C")], 2) == [Member(1, "A"), Member(3, "C")]
  {
    assert RemoveMember([Member(3, "C")], 2) == [Member(3, "C")];
    assert RemoveMember([Member(2, "B"), Member(3, "C")], 2) == [Member(3, "C")];
  }

  lemma AddAfterRemove()
    ensures AddMember([Member(1, "A"), Member(3, "C")], "D") == [Member(1, "A"), Member(3, "C"), Member(4, "D")]
  {
    TrimLetter('D');
    assert MaxId([Member(1, "A"), Member(3, "C")]) == 3;
  }
}
