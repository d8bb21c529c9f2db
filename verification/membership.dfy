/**
 * Groups and memberships as the data API sees them (`createGroup`,
 * `getGroupByInviteCode`, `joinGroup`, `joinGroupByCode`, `isGroupMember`).
 *
 * The backend tables are two sequences of rows. Outcomes the backend decides
 * (whether an insert fails) are parameters. A lookup with `.single()`
 * yields a row only when exactly one row matches.
 */
module Membership {
  import opened Wrappers
  import opened Text
  import InviteCode

  type GroupId = nat
  type UserId = string

  datatype Role = Admin | Member

  datatype Group = Group(id: GroupId, name: string, createdBy: UserId, inviteCode: string)

  /** A row of the `group_members` table. */
  datatype MemberRow = MemberRow(group: GroupId, user: UserId, role: Role)

  /** What `getGroupByInviteCode` returns: the group and the member count it shows. */
  datatype GroupPreview = GroupPreview(group: Group, memberCount: nat)

  /** Outcomes of `joinGroupByCode`: `null`, the two thrown errors, or the joined group. */
  datatype JoinByCodeOutcome = NotSignedIn | InvalidCode | AlreadyMember | Joined(group: Group)

  datatype CreateError = GroupInsertFailed

  // ---------------------------------------------------------------------
  // Queries on the tables
  // ---------------------------------------------------------------------

  /** The groups whose invite code is `code`, in table order. */
  function WithCode(groups: seq<Group>, code: string): seq<Group> {
    if groups == [] then []
    else (if groups[0].inviteCode == code then [groups[0]] else []) + WithCode(groups[1..], code)
  }

  lemma {:induction false} WithCodeMembers(groups: seq<Group>, code: string)
    ensures forall g :: g in WithCode(groups, code) <==> g in groups && g.inviteCode == code
  {
    if groups != [] {
      WithCodeMembers(groups[1..], code);
      assert groups == [groups[0]] + groups[1..];
    }
  }

  predicate IsRowOf(row: MemberRow, g: GroupId, u: UserId) {
    row.group == g && row.user == u
  }

  /** The number of rows for user `u` in group `g`. */
  function RowsFor(rows: seq<MemberRow>, g: GroupId, u: UserId): nat {
    if rows == [] then 0
    else RowsFor(rows[..|rows| - 1], g, u) + (if IsRowOf(rows[|rows| - 1], g, u) then 1 else 0)
  }

  /** The number of rows of group `g`. */
  function GroupRows(rows: seq<MemberRow>, g: GroupId): nat {
    if rows == [] then 0
    else GroupRows(rows[..|rows| - 1], g) + (if rows[|rows| - 1].group == g then 1 else 0)
  }

  /** At most one row per group and user. */
  predicate Unique(rows: seq<MemberRow>) {
    forall i, j :: 0 <= i < j < |rows| ==> !IsRowOf(rows[j], rows[i].group, rows[i].user)
  }

  /** Group ids are their positions, and every row names an existing group, once per user. */
  predicate Consistent(groups: seq<Group>, rows: seq<MemberRow>) {
    (forall i :: 0 <= i < |groups| ==> groups[i].id == i) &&
    (forall i :: 0 <= i < |rows| ==> rows[i].group < |groups|) &&
    Unique(rows)
  }

  lemma RowsForAppend(rows: seq<MemberRow>, row: MemberRow, g: GroupId, u: UserId)
    ensures RowsFor(rows + [row], g, u) == RowsFor(rows, g, u) + (if IsRowOf(row, g, u) then 1 else 0)
  {
    assert (rows + [row])[..|rows|] == rows;
  }

  /** There is a row for `g` and `u` exactly when the count is positive. */
  lemma {:induction false} RowsForPositive(rows: seq<MemberRow>, g: GroupId, u: UserId)
    ensures RowsFor(rows, g, u) > 0 <==> exists i :: 0 <= i < |rows| && IsRowOf(rows[i], g, u)
  {
    if rows != [] {
      var n := |rows| - 1;
      RowsForPositive(rows[..n], g, u);
      if exists i :: 0 <= i < n && IsRowOf(rows[..n][i], g, u) {
        var i :| 0 <= i < n && IsRowOf(rows[..n][i], g, u);
        assert IsRowOf(rows[i], g, u);
      }
      if exists i :: 0 <= i < |rows| && IsRowOf(rows[i], g, u) {
        var i :| 0 <= i < |rows| && IsRowOf(rows[i], g, u);
        if i < n {
          assert IsRowOf(rows[..n][i], g, u);
        }
      }
    }
  }

  /** Without duplicate pairs there is at most one row per group and user. */
  lemma {:induction false} UniqueAtMostOne(rows: seq<MemberRow>, g: GroupId, u: UserId)
    requires Unique(rows)
    ensures RowsFor(rows, g, u) <= 1
  {
    if rows != [] {
      var n := |rows| - 1;
      assert Unique(rows[..n]);
      UniqueAtMostOne(rows[..n], g, u);
      if IsRowOf(rows[n], g, u) {
        RowsForPositive(rows[..n], g, u);
      }
    }
  }

  /** Adding a row for a pair that has none keeps the rows unique. */
  lemma AppendKeepsUnique(rows: seq<MemberRow>, row: MemberRow)
    requires Unique(rows)
    requires RowsFor(rows, row.group, row.user) == 0
    ensures Unique(rows + [row])
  {
    RowsForPositive(rows, row.group, row.user);
    var r := rows + [row];
    forall i, j | 0 <= i < j < |r| ensures !IsRowOf(r[j], r[i].group, r[i].user) {
      if j == |rows| {
        assert r[i] == rows[i];
        if IsRowOf(r[j], r[i].group, r[i].user) {
          assert IsRowOf(rows[i], row.group, row.user);
        }
      }
    }
  }

  /** The member count shown for a group: the number of its rows, or 1 when there are none. */
  function DisplayedCount(n: nat): (shown: nat)
    ensures shown >= 1
    ensures n > 0 ==> shown == n
  {
    if n == 0 then 1 else n
  }

  /** `getGroupByInviteCode`: the one group whose code is the upper-cased input, with its member count. */
  function GroupByInviteCode(groups: seq<Group>, rows: seq<MemberRow>, code: string): (r: Option<GroupPreview>)
    ensures r.Some? <==> |WithCode(groups, ToUpper(code))| == 1
    ensures r.Some? ==> r.value.group in groups && r.value.group.inviteCode == ToUpper(code) && r.value.memberCount >= 1
    ensures r.Some? && GroupRows(rows, r.value.group.id) > 0 ==> r.value.memberCount == GroupRows(rows, r.value.group.id)
    ensures r.Some? && GroupRows(rows, r.value.group.id) == 0 ==> r.value.memberCount == 1
  {
    var found := WithCode(groups, ToUpper(code));
    WithCodeMembers(groups, ToUpper(code));
    if |found| == 1 then
      assert found[0] in found;
      Some(GroupPreview(found[0], DisplayedCount(GroupRows(rows, found[0].id))))
    else None
  }

  /** Two groups that share an invite code cannot be found by it: `.single()` sees two rows. */
  lemma SharedCodeNotFound(groups: seq<Group>, rows: seq<MemberRow>, i: nat, j: nat, code: string)
    requires i < j < |groups| && groups[i] != groups[j]
    requires groups[i].inviteCode == groups[j].inviteCode == ToUpper(code)
    ensures GroupByInviteCode(groups, rows, code) == None
  {
    WithCodeMembers(groups, ToUpper(code));
    var found := WithCode(groups, ToUpper(code));
    assert groups[i] in found && groups[j] in found;
  }

  /** `isGroupMember`: `.single()` finds a row only when there is exactly one. */
  function IsGroupMember(rows: seq<MemberRow>, g: GroupId, u: UserId): bool {
    RowsFor(rows, g, u) == 1
  }

  /** On unique rows, `isGroupMember` holds exactly when a row for the pair exists. */
  lemma IsGroupMemberIffRow(rows: seq<MemberRow>, g: GroupId, u: UserId)
    requires Unique(rows)
    ensures IsGroupMember(rows, g, u) <==> exists i :: 0 <= i < |rows| && IsRowOf(rows[i], g, u)
  {
    RowsForPositive(rows, g, u);
    UniqueAtMostOne(rows, g, u);
  }

  // ---------------------------------------------------------------------
  // The tables and their updates
  // ---------------------------------------------------------------------

  class Store {
    var groups: seq<Group>
    var members: seq<MemberRow>

    constructor ()
      ensures groups == [] && members == []
    {
      groups := [];
      members := [];
    }

    /**
     * `createGroup`: inserts a group with a fresh id and a generated code,
     * then the creator as `admin`. A failed group insert is thrown; a failed
     * member insert is not checked.
     */
    method CreateGroup(name: string, creator: UserId, draws: seq<InviteCode.Draw>,
                       groupInsertFails: bool, memberInsertFails: bool)
      returns (r: Result<Group, CreateError>)
      requires |draws| == InviteCode.CodeLength
      modifies this
      ensures groupInsertFails ==> r == Failure(GroupInsertFailed) && groups == old(groups) && members == old(members)
      ensures !groupInsertFails ==>
                r.Success? && r.value.id == |old(groups)| && r.value.name == name && r.value.createdBy == creator &&
                r.value.inviteCode == InviteCode.Encode(draws) &&
                groups == old(groups) + [r.value] &&
                members == old(members) + (if memberInsertFails then [] else [MemberRow(r.value.id, creator, Admin)])
      ensures old(Consistent(groups, members)) ==> Consistent(groups, members)
    {
      var code := InviteCode.GenerateInviteCode(draws);
      if groupInsertFails {
        return Failure(GroupInsertFailed);
      }
      var group := Group(|groups|, name, creator, code);
      ghost var wasConsistent := Consistent(groups, members);
      groups := groups + [group];
      if !memberInsertFails {
        if wasConsistent {
          RowsForPositive(members, group.id, creator);
          AppendKeepsUnique(members, MemberRow(group.id, creator, Admin));
        }
        members := members + [MemberRow(group.id, creator, Admin)];
      }
      r := Success(group);
    }

    /** `joinGroup`: inserts a `member` row and reports whether the insert succeeded. */
    method JoinGroup(g: GroupId, u: UserId, insertFails: bool) returns (ok: bool)
      modifies this
      ensures ok == !insertFails
      ensures groups == old(groups)
      ensures members == old(members) + (if ok then [MemberRow(g, u, Member)] else [])
      ensures old(Consistent(groups, members)) && g < |groups| && old(RowsFor(members, g, u)) == 0 ==>
                Consistent(groups, members)
    {
      ok := !insertFails;
      if ok {
        if Consistent(groups, members) && g < |groups| && RowsFor(members, g, u) == 0 {
          AppendKeepsUnique(members, MemberRow(g, u, Member));
        }
        members := members + [MemberRow(g, u, Member)];
      }
    }

    /**
     * `joinGroupByCode`: looks the code up upper-cased, refuses a member who
     * already has a row, and otherwise inserts one `member` row. The insert's
     * own failure is not checked, so the group is returned either way.
     */
    method JoinGroupByCode(user: Option<UserId>, code: string, insertFails: bool) returns (r: JoinByCodeOutcome)
      modifies this
      ensures groups == old(groups)
      ensures user.None? ==> r == NotSignedIn && members == old(members)
      ensures user.Some? && |WithCode(groups, ToUpper(code))| != 1 ==> r == InvalidCode && members == old(members)
      ensures user.Some? && |WithCode(groups, ToUpper(code))| == 1 ==>
                var g := WithCode(groups, ToUpper(code))[0];
                if old(RowsFor(members, g.id, user.value)) == 1 then r == AlreadyMember && members == old(members)
                else r == Joined(g) &&
                     members == old(members) + (if insertFails then [] else [MemberRow(g.id, user.value, Member)])
      ensures r.Joined? ==> r.group in groups && r.group.inviteCode == ToUpper(code)
      ensures old(Consistent(groups, members)) ==> Consistent(groups, members)
    {
      if user.None? {
        return NotSignedIn;
      }
      var found := WithCode(groups, ToUpper(code));
      WithCodeMembers(groups, ToUpper(code));
      if |found| != 1 {
        return InvalidCode;
      }
      var group := found[0];
      assert group in found;
      if RowsFor(members, group.id, user.value) == 1 {
        return AlreadyMember;
      }
      if !insertFails {
        if Consistent(groups, members) {
          var k :| 0 <= k < |groups| && groups[k] == group;
          UniqueAtMostOne(members, group.id, user.value);
          AppendKeepsUnique(members, MemberRow(group.id, user.value, Member));
        }
        members := members + [MemberRow(group.id, user.value, Member)];
      }
      r := Joined(group);
    }
  }

  /** A generated code is already upper case, so it is looked up as it is. */
  lemma GeneratedCodeLookedUpAsIs(draws: seq<InviteCode.Draw>)
    ensures ToUpper(InviteCode.Encode(draws)) == InviteCode.Encode(draws)
  {
    InviteCode.EncodedSymbols(draws);
    UpperCodeCharsUnchanged(InviteCode.Encode(draws));
  }

  /**
   * In a store holding one group and no member rows, that group is found by
   * any input that upper-cases to its code, and shown with one member.
   */
  lemma OnlyGroupFoundByCode(g: Group, typed: string)
    requires ToUpper(typed) == g.inviteCode
    ensures GroupByInviteCode([g], [], typed) == Some(GroupPreview(g, 1))
  {
    WithCodeMembers([g], g.inviteCode);
    assert WithCode([g], g.inviteCode) == [g];
  }
}
