/**
 The reverse index of which groups each member belongs to
 (internal/adapter/napcat/directory.go).
 */
module Directory {
  import opened Wrappers
  import opened Sorting

  /** Group id to member ids, or member id to group ids. */
  type Index = map<int, seq<int>>

  ghost predicate Ascending(xs: seq<int>) {
    forall i, j :: 0 <= i < j < |xs| ==> xs[i] < xs[j]
  }

  /** `m` lists `x` under `key`. */
  predicate Lists(m: Index, key: int, x: int) {
    key in m && x in m[key]
  }

  function Distinct(xs: seq<int>): set<int> {
    set x | x in xs
  }

  /** `out` relates exactly the same pairs the other way round, each entry non-empty and strictly ascending. */
  ghost predicate Inverts(groupMembers: Index, out: Index) {
    && (forall u, g :: Lists(out, u, g) <==> Lists(groupMembers, g, u))
    && (forall u :: u in out ==> out[u] != [] && Ascending(out[u]))
  }

  const AT_MOST: (int, int) -> bool := (a: int, b: int) => a <= b

  // ------------------------------------------------- building the index

  /** Which groups have been recorded for which members, as a relation. */
  predicate Recorded(sets: map<int, set<int>>, u: int, g: int) {
    u in sets && g in sets[u]
  }

  method BuildMemberGroups(groupMembers: Index) returns (out: Index)
    ensures Inverts(groupMembers, out)
  {
    var sets := CollectSets(groupMembers);
    out := map[];
    var members := Enumerate(sets.Keys);
    for i := 0 to |members|
      invariant forall u :: u in out <==> u in members[..i]
      invariant forall u :: u in out ==> out[u] != [] && Ascending(out[u])
      invariant forall u, g :: Lists(out, u, g) <==> u in members[..i] && Recorded(sets, u, g)
    {
      var u := members[i];
      var groups := Enumerate(sets[u]);
      SortedGroups(groups);
      var sorted := SortBy(AT_MOST, groups);
      var g :| g in sets[u];
      assert g in sorted;
      ghost var was := out;
      out := out[u := sorted];
      assert members[..i + 1] == members[..i] + [u];
      forall v, h
        ensures Lists(out, v, h) <==> Lists(was, v, h) || (v == u && Recorded(sets, v, h))
      {
        assert u !in was;
      }
    }
    assert members[..|members|] == members;
  }

  method CollectSets(gm: Index) returns (sets: map<int, set<int>>)
    ensures forall u, g :: Recorded(sets, u, g) <==> Lists(gm, g, u)
    ensures forall u :: u in sets ==> sets[u] != {}
  {
    sets := map[];
    var groups := Enumerate(gm.Keys);
    for i := 0 to |groups|
      invariant forall u, g :: Recorded(sets, u, g) <==> g in groups[..i] && Lists(gm, g, u)
      invariant forall u :: u in sets ==> sets[u] != {}
    {
      var groupID := groups[i];
      sets := RecordGroup(sets, groupID, gm[groupID]);
      assert groups[..i + 1] == groups[..i] + [groupID];
    }
    assert groups[..|groups|] == groups;
  }

  /** The inner loop: one group is recorded for each of its members. */
  method RecordGroup(before: map<int, set<int>>, groupID: int, members: seq<int>) returns (sets: map<int, set<int>>)
    requires forall u :: u in before ==> before[u] != {}
    ensures forall u, g :: Recorded(sets, u, g) <==> Recorded(before, u, g) || (g == groupID && u in members)
    ensures forall u :: u in sets ==> sets[u] != {}
  {
    sets := before;
    for i := 0 to |members|
      invariant forall u, g :: Recorded(sets, u, g) <==> Recorded(before, u, g) || (g == groupID && u in members[..i])
      invariant forall u :: u in sets ==> sets[u] != {}
    {
      var userID := members[i];
      ghost var was := sets;
      var s := if userID in sets then sets[userID] else {};
      sets := sets[userID := s + {groupID}];
      assert members[..i + 1] == members[..i] + [userID];
      forall u, g
        ensures Recorded(sets, u, g) <==> Recorded(was, u, g) || (g == groupID && u == userID)
      {
      }
    }
    assert members[..|members|] == members;
  }

  /** Sorting distinct ids makes them strictly ascending. */
  lemma SortedGroups(groups: seq<int>)
    requires forall i, j :: 0 <= i < j < |groups| ==> groups[i] != groups[j]
    ensures Ascending(SortBy(AT_MOST, groups))
    ensures forall g :: g in SortBy(AT_MOST, groups) <==> g in groups
  {
    hide SortBy;
    SortSorts(AT_MOST, groups);
    forall g
      ensures g in SortBy(AT_MOST, groups) <==> g in groups
    {
      SortMembers(AT_MOST, groups, g);
    }
    forall i, j | 0 <= i < j < |SortBy(AT_MOST, groups)|
      ensures SortBy(AT_MOST, groups)[i] < SortBy(AT_MOST, groups)[j]
    {
      DistinctAfterSort(AT_MOST, groups, i, j);
      assert AT_MOST(SortBy(AT_MOST, groups)[i], SortBy(AT_MOST, groups)[j]);
    }
  }

  /** There is only one inverse index, whatever order the maps were ranged over in. */
  lemma InverseUnique(gm: Index, a: Index, b: Index)
    requires Inverts(gm, a) && Inverts(gm, b)
    ensures a == b
  {
    forall u
      ensures u in a <==> u in b
    {
      if u in a {
        assert Lists(a, u, a[u][0]);
      }
      if u in b {
        assert Lists(b, u, b[u][0]);
      }
    }
    forall u | u in a
      ensures a[u] == b[u]
    {
      forall g
        ensures g in a[u] <==> g in b[u]
      {
        assert Lists(a, u, g) <==> Lists(b, u, g);
      }
      AscendingUnique(a[u], b[u]);
    }
  }

  lemma {:induction false} AscendingUnique(a: seq<int>, b: seq<int>)
    requires Ascending(a) && Ascending(b) && forall x :: x in a <==> x in b
    ensures a == b
    decreases |a|
  {
    assert a != [] ==> a[0] in a && a[0] in b;
    assert b != [] ==> b[0] in b && b[0] in a;
    if a != [] {
      assert a[0] == b[0];
      forall x
        ensures x in a[1..] <==> x in b[1..]
      {
        assert x in a[1..] <==> x in a && x != a[0];
        assert x in b[1..] <==> x in b && x != b[0];
      }
      AscendingUnique(a[1..], b[1..]);
    }
  }

  // ------------------------------------------------- counting edges

  /** The associations of an index, one for each position of each entry. */
  ghost function Positions(m: Index): set<(int, int)> {
    set u, i | u in m && 0 <= i < |m[u]| :: (u, i)
  }

  /** The distinct pairs of group and member. */
  ghost function Memberships(gm: Index): set<(int, int)> {
    set g, u | g in gm && u in gm[g] :: (g, u)
  }

  lemma {:induction false} SameSize<T, U>(a: set<T>, b: set<U>, f: T -> U)
    requires forall x, y :: x in a && y in a && f(x) == f(y) ==> x == y
    requires forall x :: x in a ==> f(x) in b
    requires forall y :: y in b ==> exists x :: x in a && f(x) == y
    ensures |a| == |b|
    decreases |a|
  {
    if a == {} {
      assert b == {};
    } else {
      var x :| x in a;
      SameSize(a - {x}, b - {f(x)}, f);
    }
  }

  /** The inverse index has as many edges as the groups have distinct members. */
  lemma EdgesInvert(gm: Index, out: Index)
    requires Inverts(gm, out)
    ensures |Positions(out)| == |Memberships(gm)|
  {
    var f := (p: (int, int)) => if p.0 in out && 0 <= p.1 < |out[p.0]| then (out[p.0][p.1], p.0) else p;
    forall p | p in Positions(out)
      ensures f(p) in Memberships(gm)
    {
      assert Lists(out, p.0, out[p.0][p.1]);
      assert Lists(gm, out[p.0][p.1], p.0);
    }
    forall e | e in Memberships(gm)
      ensures exists p :: p in Positions(out) && f(p) == e
    {
      var g, u := e.0, e.1;
      assert Lists(gm, g, u) && Lists(out, u, g);
      var i :| 0 <= i < |out[u]| && out[u][i] == g;
      assert (u, i) in Positions(out) && f((u, i)) == e;
    }
    SameSize(Positions(out), Memberships(gm), f);
  }

  lemma {:induction false} RowSize(u: int, n: nat)
    ensures |set i | 0 <= i < n :: (u, i)| == n
  {
    var row := set i | 0 <= i < n :: (u, i);
    if n == 0 {
      assert row == {};
    } else {
      RowSize(u, n - 1);
      assert row == (set i | 0 <= i < n - 1 :: (u, i)) + {(u, n - 1)};
    }
  }

  ghost function RowsOf(m: Index, us: seq<int>): set<(int, int)> {
    set u, i | u in us && u in m && 0 <= i < |m[u]| :: (u, i)
  }

  lemma OneMoreRow(m: Index, us: seq<int>, u: int)
    requires u in m && u !in us
    ensures |RowsOf(m, us + [u])| == |RowsOf(m, us)| + |m[u]|
  {
    var row := set i | 0 <= i < |m[u]| :: (u, i);
    RowSize(u, |m[u]|);
    assert RowsOf(m, us + [u]) == RowsOf(m, us) + row;
    assert RowsOf(m, us) !! row;
  }

  /** Summing the numbers of distinct members group by group counts the memberships. */
  function DistinctMembers(gm: Index, groups: seq<int>): nat
    requires forall g :: g in groups ==> g in gm
  {
    if groups == [] then 0
    else
      var g := groups[|groups| - 1];
      assert g in groups;
      DistinctMembers(gm, groups[..|groups| - 1]) + |Distinct(gm[g])|
  }

  ghost function MembershipsOf(gm: Index, groups: seq<int>): set<(int, int)> {
    set g, u | g in groups && g in gm && u in gm[g] :: (g, u)
  }

  lemma PairsWith(g: int, members: set<int>)
    ensures |set u | u in members :: (g, u)| == |members|
  {
    var row := set u | u in members :: (g, u);
    var pair := (u: int) => (g, u);
    assert forall u :: u in members ==> pair(u) in row;
    assert forall e :: e in row ==> pair(e.1) == e && e.1 in members;
    SameSize(members, row, pair);
  }

  lemma {:induction false} DistinctMembersCount(gm: Index, groups: seq<int>)
    requires forall g :: g in groups ==> g in gm
    requires forall i, j :: 0 <= i < j < |groups| ==> groups[i] != groups[j]
    ensures DistinctMembers(gm, groups) == |MembershipsOf(gm, groups)|
  {
    if groups == [] {
      assert MembershipsOf(gm, groups) == {};
    } else {
      var rest, g := groups[..|groups| - 1], groups[|groups| - 1];
      DistinctMembersCount(gm, rest);
      assert g in groups;
      var members := Distinct(gm[g]);
      var row := set u | u in members :: (g, u);
      PairsWith(g, members);
      assert g !in rest;
      assert groups == rest + [g];
      assert MembershipsOf(gm, groups) == MembershipsOf(gm, rest) + row;
      assert MembershipsOf(gm, rest) !! row;
    }
  }

  /** Double counting: the edges by member are the distinct members summed over all groups. */
  lemma EdgesByGroup(gm: Index, out: Index, groups: seq<int>)
    requires Inverts(gm, out)
    requires forall g :: g in groups <==> g in gm
    requires forall i, j :: 0 <= i < j < |groups| ==> groups[i] != groups[j]
    ensures |Positions(out)| == DistinctMembers(gm, groups)
  {
    EdgesInvert(gm, out);
    DistinctMembersCount(gm, groups);
    assert MembershipsOf(gm, groups) == Memberships(gm);
  }

  // ------------------------------------------------- the directory

  class MemberDirectory {
    var friends: set<int>
    var memberGroups: Index
    var loaded: bool

    constructor ()
      ensures friends == {} && memberGroups == map[] && !loaded
    {
      friends := {};
      memberGroups := map[];
      loaded := false;
    }

    method Replace(friendIDs: seq<int>, groups: Index)
      modifies this
      ensures loaded && memberGroups == groups && forall u :: u in friends <==> u in friendIDs
    {
      var friendSet: set<int> := {};
      for i := 0 to |friendIDs|
        invariant forall u :: u in friendSet <==> u in friendIDs[..i]
      {
        friendSet := friendSet + {friendIDs[i]};
        assert friendIDs[..i + 1] == friendIDs[..i] + [friendIDs[i]];
      }
      assert friendIDs[..|friendIDs|] == friendIDs;
      friends := friendSet;
      memberGroups := groups;
      loaded := true;
    }

    /** The groups shared with a user; on an inverse index, exactly the groups that list the user. */
    method Groups(userID: int) returns (out: seq<int>)
      ensures out == if userID in memberGroups then SortBy(AT_MOST, memberGroups[userID]) else []
    {
      if userID !in memberGroups || |memberGroups[userID]| == 0 {
        return [];
      }
      out := SortBy(AT_MOST, memberGroups[userID]);
    }

    method MemberCount() returns (n: nat)
      ensures n == |memberGroups|
    {
      n := |memberGroups|;
    }

    method EdgeCount() returns (n: nat)
      ensures n == |Positions(memberGroups)|
    {
      n := 0;
      var members := Enumerate(memberGroups.Keys);
      assert RowsOf(memberGroups, []) == {};
      for i := 0 to |members|
        invariant n == |RowsOf(memberGroups, members[..i])|
      {
        assert members[..i + 1] == members[..i] + [members[i]];
        assert members[i] !in members[..i];
        OneMoreRow(memberGroups, members[..i], members[i]);
        n := n + |memberGroups[members[i]]|;
      }
      assert members[..|members|] == members;
      assert RowsOf(memberGroups, members) == Positions(memberGroups);
    }
  }

  /** What the bot answers: the friend list, the group list, the `i`-th member list; None is a failed call. */
  datatype Bot = Bot(friends: Option<seq<int>>, groups: Option<seq<int>>, members: nat -> Option<seq<int>>)

  /** The member lists that could be fetched; of a group listed twice, the later one. */
  function FetchedMembers(bot: Bot, groupIDs: seq<int>): Index {
    if groupIDs == [] then map[] else
      var n := |groupIDs| - 1;
      var before := FetchedMembers(bot, groupIDs[..n]);
      match bot.members(n)
      case None => before
      case Some(members) => before[groupIDs[n] := members]
  }

  method FetchMembers(bot: Bot, groupIDs: seq<int>) returns (groupMembers: Index)
    ensures groupMembers == FetchedMembers(bot, groupIDs)
  {
    groupMembers := map[];
    for i := 0 to |groupIDs|
      invariant groupMembers == FetchedMembers(bot, groupIDs[..i])
    {
      assert groupIDs[..i + 1][..i] == groupIDs[..i];
      var answer := bot.members(i);
      if answer.None? {
        continue;
      }
      groupMembers := groupMembers[groupIDs[i] := answer.value];
    }
    assert groupIDs[..|groupIDs|] == groupIDs;
  }

  /** With every group listed once, the fetched lists are those of the groups whose call succeeded. */
  lemma {:induction false} FetchedMembersOf(bot: Bot, groupIDs: seq<int>, g: int)
    requires forall i, j :: 0 <= i < j < |groupIDs| ==> groupIDs[i] != groupIDs[j]
    ensures g in FetchedMembers(bot, groupIDs) <==>
            exists i :: 0 <= i < |groupIDs| && groupIDs[i] == g && bot.members(i).Some?
    ensures forall i :: 0 <= i < |groupIDs| && groupIDs[i] == g && bot.members(i).Some? ==>
              FetchedMembers(bot, groupIDs)[g] == bot.members(i).value
  {
    if groupIDs != [] {
      var n := |groupIDs| - 1;
      FetchedMembersOf(bot, groupIDs[..n], g);
      if i :| 0 <= i < n && groupIDs[..n][i] == g && bot.members(i).Some? {
        assert groupIDs[i] == g;
      }
      assert forall i :: 0 <= i < n ==> groupIDs[..n][i] == groupIDs[i];
    }
  }

  /**
   Fills the directory from what the bot answers: nothing changes unless both lists could
   be fetched; otherwise it is the inverse of the member lists that could be, whose
   distinct memberships its edge count gives.
   */
  method SyncDirectory(d: MemberDirectory, bot: Option<Bot>) returns (ok: bool)
    modifies d
    ensures ok <==> bot.Some? && bot.value.friends.Some? && bot.value.groups.Some?
    ensures !ok ==> d.loaded == old(d.loaded) && d.friends == old(d.friends) && d.memberGroups == old(d.memberGroups)
    ensures ok ==>
              var groupMembers := FetchedMembers(bot.value, bot.value.groups.value);
              && d.loaded && (forall u :: u in d.friends <==> u in bot.value.friends.value)
              && Inverts(groupMembers, d.memberGroups) && |Positions(d.memberGroups)| == |Memberships(groupMembers)|
  {
    if bot.None? || bot.value.friends.None? || bot.value.groups.None? {
      return false;
    }
    var groupMembers := FetchMembers(bot.value, bot.value.groups.value);
    var index := BuildMemberGroups(groupMembers);
    d.Replace(bot.value.friends.value, index);
    EdgesInvert(groupMembers, index);
    return true;
  }

  /** On an inverse index the sorted copy handed out is the entry itself. */
  lemma GroupsOfInverse(gm: Index, out: Index, userID: int)
    requires Inverts(gm, out)
    ensures var groups := if userID in out then SortBy(AT_MOST, out[userID]) else [];
            Ascending(groups) && forall g :: g in groups <==> Lists(gm, g, userID)
  {
    assert forall g :: Lists(out, userID, g) <==> Lists(gm, g, userID);
    if userID in out {
      SortFixes(AT_MOST, out[userID]);
    }
  }
}
