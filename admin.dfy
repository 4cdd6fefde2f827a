/**
 * The administrator's user list: the case-insensitive search and name
 * filter, the role of each user, the sign-ups counted per day, and the
 * actions each row offers.
 */
module Admin {
  import opened Wrappers
  import opened Seqs
  import opened Text

  datatype Status = Pending | Approved | Declined

  /** The two roles a `user_roles` row can hold. */
  datatype Role = AdminRole | UserRole

  /** A row of `profiles`; `created_at` and `last_login` are abstract day keys. */
  datatype Profile = Profile(
    id: string,
    email: string,
    fullName: Option<string>,
    createdAt: int,
    status: Status,
    lastLogin: Option<int>,
    loginCount: nat)

  /** A row of `user_roles`. */
  datatype RoleRecord = RoleRecord(userId: string, role: Role)

  // ---------------------------------------------------------------------
  // filteredUsers
  // ---------------------------------------------------------------------

  /**
   * The e-mail search: empty, or contained in the lower-cased e-mail once
   * lower-cased itself. An e-mail that contains the search as typed matches;
   * a search longer than the e-mail never does.
   */
  predicate MatchesEmail(user: Profile, search: string): (m: bool)
    ensures search == "" ==> m
    ensures Contains(user.email, search) ==> m
    ensures m ==> |search| <= |user.email|
  {
    LowerContains(user.email, search);
    search == "" || Contains(Lower(user.email), Lower(search))
  }

  /**
   * The name filter: empty, or contained in the lower-cased full name. A
   * missing name never passes a non-empty filter.
   */
  predicate MatchesName(user: Profile, filter: string): (m: bool)
    ensures filter == "" ==> m
    ensures user.fullName.Some? && Contains(user.fullName.value, filter) ==> m
    ensures m && filter != "" ==> user.fullName.Some? && |filter| <= |user.fullName.value|
  {
    if filter == "" then true
    else if user.fullName.None? then false
    else
      LowerContains(user.fullName.value, filter);
      Contains(Lower(user.fullName.value), Lower(filter))
  }

  /** A user stays in the list when both filters accept it; with both empty, every user does. */
  predicate Kept(user: Profile, search: string, filter: string): (k: bool)
    ensures search == "" && filter == "" ==> k
    ensures k && filter != "" ==> user.fullName.Some?
    ensures k ==> |search| <= |user.email|
  {
    MatchesEmail(user, search) && MatchesName(user, filter)
  }

  /** `filteredUsers`: the users both the search and the name filter accept. */
  function FilteredUsers(users: seq<Profile>, search: string, filter: string): (r: seq<Profile>)
    ensures |r| <= |users|
    ensures forall u :: u in r <==> u in users && Kept(u, search, filter)
    decreases |users|
  {
    if users == [] then []
    else
      var last := users[|users| - 1];
      var kept := FilteredUsers(users[..|users| - 1], search, filter);
      if Kept(last, search, filter) then kept + [last] else kept
  }

  /** `idx` picks the elements of `r` out of `s`, at increasing positions. */
  ghost predicate Embeds<T>(idx: seq<nat>, r: seq<T>, s: seq<T>) {
    && |idx| == |r|
    && (forall k :: 0 <= k < |idx| ==> idx[k] < |s| && r[k] == s[idx[k]])
    && (forall k, l :: 0 <= k < l < |idx| ==> idx[k] < idx[l])
  }

  /** `r` is `s` with some elements dropped and the rest in their order. */
  ghost predicate IsSubsequence<T>(r: seq<T>, s: seq<T>) {
    exists idx: seq<nat> :: Embeds(idx, r, s)
  }

  lemma EmbedsGrow<T>(idx: seq<nat>, r: seq<T>, s: seq<T>, x: T)
    requires Embeds(idx, r, s)
    ensures Embeds(idx, r, s + [x])
    ensures Embeds(idx + [|s|], r + [x], s + [x])
  {
  }

  /** The filtered list is a subsequence of `users`, in the original order. */
  lemma {:induction false} FilteredIsSubsequence(users: seq<Profile>, search: string, filter: string)
    ensures IsSubsequence(FilteredUsers(users, search, filter), users)
    decreases |users|
  {
    if users == [] {
      assert Embeds([], FilteredUsers(users, search, filter), users);
    } else {
      var init, last := users[..|users| - 1], users[|users| - 1];
      assert init + [last] == users;
      FilteredIsSubsequence(init, search, filter);
      var idx: seq<nat> :| Embeds(idx, FilteredUsers(init, search, filter), init);
      EmbedsGrow(idx, FilteredUsers(init, search, filter), init, last);
      if Kept(last, search, filter) {
        assert Embeds(idx + [|init|], FilteredUsers(users, search, filter), users);
      } else {
        assert Embeds(idx, FilteredUsers(users, search, filter), users);
      }
    }
  }

  /** Filtering the concatenation filters each part in place. */
  lemma {:induction false} FilterAppend(a: seq<Profile>, b: seq<Profile>, search: string, filter: string)
    ensures FilteredUsers(a + b, search, filter) == FilteredUsers(a, search, filter) + FilteredUsers(b, search, filter)
    decreases |b|
  {
    if b == [] {
      assert a + b == a;
    } else {
      var init, last := b[..|b| - 1], b[|b| - 1];
      assert (a + b)[..|a + b| - 1] == a + init;
      FilterAppend(a, init, search, filter);
    }
  }

  /** An empty search and an empty name filter keep every user. */
  lemma {:induction false} EmptyFiltersKeepAll(users: seq<Profile>)
    ensures FilteredUsers(users, "", "") == users
    decreases |users|
  {
    if users != [] {
      EmptyFiltersKeepAll(users[..|users| - 1]);
    }
  }

  /** A user without a name never passes a non-empty name filter. */
  lemma NullNameExcluded(users: seq<Profile>, search: string, filter: string, u: Profile)
    requires filter != "" && u.fullName.None?
    ensures u !in FilteredUsers(users, search, filter)
  {
  }

  /** Lower-casing keeps the length, so an empty text stays the only one that lower-cases to "". */
  lemma LowerEmpty(s: string)
    ensures Lower(s) == "" <==> s == ""
  {
  }

  /** Two pairs of inputs that accept the same users filter alike. */
  lemma {:induction false} FilterAgrees(users: seq<Profile>, s1: string, f1: string, s2: string, f2: string)
    requires forall k :: 0 <= k < |users| ==> (Kept(users[k], s1, f1) <==> Kept(users[k], s2, f2))
    ensures FilteredUsers(users, s1, f1) == FilteredUsers(users, s2, f2)
    decreases |users|
  {
    if users != [] {
      FilterAgrees(users[..|users| - 1], s1, f1, s2, f2);
    }
  }

  /** Search and name filter ignore case: inputs that lower-case alike select the same users. */
  lemma FilterIgnoresCase(users: seq<Profile>, s1: string, f1: string, s2: string, f2: string)
    requires Lower(s1) == Lower(s2) && Lower(f1) == Lower(f2)
    ensures FilteredUsers(users, s1, f1) == FilteredUsers(users, s2, f2)
  {
    LowerEmpty(s1);
    LowerEmpty(s2);
    LowerEmpty(f1);
    LowerEmpty(f2);
    FilterAgrees(users, s1, f1, s2, f2);
  }

  // ---------------------------------------------------------------------
  // getUserRole
  // ---------------------------------------------------------------------

  /** The first admin row of the user in `userRoles`, as its index. */
  function FindAdminRecord(roles: seq<RoleRecord>, userId: string): (r: Option<nat>)
    ensures r.Some? ==> r.value < |roles| && roles[r.value] == RoleRecord(userId, AdminRole)
    ensures r.Some? ==> forall k :: 0 <= k < r.value ==> roles[k] != RoleRecord(userId, AdminRole)
    ensures r.None? <==> RoleRecord(userId, AdminRole) !in roles
  {
    if roles == [] then None
    else if roles[0].userId == userId && roles[0].role == AdminRole then Some(0)
    else match FindAdminRecord(roles[1..], userId)
      case None => None
      case Some(k) => Some(k + 1)
  }

  /** 'admin' exactly when an admin record for the user exists, 'user' otherwise. */
  function GetUserRole(roles: seq<RoleRecord>, userId: string): (r: Role)
    ensures r == AdminRole <==> RoleRecord(userId, AdminRole) in roles
    ensures r == UserRole <==> RoleRecord(userId, AdminRole) !in roles
  {
    if FindAdminRecord(roles, userId).Some? then AdminRole else UserRole
  }

  /** Another user's records never change a user's role. */
  lemma RoleIgnoresOtherUsers(roles: seq<RoleRecord>, extra: seq<RoleRecord>, userId: string)
    requires forall k :: 0 <= k < |extra| ==> extra[k].userId != userId
    ensures GetUserRole(roles + extra, userId) == GetUserRole(roles, userId)
  {
    assert RoleRecord(userId, AdminRole) !in extra;
  }

  /**
   * `handleToggleAdmin` on the `user_roles` rows: deleting every admin row
   * of the user when they are an admin, inserting one otherwise.
   */
  function ToggleAdminRecords(roles: seq<RoleRecord>, userId: string, isCurrentlyAdmin: bool): (r: seq<RoleRecord>)
    ensures !isCurrentlyAdmin ==> r == roles + [RoleRecord(userId, AdminRole)]
    ensures isCurrentlyAdmin ==> forall x :: x in r <==> x in roles && x != RoleRecord(userId, AdminRole)
    decreases |roles|
  {
    if !isCurrentlyAdmin then roles + [RoleRecord(userId, AdminRole)]
    else if roles == [] then []
    else
      var rest := ToggleAdminRecords(roles[1..], userId, true);
      if roles[0] == RoleRecord(userId, AdminRole) then rest else [roles[0]] + rest
  }

  /** The button's flag is the displayed role, so toggling flips the role and leaves the others. */
  lemma ToggleFlipsRole(roles: seq<RoleRecord>, userId: string, other: string)
    ensures GetUserRole(ToggleAdminRecords(roles, userId, GetUserRole(roles, userId) == AdminRole), userId)
            != GetUserRole(roles, userId)
    ensures other != userId ==>
              GetUserRole(ToggleAdminRecords(roles, userId, GetUserRole(roles, userId) == AdminRole), other)
              == GetUserRole(roles, other)
  {
  }

  // ---------------------------------------------------------------------
  // Row actions and status updates
  // ---------------------------------------------------------------------

  /** The buttons of a row: approve, decline, the admin toggle, reset e-mail, delete. */
  datatype Action = Approve | Decline | MakeAdmin | RemoveAdmin | SendResetEmail | Delete

  /** The buttons shown for a user of the given status and role, in screen order. */
  function RowActions(status: Status, role: Role): (actions: seq<Action>)
    ensures Approve in actions <==> status == Pending
    ensures Decline in actions <==> status == Pending
    ensures MakeAdmin in actions <==> status == Approved && role == UserRole
    ensures RemoveAdmin in actions <==> status == Approved && role == AdminRole
    ensures SendResetEmail in actions && Delete in actions
    ensures actions[|actions| - 2..] == [SendResetEmail, Delete]
  {
    match status
    case Pending =>
      var a := [Approve, Decline, SendResetEmail, Delete];
      assert a[0] == Approve && a[1] == Decline && a[2] == SendResetEmail && a[3] == Delete;
      a
    case Approved =>
      var a := [if role == AdminRole then RemoveAdmin else MakeAdmin, SendResetEmail, Delete];
      assert a[1] == SendResetEmail && a[2] == Delete;
      assert a[0] in a;
      a
    case Declined =>
      var a := [SendResetEmail, Delete];
      assert a[0] == SendResetEmail && a[1] == Delete;
      a
  }

  /** A row never offers a review and the admin toggle together, and offers at most one toggle. */
  lemma ReviewAndToggleExclusive(status: Status, role: Role)
    ensures var a := RowActions(status, role);
            !((Approve in a || Decline in a) && (MakeAdmin in a || RemoveAdmin in a))
            && !(MakeAdmin in a && RemoveAdmin in a)
  {
  }

  /** The status update of the approve and decline handlers, on the `profiles` rows. */
  function SetStatus(users: seq<Profile>, userId: string, status: Status): (r: seq<Profile>)
    ensures |r| == |users|
    ensures forall k :: 0 <= k < |r| ==>
              r[k] == if users[k].id == userId then users[k].(status := status) else users[k]
  {
    seq(|users|, k requires 0 <= k < |users| =>
      if users[k].id == userId then users[k].(status := status) else users[k])
  }

  /** Approving a pending user replaces approve and decline by the admin toggle on their row. */
  lemma ApproveOffersToggle(users: seq<Profile>, roles: seq<RoleRecord>, k: nat)
    requires k < |users| && users[k].status == Pending
    ensures var after := SetStatus(users, users[k].id, Approved)[k];
            var a := RowActions(after.status, GetUserRole(roles, after.id));
            Approve !in a && Decline !in a && (MakeAdmin in a || RemoveAdmin in a)
  {
  }

  // ---------------------------------------------------------------------
  // growthMap
  // ---------------------------------------------------------------------

  /** One entry of the growth map: a day and the users created on it. */
  datatype GrowthPoint = GrowthPoint(date: int, count: nat)

  predicate DistinctDates(growth: seq<GrowthPoint>) {
    forall k, l :: 0 <= k < l < |growth| ==> growth[k].date != growth[l].date
  }

  function Dates(growth: seq<GrowthPoint>): set<int> {
    set k | 0 <= k < |growth| :: growth[k].date
  }

  /** The "new users" figure: the counts of the growth entries added up. */
  function Total(growth: seq<GrowthPoint>): nat
    decreases |growth|
  {
    if growth == [] then 0 else Total(growth[..|growth| - 1]) + growth[|growth| - 1].count
  }

  lemma TotalAppend(growth: seq<GrowthPoint>, p: GrowthPoint)
    ensures Total(growth + [p]) == Total(growth) + p.count
  {
    assert (growth + [p])[..|growth|] == growth;
  }

  /** Changing one entry's count changes the total by the same amount. */
  lemma {:induction false} TotalUpdate(growth: seq<GrowthPoint>, j: nat, p: GrowthPoint)
    requires j < |growth|
    ensures Total(growth[j := p]) == Total(growth) - growth[j].count + p.count
    decreases |growth|
  {
    var n := |growth|;
    if j < n - 1 {
      assert growth[j := p][..n - 1] == growth[..n - 1][j := p];
      TotalUpdate(growth[..n - 1], j, p);
    } else {
      assert growth[j := p][..n - 1] == growth[..n - 1];
    }
  }

  lemma DatesAppend(growth: seq<GrowthPoint>, p: GrowthPoint)
    ensures Dates(growth + [p]) == Dates(growth) + {p.date}
  {
    var g := growth + [p];
    assert g[|growth|].date == p.date;
    forall d | d in Dates(growth) ensures d in Dates(g) {
      var k :| 0 <= k < |growth| && growth[k].date == d;
      assert g[k].date == d;
    }
  }

  /** Changing an entry's count keeps the set of days. */
  lemma DatesUpdate(growth: seq<GrowthPoint>, j: nat, p: GrowthPoint)
    requires j < |growth| && p.date == growth[j].date
    ensures Dates(growth[j := p]) == Dates(growth)
  {
    var g := growth[j := p];
    forall d | d in Dates(growth) ensures d in Dates(g) {
      var k :| 0 <= k < |growth| && growth[k].date == d;
      assert g[k].date == d;
    }
  }

  /** The growth-map lookup of a day, as the index of its entry. */
  function FindDate(growth: seq<GrowthPoint>, d: int): (r: Option<nat>)
    ensures r.Some? ==> r.value < |growth| && growth[r.value].date == d
    ensures r.None? <==> d !in Dates(growth)
  {
    if growth == [] then None
    else if growth[0].date == d then Some(0)
    else match FindDate(growth[1..], d)
      case None =>
        assert Dates(growth) == {growth[0].date} + Dates(growth[1..]);
        None
      case Some(k) => Some(k + 1)
  }

  /**
   * `growth` tallies the days in `seen`: one entry per distinct day, each
   * holding how many times its day occurs, the counts adding up to `|seen|`.
   */
  ghost predicate Tallies(growth: seq<GrowthPoint>, seen: seq<int>) {
    && DistinctDates(growth)
    && (forall d :: d in Dates(growth) <==> d in seen)
    && (forall k :: 0 <= k < |growth| ==> growth[k].count == multiset(seen)[growth[k].date])
    && Total(growth) == |seen|
  }

  /** A day not seen before gets a new entry with count one. */
  lemma TallyNewDay(growth: seq<GrowthPoint>, seen: seq<int>, date: int)
    requires Tallies(growth, seen) && date !in Dates(growth)
    ensures Tallies(growth + [GrowthPoint(date, 1)], seen + [date])
  {
    var p := GrowthPoint(date, 1);
    var g := growth + [p];
    TotalAppend(growth, p);
    DatesAppend(growth, p);
    forall k | 0 <= k < |growth| ensures g[k].date != date {
      assert growth[k].date in Dates(growth);
    }
    forall k | 0 <= k < |g| ensures g[k].count == multiset(seen + [date])[g[k].date] {
      if k < |growth| {
        assert g[k] == growth[k];
      }
    }
  }

  /** A day seen before has its entry's count raised by one. */
  lemma TallySeenDay(growth: seq<GrowthPoint>, seen: seq<int>, j: nat)
    requires Tallies(growth, seen) && j < |growth|
    ensures Tallies(growth[j := GrowthPoint(growth[j].date, growth[j].count + 1)], seen + [growth[j].date])
  {
    var date := growth[j].date;
    var p := GrowthPoint(date, growth[j].count + 1);
    var g := growth[j := p];
    TotalUpdate(growth, j, p);
    DatesUpdate(growth, j, p);
    assert date in seen by { assert date in Dates(growth); }
    forall k | 0 <= k < |g| ensures g[k].count == multiset(seen + [date])[g[k].date] {
      if k != j {
        assert g[k] == growth[k] && growth[k].date != date;
      }
    }
  }

  /** Every tallied day was seen, so its count is positive. */
  lemma TalliedCountsPositive(growth: seq<GrowthPoint>, seen: seq<int>)
    requires Tallies(growth, seen)
    ensures forall k :: 0 <= k < |growth| ==> growth[k].count > 0
  {
    forall k | 0 <= k < |growth| ensures growth[k].count > 0 {
      assert growth[k].date in Dates(growth);
    }
  }

  /**
   * The `forEach` that fills `growthMap`: each profile's day is counted
   * once, under one entry per day, in the order days were first seen.
   */
  method GrowthData(createdAt: seq<int>) returns (growth: seq<GrowthPoint>)
    ensures DistinctDates(growth)
    ensures forall d :: d in Dates(growth) <==> d in createdAt
    ensures forall k :: 0 <= k < |growth| ==> growth[k].count == multiset(createdAt)[growth[k].date] > 0
    ensures Total(growth) == |createdAt|
  {
    growth := [];
    var i := 0;
    while i < |createdAt|
      invariant 0 <= i <= |createdAt|
      invariant Tallies(growth, createdAt[..i])
    {
      var date := createdAt[i];
      PrefixStep(createdAt, i);
      match FindDate(growth, date) {
        case None =>
          TallyNewDay(growth, createdAt[..i], date);
          growth := growth + [GrowthPoint(date, 1)];
        case Some(j) =>
          TallySeenDay(growth, createdAt[..i], j);
          growth := growth[j := GrowthPoint(date, growth[j].count + 1)];
      }
      i := i + 1;
    }
    assert createdAt[..i] == createdAt;
    TalliedCountsPositive(growth, createdAt);
  }
}
