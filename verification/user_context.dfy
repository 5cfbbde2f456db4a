/**
 * The local profile list of src/context/UserContext.tsx: the profiles and
 * the active profile id, kept as plain state (their localStorage copy is not
 * modelled). JavaScript `TypeError`s are `None` results.
 */
module UserContext {
  import opened Wrappers
  import opened Seqs
  import Text

  datatype Profile = Profile(id: string, name: string, avatar: string, color: string)

  datatype Profiles = Profiles(users: seq<Profile>, activeId: string)

  const DefaultProfile := Profile("default", "Main", "\U{1F464}", "bg-indigo-500")

  /** `DEFAULT_USERS` with the `'default'` id active. */
  const Initial := Profiles([DefaultProfile], "default")

  const Colors: seq<string> := ["bg-pink-500", "bg-cyan-500", "bg-emerald-500", "bg-orange-500", "bg-purple-500"]

  /** `currentUser`: the profile with the active id, else the first profile; `None` (undefined) for an empty list. */
  function CurrentUser(st: Profiles): (r: Option<Profile>)
    ensures r.None? <==> |st.users| == 0
    ensures r.Some? ==> r.value in st.users
    ensures (exists i :: 0 <= i < |st.users| && st.users[i].id == st.activeId) ==>
      r.Some? && r.value.id == st.activeId &&
      exists i :: 0 <= i < |st.users| && st.users[i] == r.value &&
        forall k :: 0 <= k < i ==> st.users[k].id != st.activeId
    ensures 0 < |st.users| && (forall i :: 0 <= i < |st.users| ==> st.users[i].id != st.activeId) ==>
      r == Some(st.users[0])
  {
    match IndexOf(st.users, (p: Profile) => p.id == st.activeId)
    case Some(i) => Some(st.users[i])
    case None => if |st.users| > 0 then Some(st.users[0]) else None
  }

  /**
   * `addUser(name)` with the fresh `Date.now()` id and the randomly picked
   * colour as parameters: appends one profile whose avatar is the first
   * character of the name, upper-cased, and makes it active.
   */
  function AddUser(st: Profiles, name: string, id: string, colorPick: nat): (r: Profiles)
    requires |name| > 0
    requires colorPick < |Colors|
    ensures |r.users| == |st.users| + 1 && r.users[..|st.users|] == st.users
    ensures r.users[|st.users|].id == id && r.users[|st.users|].name == name
    ensures r.users[|st.users|].avatar == [Text.UpperAscii(name[0])]
    ensures r.users[|st.users|].color in Colors
    ensures r.activeId == id
  {
    var p := Profile(id, name, [Text.UpperAscii(name[0])], Colors[colorPick]);
    Profiles(st.users + [p], id)
  }

  /** `switchUser(id)`: only the active id changes; the id is not checked against the list. */
  function SwitchUser(st: Profiles, id: string): (r: Profiles)
    ensures r.users == st.users && r.activeId == id
  {
    st.(activeId := id)
  }

  /**
   * `deleteUser(id)`: a no-op for one profile or fewer; otherwise every
   * profile with the id goes and the rest stay in order, and when the active
   * profile was deleted the first remaining one becomes active (`None` when
   * nothing remains to read an id from).
   */
  function DeleteUser(st: Profiles, id: string): (r: Option<Profiles>)
    ensures |st.users| <= 1 ==> r == Some(st)
    ensures |st.users| > 1 && r.Some? ==>
      && (forall i :: 0 <= i < |r.value.users| ==> r.value.users[i] in st.users && r.value.users[i].id != id)
      && (forall i :: 0 <= i < |st.users| && st.users[i].id != id ==>
            multiset(r.value.users)[st.users[i]] == multiset(st.users)[st.users[i]])
    ensures |st.users| > 1 && r.Some? ==> Subsequence(r.value.users, st.users)
    ensures |st.users| > 1 && st.activeId != id ==> r.Some? && r.value.activeId == st.activeId
    ensures |st.users| > 1 && st.activeId == id && r.Some? ==>
      && IndexOf(st.users, OtherThan(id)).Some?
      && r.value.activeId == st.users[IndexOf(st.users, OtherThan(id)).value].id
      && |r.value.users| > 0 && r.value.activeId == r.value.users[0].id
    ensures r.None? <==>
      |st.users| > 1 && st.activeId == id && forall i :: 0 <= i < |st.users| ==> st.users[i].id == id
  {
    if |st.users| <= 1 then Some(st)
    else
      var kept := Filter(st.users, OtherThan(id));
      FilterIsSubsequence(st.users, OtherThan(id));
      FilterHead(st.users, OtherThan(id));
      var first := IndexOf(st.users, OtherThan(id));
      assert forall i :: 0 <= i < |st.users| ==> OtherThan(id)(st.users[i]) == (st.users[i].id != id);
      if st.activeId == id then
        if first.None? then
          None
        else
          Some(Profiles(kept, kept[0].id))
      else
        Some(Profiles(kept, st.activeId))
  }

  /** The `filter` test of `deleteUser`: profiles with another id stay. */
  function OtherThan(id: string): Profile -> bool
  {
    (p: Profile) => p.id != id
  }

  /** Deleting an id no profile has keeps the list; a dangling active id equal to it moves to the first profile. */
  lemma DeleteAbsentId(st: Profiles, id: string)
    requires |st.users| > 1
    requires forall i :: 0 <= i < |st.users| ==> st.users[i].id != id
    ensures DeleteUser(st, id).Some? && DeleteUser(st, id).value.users == st.users
    ensures DeleteUser(st, id).value.activeId == if st.activeId == id then st.users[0].id else st.activeId
  {
    FilterKeepsAll(st.users, OtherThan(id));
  }

  /** Profile ids are pairwise distinct. */
  ghost predicate DistinctIds(users: seq<Profile>)
  {
    forall i, j :: 0 <= i < j < |users| ==> users[i].id != users[j].id
  }

  /** The invariant the context keeps: never empty, ids distinct. */
  ghost predicate Valid(st: Profiles)
  {
    |st.users| > 0 && DistinctIds(st.users)
  }

  /** One interaction with the profile dock. */
  datatype Action =
    | Add(name: string, freshId: string, colorPick: nat)
    | Switch(id: string)
    | Delete(id: string)

  /**
   * The dock only adds a profile with a name that is not blank, and
   * `Date.now()` yields an id no existing profile has.
   */
  predicate Allowed(st: Profiles, a: Action)
  {
    a.Add? ==>
      && !Text.AllSpace(a.name) && a.colorPick < |Colors|
      && forall i :: 0 <= i < |st.users| ==> st.users[i].id != a.freshId
  }

  function Act(st: Profiles, a: Action): Option<Profiles>
    requires Allowed(st, a)
  {
    match a
    case Add(name, freshId, colorPick) => Some(AddUser(st, name, freshId, colorPick))
    case Switch(id) => Some(SwitchUser(st, id))
    case Delete(id) => DeleteUser(st, id)
  }

  /** Every allowed action on a valid list succeeds and leaves it valid. */
  lemma ActKeepsValid(st: Profiles, a: Action)
    requires Valid(st) && Allowed(st, a)
    ensures Act(st, a).Some? && Valid(Act(st, a).value)
  {
    match a
    case Add(name, freshId, colorPick) =>
      var users' := AddUser(st, name, freshId, colorPick).users;
      assert forall i :: 0 <= i < |st.users| ==> users'[i] == st.users[i];
    case Switch(id) =>
    case Delete(id) => DeleteKeepsValid(st, id);
  }

  /** Deleting from a valid list succeeds and leaves it valid. */
  lemma DeleteKeepsValid(st: Profiles, id: string)
    requires Valid(st)
    ensures DeleteUser(st, id).Some? && Valid(DeleteUser(st, id).value)
  {
    if |st.users| > 1 {
      assert st.users[0].id != st.users[1].id;
      var r := DeleteUser(st, id).value;
      assert |r.users| > 0 by {
        var k := if st.users[0].id != id then 0 else 1;
        assert multiset(r.users)[st.users[k]] == multiset(st.users)[st.users[k]] > 0;
      }
      forall i, j | 0 <= i < j < |r.users| ensures r.users[i].id != r.users[j].id {
        DistinctIdsNoRepeat(st.users, r.users, i, j);
      }
    }
  }

  /** A list drawn from a list with distinct ids, without repeating an element, has distinct ids. */
  lemma DistinctIdsNoRepeat(users: seq<Profile>, kept: seq<Profile>, i: nat, j: nat)
    requires DistinctIds(users)
    requires i < j < |kept|
    requires forall k :: 0 <= k < |kept| ==> kept[k] in users
    requires forall k :: 0 <= k < |kept| ==> multiset(kept)[kept[k]] <= multiset(users)[kept[k]]
    ensures kept[i].id != kept[j].id
  {
    assert kept[i] in users && kept[j] in users;
    var a :| 0 <= a < |users| && users[a] == kept[i];
    var b :| 0 <= b < |users| && users[b] == kept[j];
    MultisetOfDistinct(users, a);
    CountTwoPositions(kept, i, j);
    assert kept[i] != kept[j];
    assert a != b;
    if a < b {
      assert users[a].id != users[b].id;
    } else {
      assert users[b].id != users[a].id;
    }
  }

  /** An element found again at a later position occurs at least twice. */
  lemma CountTwoPositions<T>(s: seq<T>, i: nat, j: nat)
    requires i < j < |s|
    ensures multiset(s)[s[i]] >= if s[i] == s[j] then 2 else 1
  {
    assert s == s[..i] + [s[i]] + s[i + 1..j] + [s[j]] + s[j + 1..];
  }

  /** In a list with distinct ids, each profile occurs once. */
  lemma {:induction false} MultisetOfDistinct(users: seq<Profile>, a: nat)
    requires DistinctIds(users) && a < |users|
    ensures multiset(users)[users[a]] == 1
  {
    if a == 0 {
      assert users == [users[0]] + users[1..];
      assert users[0] !in users[1..] by {
        forall k | 1 <= k < |users| ensures users[k] != users[0] { }
      }
    } else {
      assert users == [users[0]] + users[1..];
      assert users[1..][a - 1] == users[a];
      MultisetOfDistinct(users[1..], a - 1);
    }
  }

  /** Actions applied in order, stopping at a `TypeError`. */
  function Replay(st: Profiles, acts: seq<Action>): Option<Profiles>
    decreases |acts|
  {
    if |acts| == 0 then Some(st)
    else if !Allowed(st, acts[0]) then None
    else match Act(st, acts[0])
      case None => None
      case Some(st') => Replay(st', acts[1..])
  }

  /** Every action sequence allowed by the dock from a valid list keeps it valid, hence non-empty. */
  lemma {:induction false} ReplayKeepsValid(st: Profiles, acts: seq<Action>)
    requires Valid(st)
    requires AllowedAlong(st, acts)
    ensures Replay(st, acts).Some? && Valid(Replay(st, acts).value)
    decreases |acts|
  {
    if |acts| > 0 {
      ActKeepsValid(st, acts[0]);
      ReplayKeepsValid(Act(st, acts[0]).value, acts[1..]);
    }
  }

  /** Each action is allowed in the state it meets (nothing is asked of the steps after a failed one). */
  ghost predicate AllowedAlong(st: Profiles, acts: seq<Action>)
    decreases |acts|
  {
    |acts| == 0 ||
      (Allowed(st, acts[0]) &&
        match Act(st, acts[0])
        case None => true
        case Some(st') => AllowedAlong(st', acts[1..]))
  }

  /** Starting from the single default profile, the list is never emptied and `currentUser` always exists. */
  lemma NeverEmpty(acts: seq<Action>)
    requires AllowedAlong(Initial, acts)
    ensures Replay(Initial, acts).Some?
    ensures |Replay(Initial, acts).value.users| > 0
    ensures CurrentUser(Replay(Initial, acts).value).Some?
  {
    ReplayKeepsValid(Initial, acts);
  }
}
