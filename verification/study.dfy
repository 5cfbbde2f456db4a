/**
 * The backend of convex/study.ts over the three tables of convex/schema.ts.
 *
 * Each table is a sequence of records in insertion order, so a lookup through
 * an index followed by `.first()` is "the first record whose field equals the
 * key"; a patch keeps the record in place and an insert appends. Every
 * mutation is a pure function from the database to the new database and the
 * reply the client sees, run atomically; every query is a function of the
 * database. System fields (`_id`, `_creationTime`) are not modelled.
 */
module Study {
  import opened Wrappers
  import opened Seqs

  datatype User = User(email: string, name: string, username: string)
  datatype Stat = Stat(email: string, minutes: int, song: string, status: string)
  datatype Theme = Theme(kind: string, value: string)
  datatype Link = Link(user1: string, user2: string, theme: Theme)
  datatype Db = Db(users: seq<User>, stats: seq<Stat>, links: seq<Link>)

  /** `{ success, message? }` as returned by the mutations. */
  datatype Reply = Reply(success: bool, message: Option<string>)

  /** `resolveInvite`'s public projection of a user. */
  datatype Invite = Invite(email: string, name: string)

  /** A partner's live presence as `getSpace` reports it. */
  datatype Presence = Presence(email: string, status: string, minutes: int, song: string)

  /** `getSpace`'s answer: `{status: "solo", ...}` or `{status: "linked", theme, partner}`. */
  datatype Space = Solo | Linked(theme: Theme, partner: Presence)

  const UsernameTaken := "Username taken"
  const UserNotFound := "User not found. Check the username."
  const SelfLink := "You cannot add yourself."
  const AlreadyConnected := "Already connected!"
  const DefaultTheme := Theme("video", "https://motionbgs.com/media/8/son-goku-ultra-power.mp4")
  const Offline := "Offline"

  const EmptyDb := Db([], [], [])

  // ---------------------------------------------------------------- lookups

  function UserByEmail(users: seq<User>, email: string): Option<nat>
  {
    IndexOf(users, (u: User) => u.email == email)
  }

  function UserByUsername(users: seq<User>, username: string): Option<nat>
  {
    IndexOf(users, (u: User) => u.username == username)
  }

  function StatByEmail(stats: seq<Stat>, email: string): Option<nat>
  {
    IndexOf(stats, (s: Stat) => s.email == email)
  }

  predicate HasEmail(users: seq<User>, email: string)
  {
    exists i :: 0 <= i < |users| && users[i].email == email
  }

  predicate HasUsername(users: seq<User>, username: string)
  {
    exists i :: 0 <= i < |users| && users[i].username == username
  }

  predicate HasStat(stats: seq<Stat>, email: string)
  {
    exists i :: 0 <= i < |stats| && stats[i].email == email
  }

  /** `users[i]` is the first user with this email. */
  predicate FirstWithEmail(users: seq<User>, i: int, email: string)
  {
    0 <= i < |users| && users[i].email == email && forall k :: 0 <= k < i ==> users[k].email != email
  }

  /** `users[i]` is the first user with this username. */
  predicate FirstWithUsername(users: seq<User>, i: int, username: string)
  {
    0 <= i < |users| && users[i].username == username && forall k :: 0 <= k < i ==> users[k].username != username
  }

  /** `stats[i]` is the first stats row with this email. */
  predicate FirstStat(stats: seq<Stat>, i: int, email: string)
  {
    0 <= i < |stats| && stats[i].email == email && forall k :: 0 <= k < i ==> stats[k].email != email
  }

  /** `email` is one side of link `l`. */
  predicate Involves(l: Link, email: string)
  {
    l.user1 == email || l.user2 == email
  }

  /** Link `l` joins `a` and `b`, in either orientation. */
  predicate Joins(l: Link, a: string, b: string)
  {
    (l.user1 == a && l.user2 == b) || (l.user1 == b && l.user2 == a)
  }

  predicate Connected(links: seq<Link>, a: string, b: string)
  {
    exists k :: 0 <= k < |links| && Joins(links[k], a, b)
  }

  /**
   * The link `leaveSpace`, `updateTheme` and `getSpace` act on: the first link
   * with `user1 = email`, and only when there is none, the first with `user2 = email`.
   */
  function LocateLink(links: seq<Link>, email: string): (r: Option<nat>)
    ensures r.None? <==> forall k :: 0 <= k < |links| ==> !Involves(links[k], email)
    ensures r.Some? ==> r.value < |links| && Involves(links[r.value], email)
    ensures r.Some? && links[r.value].user1 == email ==>
      forall k :: 0 <= k < r.value ==> links[k].user1 != email
    ensures r.Some? && links[r.value].user1 != email ==>
      (forall k :: 0 <= k < |links| ==> links[k].user1 != email) &&
      (forall k :: 0 <= k < r.value ==> links[k].user2 != email)
  {
    match IndexOf(links, (l: Link) => l.user1 == email)
    case Some(i) => Some(i)
    case None => IndexOf(links, (l: Link) => l.user2 == email)
  }

  /** Links that agree on who they join are located alike, whatever their themes. */
  lemma LocateLinkIgnoresThemes(links: seq<Link>, links': seq<Link>, email: string)
    requires |links| == |links'|
    requires forall k :: 0 <= k < |links| ==> links[k].user1 == links'[k].user1 && links[k].user2 == links'[k].user2
    ensures LocateLink(links, email) == LocateLink(links', email)
  {
    assert forall k :: 0 <= k < |links| ==> (Involves(links[k], email) <==> Involves(links'[k], email));
  }

  // ---------------------------------------------------------------- users

  /**
   * `registerUser`: any holder of the username, even the caller's own record,
   * makes it fail with nothing written; otherwise the first record with the
   * email has its name and username patched, or a new user is inserted.
   */
  function RegisterUser(db: Db, email: string, name: string, username: string): (r: (Db, Reply))
    ensures r.0.stats == db.stats && r.0.links == db.links
    ensures HasUsername(db.users, username) ==> r == (db, Reply(false, Some(UsernameTaken)))
    ensures !HasUsername(db.users, username) ==> r.1 == Reply(true, None)
    ensures !HasUsername(db.users, username) && HasEmail(db.users, email) ==>
      |r.0.users| == |db.users| &&
      forall j :: 0 <= j < |db.users| ==>
        r.0.users[j] == if FirstWithEmail(db.users, j, email) then User(email, name, username) else db.users[j]
    ensures !HasUsername(db.users, username) && !HasEmail(db.users, email) ==>
      r.0.users == db.users + [User(email, name, username)]
  {
    if UserByUsername(db.users, username).Some? then
      (db, Reply(false, Some(UsernameTaken)))
    else
      match UserByEmail(db.users, email)
      case Some(i) =>
        (db.(users := db.users[i := db.users[i].(name := name, username := username)]), Reply(true, None))
      case None =>
        (db.(users := db.users + [User(email, name, username)]), Reply(true, None))
  }

  /** `getUser`: the first user with the email, or null. */
  function GetUser(db: Db, email: string): (r: Option<User>)
    ensures r.None? <==> !HasEmail(db.users, email)
    ensures r.Some? ==> exists i :: FirstWithEmail(db.users, i, email) && r.value == db.users[i]
  {
    match UserByEmail(db.users, email)
    case Some(i) => Some(db.users[i])
    case None => None
  }

  /** `resolveInvite`: the email and name, and nothing else, of the first user with the username. */
  function ResolveInvite(db: Db, username: string): (r: Option<Invite>)
    ensures r.None? <==> !HasUsername(db.users, username)
    ensures r.Some? ==>
      exists i :: FirstWithUsername(db.users, i, username) && r.value == Invite(db.users[i].email, db.users[i].name)
  {
    match UserByUsername(db.users, username)
    case Some(i) => Some(Invite(db.users[i].email, db.users[i].name))
    case None => None
  }

  ghost predicate UniqueEmails(users: seq<User>)
  {
    forall i, j :: 0 <= i < j < |users| ==> users[i].email != users[j].email
  }

  ghost predicate UniqueUsernames(users: seq<User>)
  {
    forall i, j :: 0 <= i < j < |users| ==> users[i].username != users[j].username
  }

  /** `registerUser`'s check-then-write keeps emails and usernames unique. */
  lemma RegisterUserKeepsUnique(db: Db, email: string, name: string, username: string)
    requires UniqueEmails(db.users) && UniqueUsernames(db.users)
    ensures UniqueEmails(RegisterUser(db, email, name, username).0.users)
    ensures UniqueUsernames(RegisterUser(db, email, name, username).0.users)
  {
    var users := db.users;
    var users' := RegisterUser(db, email, name, username).0.users;
    if !HasUsername(users, username) && HasEmail(users, email) {
      forall i, j | 0 <= i < j < |users'|
        ensures users'[i].email != users'[j].email && users'[i].username != users'[j].username
      {
        assert users'[i].email == users[i].email && users'[j].email == users[j].email;
        if FirstWithEmail(users, i, email) {
          assert users'[j] == users[j];
        } else if FirstWithEmail(users, j, email) {
          assert users'[i] == users[i];
        } else {
          assert users'[i] == users[i] && users'[j] == users[j];
        }
      }
    } else if !HasUsername(users, username) {
      forall i, j | 0 <= i < j < |users'|
        ensures users'[i].email != users'[j].email && users'[i].username != users'[j].username
      {
        if j == |users| {
          assert users'[i] == users[i];
        }
      }
    }
  }

  /** Read-your-writes: after a successful registration the user reads back as registered. */
  lemma RegisterThenLookup(db: Db, email: string, name: string, username: string)
    requires !HasUsername(db.users, username)
    ensures GetUser(RegisterUser(db, email, name, username).0, email) == Some(User(email, name, username))
    ensures ResolveInvite(RegisterUser(db, email, name, username).0, username) == Some(Invite(email, name))
  {
    var users := db.users;
    var users' := RegisterUser(db, email, name, username).0.users;
    var db' := RegisterUser(db, email, name, username).0;
    match UserByEmail(users, email)
    case Some(f) =>
      assert FirstWithEmail(users, f, email);
      assert forall j :: 0 <= j < |users| && j != f ==> users'[j] == users[j];
      assert users'[f] == User(email, name, username);
      assert UserByEmail(users', email) == Some(f);
      assert forall j :: 0 <= j < |users'| && j != f ==> users'[j].username != username;
      assert UserByUsername(users', username) == Some(f);
    case None =>
      assert users' == users + [User(email, name, username)];
      assert forall j :: 0 <= j < |users| ==> users'[j] == users[j] && users[j].email != email;
      var r := UserByEmail(users', email);
      assert users'[|users|].email == email;
      assert r.Some?;
      assert r.value >= |users|;
      assert UserByUsername(users', username) == Some(|users|);
  }

  /** With unique emails, `getUser` finds the one user holding the email. */
  lemma GetUserOfUnique(db: Db, u: User)
    requires UniqueEmails(db.users)
    requires u in db.users
    ensures GetUser(db, u.email) == Some(u)
  {
    var j :| 0 <= j < |db.users| && db.users[j] == u;
    assert db.users[j].email == u.email;
    var i := UserByEmail(db.users, u.email).value;
    assert db.users[i].email == u.email;
    assert i == j;
  }

  // ---------------------------------------------------------------- links

  /**
   * `addFriend`: an unknown username or the caller's own username fails with
   * nothing written; a link between the two in either orientation is reported
   * as already connected with nothing written; otherwise exactly one link
   * `{user1: myEmail, user2: friendEmail}` with the default theme is appended.
   */
  function AddFriend(db: Db, myEmail: string, friendUsername: string): (r: (Db, Reply))
    ensures r.0.users == db.users && r.0.stats == db.stats
    ensures ResolveInvite(db, friendUsername).None? ==> r == (db, Reply(false, Some(UserNotFound)))
    ensures ResolveInvite(db, friendUsername).Some? && ResolveInvite(db, friendUsername).value.email == myEmail ==>
      r == (db, Reply(false, Some(SelfLink)))
    ensures ResolveInvite(db, friendUsername).Some? && ResolveInvite(db, friendUsername).value.email != myEmail ==>
      var friendEmail := ResolveInvite(db, friendUsername).value.email;
      if Connected(db.links, myEmail, friendEmail) then
        r == (db, Reply(true, Some(AlreadyConnected)))
      else
        r == (db.(links := db.links + [Link(myEmail, friendEmail, DefaultTheme)]), Reply(true, None))
  {
    match UserByUsername(db.users, friendUsername)
    case None => (db, Reply(false, Some(UserNotFound)))
    case Some(i) =>
      var friendEmail := db.users[i].email;
      if friendEmail == myEmail then
        (db, Reply(false, Some(SelfLink)))
      else
        var link1 := IndexOf(db.links, (l: Link) => l.user1 == myEmail && l.user2 == friendEmail);
        var link2 := IndexOf(db.links, (l: Link) => l.user1 == friendEmail && l.user2 == myEmail);
        if link1.Some? || link2.Some? then
          (db, Reply(true, Some(AlreadyConnected)))
        else
          (db.(links := db.links + [Link(myEmail, friendEmail, DefaultTheme)]), Reply(true, None))
  }

  /** No unordered pair of users has two links. */
  ghost predicate PairsUnique(links: seq<Link>)
  {
    forall i, j :: 0 <= i < j < |links| ==> !Joins(links[j], links[i].user1, links[i].user2)
  }

  /** Nobody is linked to themself. */
  ghost predicate NoSelfLinks(links: seq<Link>)
  {
    forall i :: 0 <= i < |links| ==> links[i].user1 != links[i].user2
  }

  /** `addFriend` never creates a second link for a pair, nor a link to oneself. */
  lemma AddFriendKeepsPairsUnique(db: Db, myEmail: string, friendUsername: string)
    requires PairsUnique(db.links) && NoSelfLinks(db.links)
    ensures PairsUnique(AddFriend(db, myEmail, friendUsername).0.links)
    ensures NoSelfLinks(AddFriend(db, myEmail, friendUsername).0.links)
  {
    var links' := AddFriend(db, myEmail, friendUsername).0.links;
    if links' != db.links {
      var friendEmail := ResolveInvite(db, friendUsername).value.email;
      assert !Connected(db.links, myEmail, friendEmail);
      forall i, j | 0 <= i < j < |links'| ensures !Joins(links'[j], links'[i].user1, links'[i].user2) {
        if j == |db.links| {
          assert !Joins(db.links[i], myEmail, friendEmail);
        }
      }
    }
  }

  /**
   * Linking is seen from both sides: when neither user is in any link, a
   * successful `addFriend` makes `getSpace` report each as the other's partner.
   */
  lemma AddFriendLinksBothSides(db: Db, a: string, friendUsername: string)
    requires ResolveInvite(db, friendUsername).Some?
    requires ResolveInvite(db, friendUsername).value.email != a
    requires forall k :: 0 <= k < |db.links| ==>
      !Involves(db.links[k], a) && !Involves(db.links[k], ResolveInvite(db, friendUsername).value.email)
    ensures var db' := AddFriend(db, a, friendUsername).0;
      var b := ResolveInvite(db, friendUsername).value.email;
      && GetSpace(db', a) == Linked(DefaultTheme, PresenceOf(db.stats, b))
      && GetSpace(db', b) == Linked(DefaultTheme, PresenceOf(db.stats, a))
  {
    var b := ResolveInvite(db, friendUsername).value.email;
    var links := db.links;
    assert forall k :: 0 <= k < |links| ==> !Joins(links[k], a, b);
    var links' := AddFriend(db, a, friendUsername).0.links;
    assert links' == links + [Link(a, b, DefaultTheme)];
    assert forall k :: 0 <= k < |links| ==> links'[k] == links[k];
    assert Involves(links'[|links|], a) && Involves(links'[|links|], b);
    assert LocateLink(links', a) == Some(|links|);
    assert LocateLink(links', b) == Some(|links|);
  }

  /** Linking is idempotent from either side: asking again writes nothing and succeeds. */
  lemma AddFriendIdempotent(db: Db, a: string, b: string, usernameA: string, usernameB: string)
    requires ResolveInvite(db, usernameB).Some? && ResolveInvite(db, usernameB).value.email == b
    requires ResolveInvite(db, usernameA).Some? && ResolveInvite(db, usernameA).value.email == a
    requires a != b
    ensures var db' := AddFriend(db, a, usernameB).0;
      && AddFriend(db', a, usernameB) == (db', Reply(true, Some(AlreadyConnected)))
      && AddFriend(db', b, usernameA) == (db', Reply(true, Some(AlreadyConnected)))
  {
    var db' := AddFriend(db, a, usernameB).0;
    assert ResolveInvite(db', usernameB) == ResolveInvite(db, usernameB);
    assert ResolveInvite(db', usernameA) == ResolveInvite(db, usernameA);
    assert Connected(db'.links, a, b) by {
      if !Connected(db.links, a, b) {
        assert Joins(db'.links[|db.links|], a, b);
      }
    }
    assert Connected(db'.links, b, a) by {
      var k :| 0 <= k < |db'.links| && Joins(db'.links[k], a, b);
      assert Joins(db'.links[k], b, a);
    }
  }

  /**
   * `leaveSpace`: deletes the located link (first with `user1 = email`, else
   * first with `user2 = email`) and nothing else; a no-op when there is none.
   */
  function LeaveSpace(db: Db, email: string): (r: Db)
    ensures r.users == db.users && r.stats == db.stats
    ensures LocateLink(db.links, email).None? ==> r == db
    ensures LocateLink(db.links, email).Some? ==> r.links == RemoveAt(db.links, LocateLink(db.links, email).value)
  {
    match LocateLink(db.links, email)
    case None => db
    case Some(i) => db.(links := db.links[..i] + db.links[i + 1..])
  }

  /**
   * `updateTheme`: re-themes the located link only, leaving who it joins and
   * every other link as they were; a no-op when there is none.
   */
  function UpdateTheme(db: Db, email: string, kind: string, value: string): (r: Db)
    ensures r.users == db.users && r.stats == db.stats && |r.links| == |db.links|
    ensures LocateLink(db.links, email).None? ==> r == db
    ensures LocateLink(db.links, email).Some? ==>
      var i := LocateLink(db.links, email).value;
      && r.links[i] == Link(db.links[i].user1, db.links[i].user2, Theme(kind, value))
      && forall j :: 0 <= j < |db.links| && j != i ==> r.links[j] == db.links[j]
  {
    match LocateLink(db.links, email)
    case None => db
    case Some(i) => db.(links := db.links[i := db.links[i].(theme := Theme(kind, value))])
  }

  /** Read-your-writes: a linked user sees the theme they just set. */
  lemma UpdateThemeThenGetSpace(db: Db, email: string, kind: string, value: string)
    requires LocateLink(db.links, email).Some?
    ensures GetSpace(UpdateTheme(db, email, kind, value), email).Linked?
    ensures GetSpace(UpdateTheme(db, email, kind, value), email).theme == Theme(kind, value)
  {
    LocateLinkIgnoresThemes(db.links, UpdateTheme(db, email, kind, value).links, email);
  }

  /** `email` appears in no link other than `links[k]`. */
  ghost predicate OnlyIn(links: seq<Link>, k: nat, email: string)
  {
    forall j :: 0 <= j < |links| && j != k ==> !Involves(links[j], email)
  }

  /** Leaving unlinks both sides when the pair's link is the only one either of them is in. */
  lemma LeaveSpaceUnlinksBoth(db: Db, k: nat, a: string)
    requires k < |db.links| && Involves(db.links[k], a)
    requires OnlyIn(db.links, k, db.links[k].user1) && OnlyIn(db.links, k, db.links[k].user2)
    ensures GetSpace(LeaveSpace(db, a), db.links[k].user1) == Solo
    ensures GetSpace(LeaveSpace(db, a), db.links[k].user2) == Solo
  {
    var i := LocateLink(db.links, a).value;
    assert i == k;
    var links' := LeaveSpace(db, a).links;
    forall j | 0 <= j < |links'|
      ensures !Involves(links'[j], db.links[k].user1) && !Involves(links'[j], db.links[k].user2)
    {
      if j < k { assert links'[j] == db.links[j]; } else { assert links'[j] == db.links[j + 1]; }
    }
  }

  // ---------------------------------------------------------------- presence

  /**
   * `syncStats`: upserts the caller's presence row: the first row with the
   * email is overwritten, or a row is appended when there is none.
   */
  function SyncStats(db: Db, email: string, minutes: int, song: string, status: string): (r: Db)
    ensures r.users == db.users && r.links == db.links
    ensures HasStat(db.stats, email) ==>
      |r.stats| == |db.stats| &&
      forall j :: 0 <= j < |db.stats| ==>
        r.stats[j] == if FirstStat(db.stats, j, email) then Stat(email, minutes, song, status) else db.stats[j]
    ensures !HasStat(db.stats, email) ==> r.stats == db.stats + [Stat(email, minutes, song, status)]
  {
    match StatByEmail(db.stats, email)
    case Some(i) => db.(stats := db.stats[i := Stat(email, minutes, song, status)])
    case None => db.(stats := db.stats + [Stat(email, minutes, song, status)])
  }

  ghost predicate UniqueStats(stats: seq<Stat>)
  {
    forall i, j :: 0 <= i < j < |stats| ==> stats[i].email != stats[j].email
  }

  /** The upsert keeps at most one presence row per email. */
  lemma SyncStatsKeepsUnique(db: Db, email: string, minutes: int, song: string, status: string)
    requires UniqueStats(db.stats)
    ensures UniqueStats(SyncStats(db, email, minutes, song, status).stats)
  {
    var stats' := SyncStats(db, email, minutes, song, status).stats;
    forall i, j | 0 <= i < j < |stats'| ensures stats'[i].email != stats'[j].email {
      if j == |db.stats| {
        assert stats'[i] == db.stats[i];
      } else {
        assert stats'[i].email == db.stats[i].email && stats'[j].email == db.stats[j].email;
      }
    }
  }

  /**
   * The presence shown for a partner: their first presence row under their
   * email, or Offline with zero minutes and no song when they have none.
   */
  function PresenceOf(stats: seq<Stat>, email: string): (p: Presence)
    ensures p.email == email
    ensures !HasStat(stats, email) ==> p == Presence(email, Offline, 0, "")
    ensures HasStat(stats, email) ==>
      exists i :: FirstStat(stats, i, email) && p == Presence(email, stats[i].status, stats[i].minutes, stats[i].song)
  {
    match StatByEmail(stats, email)
    case Some(i) => Presence(email, stats[i].status, stats[i].minutes, stats[i].song)
    case None => Presence(email, Offline, 0, "")
  }

  /** Read-your-writes for presence: a partner sees exactly what was last synced. */
  lemma SyncStatsThenPresence(db: Db, email: string, minutes: int, song: string, status: string)
    ensures PresenceOf(SyncStats(db, email, minutes, song, status).stats, email) == Presence(email, status, minutes, song)
  {
    var stats := db.stats;
    var stats' := SyncStats(db, email, minutes, song, status).stats;
    match StatByEmail(stats, email)
    case Some(f) =>
      assert FirstStat(stats, f, email);
      assert forall j :: 0 <= j < |stats| && j != f ==> stats'[j] == stats[j];
      assert stats'[f] == Stat(email, minutes, song, status);
      assert StatByEmail(stats', email) == Some(f);
    case None =>
      assert stats' == stats + [Stat(email, minutes, song, status)];
      assert forall j :: 0 <= j < |stats| ==> stats'[j] == stats[j] && stats[j].email != email;
      var r := StatByEmail(stats', email);
      assert stats'[|stats|].email == email;
      assert r.Some?;
      assert r.value >= |stats|;
  }

  /**
   * `getSpace`: solo exactly when no link involves the email; otherwise the
   * located link's theme and the presence of whichever side is not the caller.
   */
  function GetSpace(db: Db, email: string): (r: Space)
    ensures r.Solo? <==> forall k :: 0 <= k < |db.links| ==> !Involves(db.links[k], email)
    ensures r.Linked? ==>
      var l := db.links[LocateLink(db.links, email).value];
      && r.theme == l.theme
      && r.partner == PresenceOf(db.stats, if l.user1 == email then l.user2 else l.user1)
  {
    match LocateLink(db.links, email)
    case None => Solo
    case Some(i) =>
      var l := db.links[i];
      var partnerEmail := if l.user1 == email then l.user2 else l.user1;
      Linked(l.theme, PresenceOf(db.stats, partnerEmail))
  }

  /** The partner `getSpace` reports is always someone else when nobody is linked to themself. */
  lemma GetSpacePartnerIsOther(db: Db, email: string)
    requires NoSelfLinks(db.links)
    requires GetSpace(db, email).Linked?
    ensures GetSpace(db, email).partner.email != email
  {
    var i := LocateLink(db.links, email).value;
    assert db.links[i].user1 != db.links[i].user2;
  }

  // ---------------------------------------------------------------- whole store

  /** One backend mutation call. */
  datatype Call =
    | DoRegisterUser(email: string, name: string, username: string)
    | DoAddFriend(myEmail: string, friendUsername: string)
    | DoSyncStats(email: string, minutes: int, song: string, status: string)
    | DoLeaveSpace(email: string)
    | DoUpdateTheme(email: string, kind: string, value: string)

  function Apply(db: Db, c: Call): Db
  {
    match c
    case DoRegisterUser(e, n, u) => RegisterUser(db, e, n, u).0
    case DoAddFriend(e, u) => AddFriend(db, e, u).0
    case DoSyncStats(e, m, s, st) => SyncStats(db, e, m, s, st)
    case DoLeaveSpace(e) => LeaveSpace(db, e)
    case DoUpdateTheme(e, k, v) => UpdateTheme(db, e, k, v)
  }

  /** The calls applied in order, each atomically. */
  function Run(db: Db, calls: seq<Call>): Db
    decreases |calls|
  {
    if |calls| == 0 then db else Run(Apply(db, calls[0]), calls[1..])
  }

  /** The invariants the store keeps by check-then-write rather than by its indexes. */
  ghost predicate Consistent(db: Db)
  {
    && UniqueEmails(db.users) && UniqueUsernames(db.users)
    && UniqueStats(db.stats)
    && PairsUnique(db.links) && NoSelfLinks(db.links)
  }

  /** Deleting a link keeps the link invariants. */
  lemma RemoveAtKeepsLinkInvariants(links: seq<Link>, i: nat)
    requires i < |links|
    requires PairsUnique(links) && NoSelfLinks(links)
    ensures PairsUnique(RemoveAt(links, i)) && NoSelfLinks(RemoveAt(links, i))
  {
    var r := RemoveAt(links, i);
    forall a, b | 0 <= a < b < |r| ensures !Joins(r[b], r[a].user1, r[a].user2) {
      var a' := if a < i then a else a + 1;
      var b' := if b < i then b else b + 1;
      assert r[a] == links[a'] && r[b] == links[b'];
    }
  }

  lemma ApplyKeepsConsistent(db: Db, c: Call)
    requires Consistent(db)
    ensures Consistent(Apply(db, c))
  {
    match c
    case DoRegisterUser(e, n, u) => RegisterUserKeepsUnique(db, e, n, u);
    case DoAddFriend(e, u) => AddFriendKeepsPairsUnique(db, e, u);
    case DoSyncStats(e, m, s, st) => SyncStatsKeepsUnique(db, e, m, s, st);
    case DoLeaveSpace(e) =>
      if LocateLink(db.links, e).Some? {
        RemoveAtKeepsLinkInvariants(db.links, LocateLink(db.links, e).value);
      }
    case DoUpdateTheme(e, k, v) =>
      var links' := UpdateTheme(db, e, k, v).links;
      assert forall j :: 0 <= j < |links'| ==>
        links'[j].user1 == db.links[j].user1 && links'[j].user2 == db.links[j].user2;
  }

  /** Any sequence of mutations applied to a consistent store leaves it consistent. */
  lemma {:induction false} RunKeepsConsistent(db: Db, calls: seq<Call>)
    requires Consistent(db)
    ensures Consistent(Run(db, calls))
    decreases |calls|
  {
    if |calls| > 0 {
      ApplyKeepsConsistent(db, calls[0]);
      RunKeepsConsistent(Apply(db, calls[0]), calls[1..]);
    }
  }

  /** Every store reached from the empty one by any sequence of mutations is consistent. */
  lemma RunFromEmptyConsistent(calls: seq<Call>)
    ensures Consistent(Run(EmptyDb, calls))
  {
    RunKeepsConsistent(EmptyDb, calls);
  }
}
