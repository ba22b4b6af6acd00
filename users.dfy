/**
 * User records as the site keeps them in the `users_db` collection, the
 * read-time schema migration, lookups by email, and the value-level edits
 * behind `updateUser`, `updateUserProfileImage`, `removeUserProfileImage`
 * and the saved-article toggle.
 */
module Users {
  import opened Wrappers

  /** A property of a stored record that older records may lack (`hasOwnProperty` is false). */
  datatype Field<T> = Absent | Present(value: T)

  /**
   * A stored user. `profileImage` holds a data URI or `null`; `joinDate` is a
   * timestamp in milliseconds. Either may be missing from a legacy record.
   */
  datatype User = User(
    name: string,
    email: string,
    password: string,
    savedArticles: seq<string>,
    profileImage: Field<Option<string>>,
    joinDate: Field<int>)

  /** A record in the current schema: both later fields are present. */
  predicate IsCurrent(u: User) {
    u.profileImage.Present? && u.joinDate.Present?
  }

  /** Some record of the list is a legacy record. */
  predicate NeedsMigration(us: seq<User>) {
    exists i :: 0 <= i < |us| && !IsCurrent(us[i])
  }

  /** `v` is `u` with its missing fields filled in: `null` image, join date `now`. */
  predicate Upgrades(u: User, v: User, now: int) {
    && v.name == u.name && v.email == u.email && v.password == u.password
    && v.savedArticles == u.savedArticles
    && v.profileImage == (if u.profileImage.Present? then u.profileImage else Present(None))
    && v.joinDate == (if u.joinDate.Present? then u.joinDate else Present(now))
  }

  /** The per-record step of `migrateUsersData`. */
  function MigrateUser(u: User, now: int): (v: User)
    ensures IsCurrent(v) && Upgrades(u, v, now)
    ensures IsCurrent(u) ==> v == u
  {
    var u1 := if u.profileImage.Absent? then u.(profileImage := Present(None)) else u;
    if u1.joinDate.Absent? then u1.(joinDate := Present(now)) else u1
  }

  /** The list `migrateUsersData` returns. */
  function Migrate(us: seq<User>, now: int): (r: seq<User>)
    ensures |r| == |us|
    ensures forall i :: 0 <= i < |us| ==> Upgrades(us[i], r[i], now)
    ensures !NeedsMigration(r)
  {
    seq(|us|, i requires 0 <= i < |us| => MigrateUser(us[i], now))
  }

  /** Migrating a list without legacy records changes nothing. */
  lemma MigrateNoop(us: seq<User>, now: int)
    requires !NeedsMigration(us)
    ensures Migrate(us, now) == us
  {
    var r := Migrate(us, now);
    forall i | 0 <= i < |us| ensures r[i] == us[i] {
      assert IsCurrent(us[i]);
    }
  }

  /** Migration is idempotent: a second read, at any later time, changes nothing. */
  lemma MigrateIdempotent(us: seq<User>, now: int, later: int)
    ensures Migrate(Migrate(us, now), later) == Migrate(us, now)
  {
    MigrateNoop(Migrate(us, now), later);
  }

  lemma MigrateSnoc(us: seq<User>, u: User, now: int)
    ensures Migrate(us + [u], now) == Migrate(us, now) + [MigrateUser(u, now)]
  {
  }

  predicate SameEmails(a: seq<User>, b: seq<User>) {
    |a| == |b| && forall i :: 0 <= i < |a| ==> a[i].email == b[i].email
  }

  /** `users.some(u => u.email === email)`. */
  predicate HasEmail(us: seq<User>, email: string) {
    exists i :: 0 <= i < |us| && us[i].email == email
  }

  /** `users.findIndex(u => u.email === email)`: the first match, or -1. */
  function IndexOfEmail(us: seq<User>, email: string): (r: int)
    ensures -1 <= r < |us|
    ensures r >= 0 ==> us[r].email == email
    ensures r >= 0 ==> forall j :: 0 <= j < r ==> us[j].email != email
    ensures r < 0 <==> !HasEmail(us, email)
    decreases |us|
  {
    if us == [] then -1
    else if us[0].email == email then 0
    else
      var k := IndexOfEmail(us[1..], email);
      if k < 0 then -1 else k + 1
  }

  /** The first-match index depends only on the sequence of emails. */
  lemma IndexOfSameEmails(a: seq<User>, b: seq<User>, email: string)
    requires SameEmails(a, b)
    ensures IndexOfEmail(a, email) == IndexOfEmail(b, email)
  {
    assert forall j :: 0 <= j < |a| ==> (a[j].email == email <==> b[j].email == email);
  }

  /** `users.find(u => u.email === email)`. */
  function FindUser(us: seq<User>, email: string): (r: Option<User>)
    ensures r.Some? <==> HasEmail(us, email)
    ensures r.Some? ==> r.value.email == email && r.value in us
    ensures r.Some? ==> r.value == us[IndexOfEmail(us, email)]
  {
    var i := IndexOfEmail(us, email);
    if i < 0 then None else Some(us[i])
  }

  /** `users.find(u => u.email === email && u.password === password)` succeeds. */
  predicate HasCredentials(us: seq<User>, email: string, password: string) {
    exists i :: 0 <= i < |us| && us[i].email == email && us[i].password == password
  }

  /** Migration changes neither emails nor passwords, so it never changes who can log in. */
  lemma MigrateKeepsCredentials(us: seq<User>, now: int, email: string, password: string)
    ensures HasCredentials(Migrate(us, now), email, password) <==> HasCredentials(us, email, password)
  {
    var r := Migrate(us, now);
    assert forall i :: 0 <= i < |us| ==> r[i].email == us[i].email && r[i].password == us[i].password;
  }

  /** The collection invariant: no two records share an email. */
  predicate UniqueEmails(us: seq<User>) {
    forall i, j :: 0 <= i < j < |us| ==> us[i].email != us[j].email
  }

  /** With unique emails the first match is the only one, so `FindUser` returns the record with that email. */
  lemma UniqueFind(us: seq<User>, i: nat)
    requires UniqueEmails(us) && i < |us|
    ensures IndexOfEmail(us, us[i].email) == i
    ensures FindUser(us, us[i].email) == Some(us[i])
  {
    assert HasEmail(us, us[i].email);
  }

  /**
   * With unique emails a login succeeds exactly when the one record with
   * that email has that password.
   */
  lemma UniqueCredentials(us: seq<User>, email: string, password: string)
    requires UniqueEmails(us)
    ensures HasCredentials(us, email, password) <==>
      FindUser(us, email).Some? && FindUser(us, email).value.password == password
  {
    if HasCredentials(us, email, password) {
      var i :| 0 <= i < |us| && us[i].email == email && us[i].password == password;
      UniqueFind(us, i);
    }
    if FindUser(us, email).Some? && FindUser(us, email).value.password == password {
      var i := IndexOfEmail(us, email);
      assert us[i].email == email && us[i].password == password;
    }
  }

  /** Appending a record whose email is new keeps emails unique. */
  lemma AppendUnique(us: seq<User>, u: User)
    requires UniqueEmails(us) && !HasEmail(us, u.email)
    ensures UniqueEmails(us + [u])
  {
    var r := us + [u];
    forall i, j | 0 <= i < j < |r| ensures r[i].email != r[j].email {
      if j == |us| { assert us[i].email != u.email; }
    }
  }

  /** Migration keeps every email in its place. */
  lemma MigrateSameEmails(us: seq<User>, now: int)
    ensures SameEmails(us, Migrate(us, now))
  {
  }

  lemma SameEmailsUnique(a: seq<User>, b: seq<User>)
    requires SameEmails(a, b) && UniqueEmails(a)
    ensures UniqueEmails(b)
  {
    forall i, j | 0 <= i < j < |b| ensures b[i].email != b[j].email {
      assert a[i].email != a[j].email;
    }
  }

  /**
   * The list step of `updateUser`: the first record with the same email is
   * replaced by `u`; without such a record the list is returned as it is.
   */
  function ReplaceUser(us: seq<User>, u: User): (r: seq<User>)
    ensures SameEmails(us, r)
    ensures forall j :: 0 <= j < |us| && j != IndexOfEmail(us, u.email) ==> r[j] == us[j]
    ensures HasEmail(us, u.email) ==> r[IndexOfEmail(us, u.email)] == u
    ensures UniqueEmails(us) ==> UniqueEmails(r)
  {
    var i := IndexOfEmail(us, u.email);
    var r := if i < 0 then us else us[i := u];
    assert SameEmails(us, r);
    assert UniqueEmails(us) ==> UniqueEmails(r) by { if UniqueEmails(us) { SameEmailsUnique(us, r); } }
    r
  }

  /**
   * The list step of `updateUserProfileImage` (`img` is `Some(dataUrl)`) and
   * of `removeUserProfileImage` (`img` is `None`): only the `profileImage` of
   * the first record with that email changes.
   */
  function SetProfileImage(us: seq<User>, email: string, img: Option<string>): (r: seq<User>)
    ensures SameEmails(us, r)
    ensures forall j :: 0 <= j < |us| && j != IndexOfEmail(us, email) ==> r[j] == us[j]
    ensures HasEmail(us, email) ==>
      r[IndexOfEmail(us, email)] == us[IndexOfEmail(us, email)].(profileImage := Present(img))
    ensures UniqueEmails(us) ==> UniqueEmails(r)
  {
    var i := IndexOfEmail(us, email);
    var r := if i < 0 then us else us[i := us[i].(profileImage := Present(img))];
    assert SameEmails(us, r);
    assert UniqueEmails(us) ==> UniqueEmails(r) by { if UniqueEmails(us) { SameEmailsUnique(us, r); } }
    r
  }

  /** `xs.indexOf(x)`: the first position of `x`, or -1. */
  function IndexOf(xs: seq<string>, x: string): (r: int)
    ensures -1 <= r < |xs|
    ensures r >= 0 ==> xs[r] == x && forall j :: 0 <= j < r ==> xs[j] != x
    ensures r < 0 <==> x !in xs
    decreases |xs|
  {
    if xs == [] then -1
    else if xs[0] == x then 0
    else
      var k := IndexOf(xs[1..], x);
      if k < 0 then -1 else k + 1
  }

  predicate NoDup(xs: seq<string>) {
    forall i, j :: 0 <= i < j < |xs| ==> xs[i] != xs[j]
  }

  /** The saved-article toggle: `splice(indexOf(id), 1)` when present, `push(id)` otherwise. */
  function Toggle(xs: seq<string>, x: string): (r: seq<string>)
    ensures x !in xs ==> r == xs + [x]
    ensures x in xs ==> r == xs[..IndexOf(xs, x)] + xs[IndexOf(xs, x) + 1..]
  {
    var i := IndexOf(xs, x);
    if i >= 0 then xs[..i] + xs[i + 1..] else xs + [x]
  }

  /** Toggling keeps the saved list free of duplicates. */
  lemma ToggleNoDup(xs: seq<string>, x: string)
    requires NoDup(xs)
    ensures NoDup(Toggle(xs, x))
  {
    var r := Toggle(xs, x);
    if x in xs {
      var i := IndexOf(xs, x);
      forall a, b | 0 <= a < b < |r| ensures r[a] != r[b] {
        var a' := if a < i then a else a + 1;
        var b' := if b < i then b else b + 1;
        assert r[a] == xs[a'] && r[b] == xs[b'];
      }
    } else {
      forall a, b | 0 <= a < b < |r| ensures r[a] != r[b] {
        if b == |xs| { assert r[a] == xs[a]; }
      }
    }
  }

  /** On a list without duplicates a toggle flips membership of the id and leaves every other id's membership alone. */
  lemma ToggleFlips(xs: seq<string>, x: string, y: string)
    requires NoDup(xs)
    ensures x in Toggle(xs, x) <==> x !in xs
    ensures y != x ==> (y in Toggle(xs, x) <==> y in xs)
  {
    var r := Toggle(xs, x);
    if x in xs {
      var i := IndexOf(xs, x);
      assert xs == xs[..i] + [x] + xs[i + 1..];
      forall k | 0 <= k < |r| ensures r[k] != x {
        if k < i { assert r[k] == xs[k]; } else { assert r[k] == xs[k + 1]; }
      }
      if y != x && y in xs {
        var k :| 0 <= k < |xs| && xs[k] == y;
        if k < i { assert r[k] == y; } else { assert r[k - 1] == y; }
      }
    }
  }

  /** Saving an id that was not saved and then toggling it again restores the list exactly. */
  lemma ToggleTwiceAbsent(xs: seq<string>, x: string)
    requires x !in xs
    ensures Toggle(Toggle(xs, x), x) == xs
  {
    var ys := xs + [x];
    assert forall j :: 0 <= j < |xs| ==> ys[j] == xs[j];
    assert IndexOf(ys, x) == |xs|;
    assert ys[..|xs|] == xs;
  }

  /** Unsaving and re-saving keeps the same ids: the id moves to the end. */
  lemma ToggleTwicePresent(xs: seq<string>, x: string)
    requires NoDup(xs) && x in xs
    ensures Toggle(Toggle(xs, x), x) == xs[..IndexOf(xs, x)] + xs[IndexOf(xs, x) + 1..] + [x]
  {
    ToggleFlips(xs, x, x);
  }
}
