/**
 * The browser-storage store of javascript/script.js as one object: the seven
 * persisted collections, and the operations that read and rewrite them.
 * Every method takes the current time `now` (milliseconds) as a parameter.
 */
module Store {
  import opened Wrappers
  import opened JsText
  import opened Users
  import opened Sessions
  import opened Posts
  import RateLimit
  import Security
  import Forms
  import PerfLog

  /** The whole persisted state, as one value. */
  datatype Snapshot = Snapshot(
    users: seq<User>,
    currentEmail: Option<string>,
    session: Option<SessionText>,
    localPosts: map<string, Post>,
    comments: map<string, seq<Comment>>,
    rateLimits: map<string, seq<int>>,
    perfLog: seq<PerfLog.Entry>)

  datatype SignupOutcome = SignupRejected(errors: seq<Forms.SignupField>) | EmailTaken | SignedUp
  datatype LoginOutcome = MissingFields | BadCredentials | LoggedIn
  datatype PostOutcome = BadTitle | BadContent | NoCategory | PostRateLimited | Created(id: string)
  datatype CommentOutcome = BadComment | CommentRateLimited | NotSignedIn | Commented

  const CommentLimit: int := 3
  const CommentWindow: int := 60000
  const PostLimit: int := 2
  const PostWindow: int := 300000

  /** The timestamps stored for an action; an absent key reads as the empty list. */
  function Attempts(limits: map<string, seq<int>>, action: string): seq<int> {
    if action in limits then limits[action] else []
  }

  /**
   * The first validation `initializeCreatePostPage`'s submit handler rejects,
   * if any: a blank or over-long title, then blank or over-long content, then
   * a missing category.
   */
  function PostInputError(title: string, content: string, category: string): (r: Option<PostOutcome>)
    ensures r == Some(BadTitle) <==> |title| > 200 || forall i :: 0 <= i < |title| ==> IsWhitespace(title[i])
    ensures r == Some(BadContent) <==>
      r != Some(BadTitle) && (|content| > 10000 || forall i :: 0 <= i < |content| ==> IsWhitespace(content[i]))
    ensures r == Some(NoCategory) <==> r != Some(BadTitle) && r != Some(BadContent) && category == ""
    ensures r.None? || r == Some(BadTitle) || r == Some(BadContent) || r == Some(NoCategory)
  {
    if !Security.ValidateTextInput(Security.Str(title), 200) then Some(BadTitle)
    else if !Security.ValidateTextInput(Security.Str(content), 10000) then Some(BadContent)
    else if category == "" then Some(NoCategory)
    else None
  }

  /**
   * The record the create-post handler stores, keyed by the slug of its
   * title: the displayed title, author and category are escaped, the content
   * is kept as the editor produced it, and an upload replaces the fallback image.
   */
  function NewPost(title: string, category: string, content: string, author: User,
                   uploaded: Option<string>, dateLabel: string): (p: Post)
    ensures p.id == Slug(title) && IsSlug(p.id)
    ensures Security.NoMarkup(p.title) && Security.NoMarkup(p.author) && Security.NoMarkup(p.category)
    ensures p.title == Security.EscapeEach(title) && p.author == Security.EscapeEach(author.name)
    ensures p.category == Security.EscapeEach(category)
    ensures p.date == dateLabel && p.content == content
    ensures p.image == FallbackImage <==> uploaded.None? || uploaded.value == "" || uploaded.value == FallbackImage
    ensures p.image != FallbackImage ==> p.image == uploaded.value
  {
    Security.EscapeAllNoMarkup(title);
    Security.EscapeAllNoMarkup(author.name);
    Security.EscapeAllNoMarkup(category);
    Security.EscapeHtmlIsPerChar(title);
    Security.EscapeHtmlIsPerChar(author.name);
    Security.EscapeHtmlIsPerChar(category);
    Post(
      Slug(title),
      Security.EscapeHtml(title),
      Security.EscapeHtml(author.name),
      dateLabel,
      Security.EscapeHtml(category),
      if uploaded.Some? && uploaded.value != "" then uploaded.value else FallbackImage,
      content)
  }

  /** The record the comment handler appends: escaped author name and text, dated `now`. */
  function NewComment(author: User, text: string, now: int): (c: Comment)
    ensures Security.NoMarkup(c.author) && Security.NoMarkup(c.text) && c.date == now
    ensures c.author == Security.EscapeEach(author.name) && c.text == Security.EscapeEach(text)
    ensures (forall i :: 0 <= i < |text| ==> !Security.IsEscaped(text[i])) ==> c.text == text
  {
    Security.EscapeAllNoMarkup(author.name);
    Security.EscapeAllNoMarkup(text);
    Security.EscapeHtmlIsPerChar(author.name);
    Security.EscapeHtmlIsPerChar(text);
    Comment(Security.EscapeHtml(author.name), Security.EscapeHtml(text), now)
  }

  class Store {
    var users: seq<User>
    var currentEmail: Option<string>
    var session: Option<SessionText>
    var localPosts: map<string, Post>
    var comments: map<string, seq<Comment>>
    var rateLimits: map<string, seq<int>>
    var perfLog: seq<PerfLog.Entry>

    function State(): Snapshot
      reads this
    {
      Snapshot(users, currentEmail, session, localPosts, comments, rateLimits, perfLog)
    }

    /**
     * What the site's own writes keep true: unique emails, duplicate-free
     * saved lists, local posts under their ids, a log of at most 50 entries.
     */
    predicate Valid()
      reads this
    {
      && UniqueEmails(users)
      && (forall i :: 0 <= i < |users| ==> NoDup(users[i].savedArticles))
      && KeyedById(localPosts)
      && |perfLog| <= PerfLog.MaxEntries
    }

    /** Empty storage. */
    constructor ()
      ensures State() == Snapshot([], None, None, map[], map[], map[], [])
      ensures Valid()
    {
      users, currentEmail, session := [], None, None;
      localPosts, comments, rateLimits, perfLog := map[], map[], map[], [];
    }

    /** `{...postsData, ...getLocalPosts()}`. */
    function AllPosts(builtIn: map<string, Post>): map<string, Post>
      reads this
    {
      Merge(builtIn, localPosts)
    }

    /**
     * `getUsers`/`migrateUsersData`: returns the migrated records and writes
     * them back only when some record lacked a field.
     */
    method GetUsers(now: int) returns (us: seq<User>, wrote: bool)
      modifies this
      ensures us == Migrate(old(users), now)
      ensures wrote <==> NeedsMigration(old(users))
      ensures State() == old(State()).(users := us)
      ensures old(Valid()) ==> Valid()
    {
      var src := users;
      var migrated: seq<User> := [];
      var needed := false;
      var i := 0;
      while i < |src|
        invariant 0 <= i <= |src|
        invariant migrated == Migrate(src[..i], now)
        invariant needed <==> NeedsMigration(src[..i])
        invariant State() == old(State())
      {
        var u := src[i];
        if u.profileImage.Absent? {
          u := u.(profileImage := Present(None));
          needed := true;
        }
        if u.joinDate.Absent? {
          u := u.(joinDate := Present(now));
          needed := true;
        }
        assert u == MigrateUser(src[i], now);
        assert src[..i + 1] == src[..i] + [src[i]];
        MigrateSnoc(src[..i], src[i], now);
        assert NeedsMigration(src[..i + 1]) <==> NeedsMigration(src[..i]) || !IsCurrent(src[i]) by {
          if NeedsMigration(src[..i]) {
            var k :| 0 <= k < i && !IsCurrent(src[..i][k]);
            assert src[..i + 1][k] == src[..i][k];
          }
        }
        migrated := migrated + [u];
        i := i + 1;
      }
      assert src[..i] == src;
      MigrateSameEmails(src, now);
      if needed && |migrated| > 0 {
        users := migrated;
      } else {
        MigrateNoop(src, now);
      }
      us := migrated;
      wrote := needed && |migrated| > 0;
      if old(Valid()) {
        SameEmailsUnique(src, users);
      }
    }

    /** `setUserSession`: nothing happens for an empty email. */
    method SetUserSession(email: string, now: int)
      modifies this
      ensures State() == if email == "" then old(State())
                         else old(State()).(session := Some(Json(NewSession(email, now))))
      ensures old(Valid()) ==> Valid()
    {
      if email == "" {
        return;
      }
      session := Some(Json(NewSession(email, now)));
    }

    /** `setCurrentUserEmail`: the pointer, then the session record. */
    method SetCurrentUserEmail(email: string, now: int)
      modifies this
      ensures State() == old(State()).(
        currentEmail := Some(email),
        session := if email == "" then old(session) else Some(Json(NewSession(email, now))))
      ensures old(Valid()) ==> Valid()
    {
      currentEmail := Some(email);
      SetUserSession(email, now);
    }

    /** `getUserSession`: unparsable text is removed and reads as no session. */
    method GetUserSession() returns (s: Option<Session>)
      modifies this
      ensures s == ParseSession(old(session))
      ensures State() == old(State()).(session := if s.None? then None else old(session))
      ensures old(Valid()) ==> Valid()
    {
      if session.Some? && session.value.Garbled? {
        session := None;
        return None;
      }
      s := ParseSession(session);
    }

    /** `updateSessionActivity`: refreshes `lastActivity`; a no-op without a session. */
    method UpdateSessionActivity(now: int)
      modifies this
      ensures var p := ParseSession(old(session));
        State() == old(State()).(session := if p.None? then None else Some(Json(p.value.(lastActivity := now))))
      ensures old(Valid()) ==> Valid()
    {
      var s := GetUserSession();
      if s.Some? {
        session := Some(Json(s.value.(lastActivity := now)));
      }
    }

    /** `clearUserSession` (and `logout`): removes the session and the current-email pointer. */
    method ClearUserSession()
      modifies this
      ensures State() == old(State()).(session := None, currentEmail := None)
      ensures old(Valid()) ==> Valid()
    {
      session := None;
      currentEmail := None;
    }

    /** `isSessionValid`: an expired session is cleared together with the pointer. */
    method IsSessionValid(now: int) returns (valid: bool)
      modifies this
      ensures var p := ParseSession(old(session));
        valid <==> p.Some? && !Expired(p.value, now)
      ensures var p := ParseSession(old(session));
        State() == if p.None? then old(State()).(session := None)
                   else if Expired(p.value, now) then old(State()).(session := None, currentEmail := None)
                   else old(State())
      ensures old(Valid()) ==> Valid()
    {
      var s := GetUserSession();
      if s.None? {
        return false;
      }
      if now - s.value.loginTime > MaxSessionAge {
        ClearUserSession();
        return false;
      }
      return true;
    }

    /**
     * `restoreUserSession`: a valid session whose user exists restores the
     * pointer and refreshes activity; one whose user is gone is cleared.
     */
    method RestoreUserSession(now: int) returns (restored: bool)
      modifies this
      ensures var p := ParseSession(old(session));
        restored <==> p.Some? && !Expired(p.value, now) && HasEmail(old(users), p.value.email)
      ensures var p := ParseSession(old(session));
        p.None? ==> State() == old(State()).(session := None)
      ensures var p := ParseSession(old(session));
        p.Some? && Expired(p.value, now) ==> State() == old(State()).(session := None, currentEmail := None)
      ensures var p := ParseSession(old(session));
        p.Some? && !Expired(p.value, now) && HasEmail(old(users), p.value.email) ==>
          State() == old(State()).(
            users := Migrate(old(users), now),
            currentEmail := Some(p.value.email),
            session := Some(Json(p.value.(lastActivity := now))))
      ensures var p := ParseSession(old(session));
        p.Some? && !Expired(p.value, now) && !HasEmail(old(users), p.value.email) ==>
          State() == old(State()).(users := Migrate(old(users), now), session := None, currentEmail := None)
      ensures old(Valid()) ==> Valid()
    {
      ghost var before := users;
      var s := GetUserSession();
      if s.None? {
        return false;
      }
      var valid := IsSessionValid(now);
      if !valid {
        return false;
      }
      var us, _ := GetUsers(now);
      MigrateSameEmails(before, now);
      IndexOfSameEmails(before, us, s.value.email);
      var i := IndexOfEmail(us, s.value.email);
      if i >= 0 {
        currentEmail := Some(s.value.email);
        UpdateSessionActivity(now);
        return true;
      } else {
        ClearUserSession();
        return false;
      }
    }

    /**
     * `getCurrentUser`: looks the pointer up in the (migrated) users and
     * removes a pointer to a user who no longer exists.
     */
    method GetCurrentUser(now: int) returns (u: Option<User>)
      modifies this
      ensures old(currentEmail) == None || old(currentEmail) == Some("") ==>
        u == None && State() == old(State())
      ensures old(currentEmail).Some? && old(currentEmail).value != "" ==>
        u == FindUser(Migrate(old(users), now), old(currentEmail).value)
        && State() == old(State()).(
             users := Migrate(old(users), now),
             currentEmail := if u.None? then None else old(currentEmail))
      ensures old(Valid()) ==> Valid()
    {
      if currentEmail.None? || currentEmail.value == "" {
        return None;
      }
      var email := currentEmail.value;
      var us, _ := GetUsers(now);
      u := FindUser(us, email);
      if u.None? {
        currentEmail := None;
      }
    }

    /** `updateUser`: replaces the first record with the same email; ignored for an empty email. */
    method UpdateUser(updated: User, now: int)
      modifies this
      ensures updated.email == "" ==> State() == old(State())
      ensures updated.email != "" ==>
        State() == old(State()).(users := ReplaceUser(Migrate(old(users), now), updated))
      ensures old(Valid()) && NoDup(updated.savedArticles) ==> Valid()
    {
      if updated.email == "" {
        return;
      }
      var us, _ := GetUsers(now);
      var i := IndexOfEmail(us, updated.email);
      if i > -1 {
        users := us[i := updated];
      }
      assert users == ReplaceUser(us, updated);
    }

    /** `updateUserProfileImage`: true iff a record with that email exists. */
    method UpdateUserProfileImage(email: string, imageDataUrl: string, now: int) returns (ok: bool)
      modifies this
      ensures ok <==> HasEmail(old(users), email)
      ensures State() == old(State()).(users := SetProfileImage(Migrate(old(users), now), email, Some(imageDataUrl)))
      ensures old(Valid()) ==> Valid()
    {
      ghost var before := users;
      var us, _ := GetUsers(now);
      MigrateSameEmails(before, now);
      IndexOfSameEmails(before, us, email);
      var i := IndexOfEmail(us, email);
      if i > -1 {
        users := us[i := us[i].(profileImage := Present(Some(imageDataUrl)))];
        ok := true;
      } else {
        ok := false;
      }
      assert users == SetProfileImage(us, email, Some(imageDataUrl));
    }

    /** `removeUserProfileImage`: sets the image to `null`; true iff a record with that email exists. */
    method RemoveUserProfileImage(email: string, now: int) returns (ok: bool)
      modifies this
      ensures ok <==> HasEmail(old(users), email)
      ensures State() == old(State()).(users := SetProfileImage(Migrate(old(users), now), email, None))
      ensures old(Valid()) ==> Valid()
    {
      ghost var before := users;
      var us, _ := GetUsers(now);
      MigrateSameEmails(before, now);
      IndexOfSameEmails(before, us, email);
      var i := IndexOfEmail(us, email);
      if i > -1 {
        users := us[i := us[i].(profileImage := Present(None))];
        ok := true;
      } else {
        ok := false;
      }
      assert users == SetProfileImage(us, email, None);
    }

    /**
     * The signup handler: trimmed name and email are validated, a taken
     * email is refused, otherwise the new user is appended and logged in.
     */
    method Signup(rawName: string, rawEmail: string, password: string, now: int) returns (out: SignupOutcome)
      modifies this
      ensures var errs := Forms.ValidateSignupForm(Trim(rawName), Trim(rawEmail), password);
        errs != [] ==> out == SignupRejected(errs) && State() == old(State())
      ensures var errs := Forms.ValidateSignupForm(Trim(rawName), Trim(rawEmail), password);
        errs == [] && HasEmail(old(users), Trim(rawEmail)) ==>
          out == EmailTaken && State() == old(State()).(users := Migrate(old(users), now))
      ensures var errs := Forms.ValidateSignupForm(Trim(rawName), Trim(rawEmail), password);
        errs == [] && !HasEmail(old(users), Trim(rawEmail)) ==>
          out == SignedUp
          && State() == old(State()).(
               users := Migrate(old(users), now)
                        + [User(Trim(rawName), Trim(rawEmail), password, [], Present(None), Present(now))],
               currentEmail := Some(Trim(rawEmail)),
               session := Some(Json(NewSession(Trim(rawEmail), now))))
      ensures old(Valid()) ==> Valid()
    {
      var name := Trim(rawName);
      var email := Trim(rawEmail);
      var errs := Forms.ValidateSignupForm(name, email, password);
      if errs != [] {
        return SignupRejected(errs);
      }
      Forms.ValidFormHasEmail(name, email, password);
      ghost var before := users;
      var us, _ := GetUsers(now);
      MigrateSameEmails(before, now);
      IndexOfSameEmails(before, us, email);
      if IndexOfEmail(us, email) >= 0 {
        return EmailTaken;
      }
      var newUser := User(name, email, password, [], Present(None), Present(now));
      AddUser(newUser);
      SetCurrentUserEmail(email, now);
      out := SignedUp;
    }

    /** `users.push(u)` followed by `setUsers`. */
    method AddUser(u: User)
      modifies this
      ensures State() == old(State()).(users := old(users) + [u])
      ensures old(Valid()) && !HasEmail(old(users), u.email) && NoDup(u.savedArticles) ==> Valid()
    {
      if Valid() && !HasEmail(users, u.email) {
        AppendUnique(users, u);
      }
      users := users + [u];
    }

    /** The login handler: state changes only when a record matches both email and password. */
    method Login(rawEmail: string, password: string, now: int) returns (out: LoginOutcome)
      modifies this
      ensures Trim(rawEmail) == "" || password == "" ==> out == MissingFields && State() == old(State())
      ensures Trim(rawEmail) != "" && password != "" && HasCredentials(old(users), Trim(rawEmail), password) ==>
        out == LoggedIn
        && State() == old(State()).(
             users := Migrate(old(users), now),
             currentEmail := Some(Trim(rawEmail)),
             session := Some(Json(NewSession(Trim(rawEmail), now))))
      ensures Trim(rawEmail) != "" && password != "" && !HasCredentials(old(users), Trim(rawEmail), password) ==>
        out == BadCredentials && State() == old(State()).(users := Migrate(old(users), now))
      ensures old(Valid()) && out == LoggedIn ==>
        FindUser(old(users), Trim(rawEmail)).Some? && FindUser(old(users), Trim(rawEmail)).value.password == password
      ensures old(Valid()) ==> Valid()
    {
      var email := Trim(rawEmail);
      if email == "" || password == "" {
        return MissingFields;
      }
      ghost var before := users;
      var us, _ := GetUsers(now);
      MigrateKeepsCredentials(before, now, email, password);
      if UniqueEmails(before) {
        UniqueCredentials(before, email, password);
      }
      if HasCredentials(us, email, password) {
        SetCurrentUserEmail(email, now);
        out := LoggedIn;
      } else {
        out := BadCredentials;
      }
    }

    /**
     * The save button: toggles `postId` in the page's copy of the current
     * user, then writes that copy back with `updateUser`.
     */
    method ToggleSaved(user: User, postId: string, now: int) returns (updated: User)
      modifies this
      ensures updated == user.(savedArticles := Toggle(user.savedArticles, postId))
      ensures State() == if user.email == "" then old(State())
                         else old(State()).(users := ReplaceUser(Migrate(old(users), now), updated))
      ensures old(Valid()) && NoDup(user.savedArticles) ==> Valid()
    {
      var saved := user.savedArticles;
      var index := IndexOf(saved, postId);
      if index > -1 {
        saved := saved[..index] + saved[index + 1..];
      } else {
        saved := saved + [postId];
      }
      updated := user.(savedArticles := saved);
      if NoDup(user.savedArticles) {
        ToggleNoDup(user.savedArticles, postId);
      }
      UpdateUser(updated, now);
    }

    /**
     * `rateLimitCheck`: prunes the action's list to the window; denies
     * without writing when `limit` or more remain, else records `now`.
     */
    method RateLimitCheck(action: string, limit: int, window: int, now: int) returns (allowed: bool)
      modifies this
      ensures var d := RateLimit.Check(Attempts(old(rateLimits), action), limit, window, now);
        allowed == d.allowed
        && State() == if allowed then old(State()).(rateLimits := old(rateLimits)[action := d.stored])
                      else old(State())
      ensures old(Valid()) ==> Valid()
    {
      var attempts := Attempts(rateLimits, action);
      var recent := RateLimit.Recent(attempts, now, window);
      if |recent| >= limit {
        return false;
      }
      recent := recent + [now];
      rateLimits := rateLimits[action := recent];
      return true;
    }

    /** `localPosts[post.id] = post` followed by `setLocalPosts`. */
    method SaveLocalPost(post: Post)
      modifies this
      ensures State() == old(State()).(localPosts := old(localPosts)[post.id := post])
      ensures old(Valid()) ==> Valid()
    {
      localPosts := localPosts[post.id := post];
    }

    /**
     * The create-post handler: validation, then the rate limit (2 per 5
     * minutes), then the slug, then an overwriting store under that slug.
     */
    method CreatePost(rawTitle: string, category: string, content: string, author: User,
                      uploaded: Option<string>, dateLabel: string, now: int) returns (out: PostOutcome)
      modifies this
      ensures var err := PostInputError(Trim(rawTitle), content, category);
        var d := RateLimit.Check(Attempts(old(rateLimits), "createPost"), PostLimit, PostWindow, now);
        if err.Some? then out == err.value && State() == old(State())
        else if !d.allowed then out == PostRateLimited && State() == old(State())
        else
          out == Created(Slug(Trim(rawTitle)))
          && State() == old(State()).(
               rateLimits := old(rateLimits)["createPost" := d.stored],
               localPosts := old(localPosts)[Slug(Trim(rawTitle)) :=
                 NewPost(Trim(rawTitle), category, content, author, uploaded, dateLabel)])
      ensures out.Created? ==> IsSlug(out.id)
      ensures old(Valid()) ==> Valid()
    {
      var title := Trim(rawTitle);
      var err := PostInputError(title, content, category);
      if err.Some? {
        return err.value;
      }
      ghost var d := RateLimit.Check(Attempts(rateLimits, "createPost"), PostLimit, PostWindow, now);
      var allowed := RateLimitCheck("createPost", PostLimit, PostWindow, now);
      if !allowed {
        return PostRateLimited;
      }
      assert State() == old(State()).(rateLimits := old(rateLimits)["createPost" := d.stored]);
      var post := NewPost(title, category, content, author, uploaded, dateLabel);
      assert post.id == Slug(title);
      SaveLocalPost(post);
      out := Created(post.id);
    }

    /** `getPostComments`, the push onto the post's list, then `setPostComments`. */
    method SaveComment(postId: string, c: Comment)
      modifies this
      ensures State() == old(State()).(comments := AppendComment(old(comments), postId, c))
      ensures old(Valid()) ==> Valid()
    {
      var list := if postId in comments then comments[postId] else [];
      comments := comments[postId := list + [c]];
    }

    /**
     * The comment handler: validation, then the rate limit (3 per minute),
     * then, when someone is signed in, one comment appended to the post's list.
     */
    method SubmitComment(postId: string, rawText: string, currentUser: Option<User>, now: int)
      returns (out: CommentOutcome)
      modifies this
      ensures !Security.ValidateTextInput(Security.Str(Trim(rawText)), 2000) ==>
        out == BadComment && State() == old(State())
      ensures var d := RateLimit.Check(Attempts(old(rateLimits), "comment"), CommentLimit, CommentWindow, now);
        Security.ValidateTextInput(Security.Str(Trim(rawText)), 2000) && !d.allowed ==>
          out == CommentRateLimited && State() == old(State())
      ensures var d := RateLimit.Check(Attempts(old(rateLimits), "comment"), CommentLimit, CommentWindow, now);
        Security.ValidateTextInput(Security.Str(Trim(rawText)), 2000) && d.allowed && currentUser.None? ==>
          out == NotSignedIn && State() == old(State()).(rateLimits := old(rateLimits)["comment" := d.stored])
      ensures var d := RateLimit.Check(Attempts(old(rateLimits), "comment"), CommentLimit, CommentWindow, now);
        Security.ValidateTextInput(Security.Str(Trim(rawText)), 2000) && d.allowed && currentUser.Some? ==>
          out == Commented
          && State() == old(State()).(
               rateLimits := old(rateLimits)["comment" := d.stored],
               comments := AppendComment(old(comments), postId, NewComment(currentUser.value, Trim(rawText), now)))
      ensures old(Valid()) ==> Valid()
    {
      var text := Trim(rawText);
      if !Security.ValidateTextInput(Security.Str(text), 2000) {
        return BadComment;
      }
      assert |text| > 0;
      ghost var d := RateLimit.Check(Attempts(rateLimits, "comment"), CommentLimit, CommentWindow, now);
      var allowed := RateLimitCheck("comment", CommentLimit, CommentWindow, now);
      if !allowed {
        return CommentRateLimited;
      }
      assert State() == old(State()).(rateLimits := old(rateLimits)["comment" := d.stored]);
      if text != "" && currentUser.Some? {
        SaveComment(postId, NewComment(currentUser.value, text, now));
        out := Commented;
      } else {
        out := NotSignedIn;
      }
    }

    /** The load handler of the performance monitor: append, then keep the last 50 entries. */
    method LogPerformance(e: PerfLog.Entry)
      modifies this
      ensures State() == old(State()).(perfLog := PerfLog.KeepLast(old(perfLog) + [e]))
      ensures old(Valid()) ==> Valid()
    {
      var log := perfLog + [e];
      if |log| > PerfLog.MaxEntries {
        log := log[|log| - PerfLog.MaxEntries..];
      }
      perfLog := log;
    }
  }
}
