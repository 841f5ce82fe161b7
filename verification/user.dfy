/** The user model: attribute validations, case-insensitive uniqueness, the
    follow graph queries, the feed and the effect of destroying a user. */
module Users {
  import opened Wrappers
  import opened Seqs
  import opened Text
  import opened Schema
  import opened Microposts

  const MaxNameLength := 50
  const MinPasswordLength := 6

  /** `name`: present and at most 50 characters. */
  predicate ValidName(name: string) {
    !IsBlank(name) && |name| <= MaxNameLength
  }

  // ---------------------------------------------------------------------------
  // `email` format: /\A[\w+\-.]+@[a-z\d\-.]+\.[a-z]+\z/i

  /** `[\w+\-.]`: letter, digit, `_`, `+`, `-` or `.`. */
  predicate LocalChar(c: char) {
    IsLetter(c) || IsDigit(c) || c == '_' || c == '+' || c == '-' || c == '.'
  }

  /** `[a-z\d\-.]` under the `i` flag. */
  predicate DomainChar(c: char) {
    IsLetter(c) || IsDigit(c) || c == '-' || c == '.'
  }

  /** The email regex matches the whole string with its `@` at `at` and the
      `.` before the final letters at `dot`. */
  ghost predicate EmailMatch(s: string, at: int, dot: int) {
    && 0 < at && at + 1 < dot && dot + 1 < |s|
    && s[at] == '@' && s[dot] == '.'
    && (forall k :: 0 <= k < at ==> LocalChar(s[k]))
    && (forall k :: at < k < dot ==> DomainChar(s[k]))
    && (forall k :: dot < k < |s| ==> IsLetter(s[k]))
  }

  /** The email format check: the `@` is the first one, the `.` the last one. */
  function ValidEmailFormat(s: string): (r: bool)
    ensures r <==> exists at, dot :: EmailMatch(s, at, dot)
  {
    match (FirstIndex(s, '@'), LastIndex(s, '.'))
    case (Some(at), Some(dot)) =>
      var r := && 0 < at && at + 1 < dot && dot + 1 < |s|
               && (forall k | 0 <= k < at :: LocalChar(s[k]))
               && (forall k | at < k < dot :: DomainChar(s[k]))
               && (forall k | dot < k < |s| :: IsLetter(s[k]));
      EmailMatchAt(s, at, dot);
      assert r ==> EmailMatch(s, at, dot);
      r
    case _ =>
      EmailMatchAt(s, -1, -1);
      false
  }

  /** Any match has its `@` at the first `@` and its `.` at the last `.`. */
  lemma EmailMatchAt(s: string, at0: int, dot0: int)
    requires FirstIndex(s, '@').Some? && LastIndex(s, '.').Some? ==>
               at0 == FirstIndex(s, '@').value && dot0 == LastIndex(s, '.').value
    ensures (exists at, dot :: EmailMatch(s, at, dot)) ==>
              FirstIndex(s, '@').Some? && LastIndex(s, '.').Some? && EmailMatch(s, at0, dot0)
  {
    if at, dot :| EmailMatch(s, at, dot) {
      var a, d := FirstIndex(s, '@'), LastIndex(s, '.');
      assert forall k :: 0 <= k < at ==> s[k] != '@';
      assert forall k :: dot < k < |s| ==> s[k] != '.';
      assert a.Some? && a.value == at;
      assert d.Some? && d.value == dot;
    }
  }

  // ---------------------------------------------------------------------------
  // `username` format: /^[\S]+$/ (both anchors match at every line)

  /** The username regex matches from line start `p` to line end `e`. */
  ghost predicate UsernameMatch(s: string, p: int, e: int) {
    && LineStart(s, p)
    && p < e
    && LineEndAt(s, e)
    && forall k :: p <= k < e ==> !IsSpace(s[k])
  }

  /** Some line from the one starting at `p` on is non-empty and free of `\s`. */
  function SpaceFreeLineFrom(s: string, p: nat): (r: bool)
    requires LineStart(s, p)
    ensures r <==> exists q, e :: p <= q && UsernameMatch(s, q, e)
    decreases |s| - p
  {
    if p == |s| then false
    else
      var e := LineEnd(s, p);
      var here := p < e && forall k | p <= k < e :: !IsSpace(s[k]);
      var later := e < |s| && SpaceFreeLineFrom(s, e + 1);
      UsernameMatchOnLine(s, p, e);
      here || later
  }

  /** A match starting at or after `p` either fills the line `p .. e` or starts
      after it. */
  lemma UsernameMatchOnLine(s: string, p: nat, e: nat)
    requires p < |s| && LineStart(s, p)
    requires p <= e <= |s| && LineEndAt(s, e) && forall k :: p <= k < e ==> s[k] != '\n'
    ensures (p < e && forall k :: p <= k < e ==> !IsSpace(s[k])) ==> UsernameMatch(s, p, e)
    ensures forall q, e' :: p <= q && UsernameMatch(s, q, e') ==>
              (q == p && e' == e) || (e < |s| && e + 1 <= q)
  {
    forall q, e' | p <= q && UsernameMatch(s, q, e')
      ensures (q == p && e' == e) || (e < |s| && e + 1 <= q)
    {
      if q <= e {
        if p < q {
          NoLineStartInside(s, p, e, q);
          assert false;
        }
        assert e' == e;
      }
    }
  }

  /** The username format check. */
  function ValidUsernameFormat(s: string): (r: bool)
    ensures r <==> exists p, e :: UsernameMatch(s, p, e)
  {
    SpaceFreeLineFrom(s, 0)
  }

  /** Rejected by the user tests: a comma in the domain. */
  lemma CommaInDomainRejected()
    ensures !ValidEmailFormat("user@foo,com")
  {
    var s := "user@foo,com";
    assert forall k :: 0 <= k < |s| ==> s[k] != '.';
    assert forall at, dot :: !EmailMatch(s, at, dot);
  }

  /** Rejected by the user tests: no `@`. */
  lemma MissingAtRejected()
    ensures !ValidEmailFormat("user_at_foo.org")
  {
    var s := "user_at_foo.org";
    assert forall k :: 0 <= k < |s| ==> s[k] != '@';
    assert forall at, dot :: !EmailMatch(s, at, dot);
  }

  /** Rejected by the user tests: nothing after the last dot. */
  lemma TrailingDotRejected()
    ensures !ValidEmailFormat("example.user@foo.")
  {
  }

  /** Accepted by the user tests: upper case and several domain dots. */
  lemma UpperCaseEmailAccepted()
    ensures ValidEmailFormat("A_USER@f.b.org")
  {
    assert EmailMatch("A_USER@f.b.org", 6, 10);
  }

  /** Accepted by the user tests: `+` in the local part. */
  lemma PlusEmailAccepted()
    ensures ValidEmailFormat("a+b@baz.cn")
  {
    assert EmailMatch("a+b@baz.cn", 3, 7);
  }

  /** A username with a blank inside is rejected; since both anchors match at
      every line, a username one of whose lines is free of blanks passes. */
  lemma UsernameFormatExamples()
    ensures ValidUsernameFormat("example")
    ensures !ValidUsernameFormat("user name")
    ensures ValidUsernameFormat("user name\nexample")
  {
    SingleWordUsername();
    UsernameWithBlank();
    assert UsernameMatch("user name\nexample", 10, 17);
  }

  /** `example` matches as its only line. */
  lemma SingleWordUsername()
    ensures UsernameMatch("example", 0, 7)
  {
  }

  /** `user name` has one line, and it holds a space. */
  lemma UsernameWithBlank()
    ensures forall p, e :: !UsernameMatch("user name", p, e)
  {
    var s := "user name";
    assert s[4] == ' ' && forall k :: 0 <= k < |s| ==> s[k] != '\n';
  }

  /** A username made of an ideographic space passes the format check but is
      blank, so the presence validation is what rejects it. */
  lemma IdeographicSpaceUsername()
    ensures ValidUsernameFormat("\U{3000}") && IsBlank("\U{3000}")
  {
    assert UsernameMatch("\U{3000}", 0, 1);
  }

  // ---------------------------------------------------------------------------
  // Uniqueness and the whole record

  /** Another stored user has the same email, ignoring case. */
  predicate EmailTaken(users: seq<User>, u: User) {
    exists v :: v in users && v.id != u.id && Lower(v.email) == Lower(u.email)
  }

  /** Another stored user has the same username, ignoring case. */
  predicate UsernameTaken(users: seq<User>, u: User) {
    exists v :: v in users && v.id != u.id && Lower(v.username) == Lower(u.username)
  }

  /** All validations of a user record against the stored users. */
  predicate ValidUser(users: seq<User>, u: User) {
    && ValidName(u.name)
    && !IsBlank(u.email) && ValidEmailFormat(u.email) && !EmailTaken(users, u)
    && !IsBlank(u.username) && !UsernameTaken(users, u) && ValidUsernameFormat(u.username)
    && |u.password| >= MinPasswordLength
  }

  /** Two user rows differ in id, and in email and username ignoring case. */
  ghost predicate DistinctUsers(u: User, v: User) {
    && u.id != v.id
    && Lower(u.email) != Lower(v.email)
    && Lower(u.username) != Lower(v.username)
  }

  /** The table invariant: any two rows are distinct users. */
  ghost predicate UniqueIdentities(users: seq<User>) {
    forall i, j :: 0 <= i < j < |users| ==> DistinctUsers(users[i], users[j])
  }

  /** Deleting rows keeps the table invariant. */
  lemma {:induction false} FilterKeepsUnique(keep: User -> bool, users: seq<User>)
    requires UniqueIdentities(users)
    ensures UniqueIdentities(Filter(keep, users))
  {
    if users != [] {
      var init, last := users[..|users| - 1], users[|users| - 1];
      assert users == init + [last];
      FilterKeepsUnique(keep, init);
      var t := Filter(keep, init);
      if keep(last) {
        forall i | 0 <= i < |t|
          ensures DistinctUsers(t[i], last)
        {
          assert t[i] in init;
          var k :| 0 <= k < |init| && init[k] == t[i];
          assert users[k] == t[i];
        }
      }
    }
  }

  /** The user tests on single attributes: a blank or 51-character name, a
      password of 5 characters, and an email or username another user already
      has in a different case are each rejected. */
  lemma UserValidationExamples(users: seq<User>, u: User, v: User)
    ensures u.name == " " ==> !ValidUser(users, u)
    ensures u.name == "\U{A0}" ==> !ValidUser(users, u)
    ensures u.name == seq(51, _ => 'a') ==> !ValidUser(users, u)
    ensures |u.password| == 5 ==> !ValidUser(users, u)
    ensures v in users && v.id != u.id && Lower(v.email) == Lower(u.email) ==> !ValidUser(users, u)
    ensures v in users && v.id != u.id && Lower(v.username) == Lower(u.username) ==> !ValidUser(users, u)
  {
  }

  /** Inserting a user that passes validation under a fresh id keeps the table
      invariant. */
  lemma InsertValidUserKeepsUnique(users: seq<User>, u: User)
    requires UniqueIdentities(users)
    requires ValidUser(users, u)
    requires forall v :: v in users ==> v.id != u.id
    ensures UniqueIdentities(users + [u])
  {
    var t := users + [u];
    forall i, j | 0 <= i < j < |t|
      ensures DistinctUsers(t[i], t[j])
    {
      if j == |users| {
        assert t[i] in users;
      }
    }
  }

  /** Under the invariant, `find_by_username` finds the one user with that
      username. */
  lemma {:induction false} FindByUsernameUnique(users: seq<User>, v: User)
    requires UniqueIdentities(users)
    requires v in users
    ensures FindByUsername(users, v.username) == Some(v.id)
  {
    var r := FindByUsername(users, v.username);
    var i :| 0 <= i < |users| && users[i].username == v.username && users[i].id == r.value
               && forall k :: 0 <= k < i ==> users[k].username != v.username;
    var j :| 0 <= j < |users| && users[j] == v;
    assert !DistinctUsers(users[i], users[j]);
  }

  /** Saving `@<username> <word>` where the username belongs to a stored user
      sets the reply target to that user, whatever it was before. */
  lemma ReplyToExistingUser(users: seq<User>, v: User, word: string, current: Option<int>)
    requires UniqueIdentities(users)
    requires v in users
    requires |v.username| >= 1
    requires forall k :: 0 <= k < |v.username| ==> v.username[k] != ' ' && v.username[k] != '\n'
    requires forall k :: 0 <= k < |word| ==> word[k] != ' '
    ensures ReplyTarget(users, "@" + v.username + " " + word, current) == Some(v.id)
  {
    ReplyNameOfMention(v.username, word);
    FindByUsernameUnique(users, v);
  }

  /** Saving a reply to a name no user has stores NULL. */
  lemma ReplyToUnknownName(users: seq<User>, name: string, word: string, current: Option<int>)
    requires |name| >= 1
    requires forall k :: 0 <= k < |name| ==> name[k] != ' ' && name[k] != '\n'
    requires forall k :: 0 <= k < |word| ==> word[k] != ' '
    requires forall u :: u in users ==> u.username != name
    ensures ReplyTarget(users, "@" + name + " " + word, current) == None
  {
    ReplyNameOfMention(name, word);
  }

  // ---------------------------------------------------------------------------
  // Follow graph

  /** `following?`: a relationship row has `follower` as follower and
      `followed` as followed. */
  predicate Follows(rels: seq<Relationship>, follower: int, followed: int) {
    Relationship(follower, followed) in rels
  }

  /** `followed_users`, the ids reached through the user's relationships. */
  function FollowedUsers(rels: seq<Relationship>, user: int): (r: set<int>)
    ensures forall v :: v in r <==> Follows(rels, user, v)
  {
    set e | e in rels && e.followerId == user :: e.followedId
  }

  /** `followers`, the ids reached through the user's reverse relationships. */
  function Followers(rels: seq<Relationship>, user: int): (r: set<int>)
    ensures forall v :: v in r <==> Follows(rels, v, user)
  {
    set e | e in rels && e.followedId == user :: e.followerId
  }

  /** After `follow!`: the follower follows the followed user, the followed
      user is among its followed users and the follower among the other's
      followers, and no other pair changed. */
  lemma FollowEffect(rels: seq<Relationship>, follower: int, followed: int)
    ensures var rels' := rels + [Relationship(follower, followed)];
            && Follows(rels', follower, followed)
            && followed in FollowedUsers(rels', follower)
            && follower in Followers(rels', followed)
            && forall a, b :: (a, b) != (follower, followed) ==> (Follows(rels', a, b) <==> Follows(rels, a, b))
  {
  }

  /** `follow!` then `unfollow!` on a pair that was not followed gives back the
      same table, so the pair is no longer followed. */
  lemma FollowThenUnfollow(rels: seq<Relationship>, follower: int, followed: int)
    requires !Follows(rels, follower, followed)
    ensures var e := Relationship(follower, followed);
            RemoveFirst(rels + [e], e) == rels && !Follows(RemoveFirst(rels + [e], e), follower, followed)
  {
    RemoveFirstOfAppended(rels, Relationship(follower, followed));
  }

  /** `follow!` does not de-duplicate: after two follows and one unfollow the
      pair is still followed. */
  lemma FollowTwiceUnfollowOnce(rels: seq<Relationship>, follower: int, followed: int)
    ensures var e := Relationship(follower, followed);
            Follows(RemoveFirst(rels + [e] + [e], e), follower, followed)
  {
    var e := Relationship(follower, followed);
    var t := RemoveFirst(rels + [e] + [e], e);
    RemoveFirstCount(rels + [e] + [e], e);
    assert multiset(rels + [e] + [e])[e] >= 2;
    assert multiset(t)[e] >= 1;
  }

  /** `unfollow!` removes one row of the pair and no row of any other pair. */
  lemma UnfollowEffect(rels: seq<Relationship>, follower: int, followed: int)
    requires Follows(rels, follower, followed)
    ensures var e := Relationship(follower, followed);
            var rels' := RemoveFirst(rels, e);
            && |rels'| == |rels| - 1
            && forall a, b :: (a, b) != (follower, followed) ==> (Follows(rels', a, b) <==> Follows(rels, a, b))
  {
    var e := Relationship(follower, followed);
    var rels' := RemoveFirst(rels, e);
    RemoveFirstCount(rels, e);
    forall a, b | (a, b) != (follower, followed)
      ensures Follows(rels', a, b) <==> Follows(rels, a, b)
    {
      var x := Relationship(a, b);
      assert multiset(rels')[x] == multiset(rels)[x];
      assert x in rels' <==> x in multiset(rels');
    }
  }

  // ---------------------------------------------------------------------------
  // Feed

  /** `feed`. It calls a scope that the micropost model does not define; the
      test-derived direct-message-aware scope stands in for it. */
  function Feed(posts: seq<Micropost>, rels: seq<Relationship>, user: int): (r: seq<Micropost>)
    ensures NewestFirst(r)
    ensures forall m :: m in r <==> m in posts && InDirectMessageFeed(rels, user, m)
  {
    FromUsersFollowedByAndInReplyToAndDirectMessage(posts, rels, user)
  }

  /** The feed holds the user's own posts, followed users' public posts and
      every post addressed to the user, and no post of an unfollowed author
      that is not addressed to the user. */
  lemma FeedMembership(posts: seq<Micropost>, rels: seq<Relationship>, user: int, m: Micropost)
    requires m in posts
    ensures m.userId == Some(user) ==> m in Feed(posts, rels, user)
    ensures m.userId.Some? && Follows(rels, user, m.userId.value) && !m.directMessage ==> m in Feed(posts, rels, user)
    ensures m.inReplyToUserId == Some(user) ==> m in Feed(posts, rels, user)
    ensures (m.userId != Some(user) && m.inReplyToUserId != Some(user) && m.userId.Some? &&
             !Follows(rels, user, m.userId.value)) ==> m !in Feed(posts, rels, user)
    ensures m.userId != Some(user) && m.inReplyToUserId != Some(user) && m.directMessage ==>
            m !in Feed(posts, rels, user)
  {
  }

  // ---------------------------------------------------------------------------
  // `dependent: :destroy`

  /** The micropost rows that survive destroying user `id`. */
  function KeepsPost(id: int): Micropost -> bool {
    (m: Micropost) => m.userId != Some(id)
  }

  /** The relationship rows that survive destroying user `id`: those where it
      is neither follower nor followed. */
  function KeepsEdge(id: int): Relationship -> bool {
    (e: Relationship) => e.followerId != id && e.followedId != id
  }

  /** The user rows that survive destroying user `id`. */
  function KeepsUser(id: int): User -> bool {
    (u: User) => u.id != id
  }

  /** After the cascade no feed shows a post of the destroyed user, nobody
      follows it or is followed by it, and every post of another author stays
      stored (including replies addressed to the destroyed user). */
  lemma DestroyCascade(posts: seq<Micropost>, rels: seq<Relationship>, id: int, viewer: int)
    ensures var posts', rels' := Filter(KeepsPost(id), posts), Filter(KeepsEdge(id), rels);
            && (forall m :: m in Feed(posts', rels', viewer) ==> m.userId != Some(id))
            && id !in FollowedUsers(rels', viewer) && id !in Followers(rels', viewer)
            && forall m :: m in posts && m.userId != Some(id) ==> m in posts'
  {
    var rels' := Filter(KeepsEdge(id), rels);
    assert !Follows(rels', viewer, id) && !Follows(rels', id, viewer);
  }
}
