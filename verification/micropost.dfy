/** The micropost model: validations, the reply-marker callback run before every
    save, the newest-first default ordering and the feed scopes. */
module Microposts {
  import opened Wrappers
  import opened Seqs
  import opened Text
  import opened Schema

  const MaxContentLength := 140

  /** A micropost passes validation when its content is present (not blank) and
      at most 140 characters long, and its `user_id` is present. */
  predicate ValidMicropost(m: Micropost) {
    !IsBlank(m.content) && |m.content| <= MaxContentLength && m.userId.Some?
  }

  /** The micropost tests: blank content, 141 characters and a missing user
      are rejected; `Lorem ipsum` by a user is accepted. */
  lemma ValidationExamples(m: Micropost)
    ensures m.content == " " ==> !ValidMicropost(m)
    ensures m.content == "\U{B}\U{A0}\U{2028}" ==> !ValidMicropost(m)
    ensures m.content == seq(141, _ => 'a') ==> !ValidMicropost(m)
    ensures m.userId.None? ==> !ValidMicropost(m)
    ensures m.content == "Lorem ipsum" && m.userId.Some? ==> ValidMicropost(m)
  {
    if m.content == "Lorem ipsum" {
      assert !IsBlankChar(m.content[0]);
    }
  }

  // ---------------------------------------------------------------------------
  // The reply marker `/^@(.+) /`

  /** The regular expression `^@(.+) ` matches with its `@` at `p` and its final
      space at `j`: `p` starts a line, the captured `.+` (any characters but a
      line feed, at least one) occupies `p + 1 .. j`. */
  ghost predicate ReplyMatch(s: string, p: int, j: int) {
    && LineStart(s, p)
    && p + 2 <= j < |s|
    && s[p] == '@'
    && s[j] == ' '
    && forall k :: p < k < j ==> s[k] != '\n'
  }

  /** The match the regex engine reports: the leftmost start, and for it the
      longest (greedy) capture. */
  ghost predicate LeftmostGreedy(s: string, p: int, j: int) {
    && ReplyMatch(s, p, j)
    && (forall q, k :: q < p ==> !ReplyMatch(s, q, k))
    && (forall k :: j < k ==> !ReplyMatch(s, p, k))
  }

  /** The last space in `s[lo..hi]`. */
  function LastSpace(s: string, lo: nat, hi: nat): (r: Option<nat>)
    requires hi <= |s|
    ensures r.Some? ==> lo <= r.value < hi && s[r.value] == ' '
    ensures r.Some? ==> forall k :: r.value < k < hi ==> s[k] != ' '
    ensures r.None? ==> forall k :: lo <= k < hi ==> s[k] != ' '
    decreases hi - lo
  {
    if hi <= lo then None
    else if s[hi - 1] == ' ' then Some(hi - 1)
    else LastSpace(s, lo, hi - 1)
  }

  /** Tries the line starting at `p`, then the following lines, and returns
      the position of the `@` and of the final space of the first match. */
  function ScanReply(s: string, p: nat): (r: Option<(nat, nat)>)
    requires LineStart(s, p)
    ensures r.None? ==> forall q, k :: p <= q ==> !ReplyMatch(s, q, k)
    ensures r.Some? ==> p <= r.value.0 && ReplyMatch(s, r.value.0, r.value.1)
    ensures r.Some? ==> forall q, k :: p <= q < r.value.0 ==> !ReplyMatch(s, q, k)
    ensures r.Some? ==> forall k :: r.value.1 < k ==> !ReplyMatch(s, r.value.0, k)
    decreases |s| - p
  {
    if p == |s| then None
    else
      var e := LineEnd(s, p);
      var j := LastSpace(s, p + 2, e);
      MatchOnLine(s, p, e);
      if s[p] == '@' && j.Some? then Some((p, j.value))
      else if e < |s| then
        var r := ScanReply(s, e + 1);
        OnlyLineStartBefore(s, p, e);
        r
      else None
  }

  /** On the line `p .. e`, a match starting at `p` ends at a space of that line. */
  lemma MatchOnLine(s: string, p: nat, e: nat)
    requires p < |s| && LineStart(s, p)
    requires p <= e <= |s| && LineEndAt(s, e) && forall k :: p <= k < e ==> s[k] != '\n'
    ensures forall k :: ReplyMatch(s, p, k) <==> p + 2 <= k < e && s[p] == '@' && s[k] == ' '
  {
    forall k | ReplyMatch(s, p, k)
      ensures k < e
    {
      if e <= k {
        assert false;
      }
    }
  }

  /** No match starts strictly inside the line `p .. e`. */
  lemma OnlyLineStartBefore(s: string, p: nat, e: nat)
    requires p <= e <= |s| && forall k :: p <= k < e ==> s[k] != '\n'
    ensures forall q, k :: p < q <= e ==> !ReplyMatch(s, q, k)
  {
    forall q, k | p < q <= e
      ensures !ReplyMatch(s, q, k)
    {
      NoLineStartInside(s, p, e, q);
    }
  }

  /** The name captured by `/^@(.+) /` in the content, or `None` when the
      content does not match. */
  function ReplyName(content: string): (r: Option<string>)
    ensures r.None? <==> forall p, j :: !ReplyMatch(content, p, j)
    ensures r.Some? ==> exists p, j :: LeftmostGreedy(content, p, j) && r.value == content[p + 1..j]
    ensures r.Some? ==> |r.value| >= 1
  {
    match ScanReply(content, 0)
    case None => None
    case Some((p, j)) =>
      assert LeftmostGreedy(content, p, j);
      Some(content[p + 1..j])
  }

  /** The first index at or after `from` whose user has exactly the username
      `name`. */
  function FirstWithUsername(users: seq<User>, name: string, from: nat): (r: Option<nat>)
    requires from <= |users|
    ensures r.None? <==> forall k :: from <= k < |users| ==> users[k].username != name
    ensures r.Some? ==> from <= r.value < |users| && users[r.value].username == name
                        && forall k :: from <= k < r.value ==> users[k].username != name
    decreases |users| - from
  {
    if from == |users| then None
    else if users[from].username == name then Some(from)
    else FirstWithUsername(users, name, from + 1)
  }

  /** `User.find_by_username`: the id of the first user whose username is
      exactly `name`. */
  function FindByUsername(users: seq<User>, name: string): (r: Option<int>)
    ensures r.None? <==> forall u :: u in users ==> u.username != name
    ensures r.Some? ==> exists i :: 0 <= i < |users| && users[i].username == name && users[i].id == r.value
                          && forall k :: 0 <= k < i ==> users[k].username != name
  {
    match FirstWithUsername(users, name, 0)
    case None => None
    case Some(i) => Some(users[i].id)
  }

  /** The `in_reply_to_user_id` a save stores: the callback assigns the looked-up
      user (or NULL when no user has that name) when the content matches, and
      leaves the current value when it does not. */
  function ReplyTarget(users: seq<User>, content: string, current: Option<int>): (r: Option<int>)
    ensures ReplyName(content).None? ==> r == current
    ensures ReplyName(content).Some? && (forall u :: u in users ==> u.username != ReplyName(content).value) ==> r.None?
    ensures ReplyName(content).Some? && r.Some? ==>
              exists u :: u in users && u.username == ReplyName(content).value && u.id == r.value
    ensures ReplyName(content).Some? ==>
              (r.Some? <==> exists u :: u in users && u.username == ReplyName(content).value)
  {
    match ReplyName(content)
    case None => current
    case Some(name) => FindByUsername(users, name)
  }

  /** The leftmost-greedy match determines the captured name. */
  lemma ReplyNameOfMatch(s: string, p: int, j: int)
    requires LeftmostGreedy(s, p, j)
    ensures ReplyName(s) == Some(s[p + 1..j])
  {
    assert ReplyMatch(s, p, j);
    var p', j' :| LeftmostGreedy(s, p', j') && ReplyName(s).value == s[p' + 1..j'];
    assert LeftmostGreedy(s, p', j');
    assert p' == p;
    assert j' == j;
  }

  /** The regex matches at the start of the content `@<name> <rest>` and captures
      the name, provided the name holds no space and no line feed and the rest
      holds no space. */
  lemma {:induction false} ReplyNameOfMention(name: string, rest: string)
    requires |name| >= 1
    requires forall k :: 0 <= k < |name| ==> name[k] != ' ' && name[k] != '\n'
    requires forall k :: 0 <= k < |rest| ==> rest[k] != ' '
    ensures ReplyName("@" + name + " " + rest) == Some(name)
  {
    var s := "@" + name + " " + rest;
    var j := |name| + 1;
    forall k | j < k
      ensures !ReplyMatch(s, 0, k)
    {
      if k < |s| { assert s[k] == rest[k - j - 1]; }
    }
    assert LeftmostGreedy(s, 0, j);
    ReplyNameOfMatch(s, 0, j);
    assert s[1..j] == name;
  }

  /** `.+` is greedy: on `@bob hi there` the capture runs to the last space of
      the line, so it is `bob hi`, not `bob`. */
  lemma GreedyCapture()
    ensures ReplyName("@bob hi there") == Some("bob hi")
  {
    var s := "@bob hi there";
    LastSpaceOfGreeting();
    ReplyNameOfMatch(s, 0, 7);
    assert s[1..7] == "bob hi";
  }

  /** The leftmost greedy match in `@bob hi there` ends at the second space. */
  lemma LastSpaceOfGreeting()
    ensures LeftmostGreedy("@bob hi there", 0, 7)
  {
    var s := "@bob hi there";
    forall k | 7 < k
      ensures !ReplyMatch(s, 0, k)
    {
      if k < |s| { assert k in {8, 9, 10, 11, 12}; }
    }
  }

  /** `^` anchors at every line start: a mention on the second line matches. */
  lemma MentionOnLaterLine()
    ensures ReplyName("hi\n@bob x") == Some("bob")
  {
    var s := "hi\n@bob x";
    SecondLineMention();
    ReplyNameOfMatch(s, 3, 7);
    assert s[4..7] == "bob";
  }

  /** The leftmost greedy match in `hi\n@bob x` is on the second line. */
  lemma SecondLineMention()
    ensures LeftmostGreedy("hi\n@bob x", 3, 7)
  {
    var s := "hi\n@bob x";
    forall q, k | q < 3
      ensures !ReplyMatch(s, q, k)
    {
      if 0 <= q { assert q in {0, 1, 2}; }
    }
    forall k | 7 < k
      ensures !ReplyMatch(s, 3, k)
    {
      if k < |s| { assert k == 8; }
    }
  }

  /** Content starting `d@<name> ` on a single line does not match the reply
      marker, so the callback leaves `in_reply_to_user_id` as it was. */
  lemma {:induction false} DirectMarkerNotMatched(name: string, rest: string, users: seq<User>, current: Option<int>)
    requires forall k :: 0 <= k < |name| ==> name[k] != '\n'
    requires forall k :: 0 <= k < |rest| ==> rest[k] != '\n'
    ensures ReplyTarget(users, "d@" + name + " " + rest, current) == current
  {
    var s := "d@" + name + " " + rest;
    forall k | 0 <= k < |s|
      ensures s[k] != '\n'
    {
      if 2 <= k < |name| + 2 { assert s[k] == name[k - 2]; }
      else if |name| + 3 <= k { assert s[k] == rest[k - |name| - 3]; }
    }
    forall p, j
      ensures !ReplyMatch(s, p, j)
    {
      if 0 < p <= |s| { assert s[p - 1] != '\n'; }
    }
  }

  // ---------------------------------------------------------------------------
  // `default_scope order: 'microposts.created_at DESC'`

  /** Newest first: `created_at` never increases along the sequence. */
  ghost predicate NewestFirst(s: seq<Micropost>) {
    forall i, j :: 0 <= i < j < |s| ==> s[i].createdAt >= s[j].createdAt
  }

  /** Inserts a post into a newest-first sequence, before the first older post. */
  function Insert(m: Micropost, s: seq<Micropost>): (r: seq<Micropost>)
    requires NewestFirst(s)
    ensures NewestFirst(r)
    ensures multiset(r) == multiset(s) + multiset{m}
    decreases |s|
  {
    if s == [] then [m]
    else if s[0].createdAt <= m.createdAt then [m] + s
    else
      var t := Insert(m, s[1..]);
      assert s == [s[0]] + s[1..];
      PrependNewest(s[0], m, s[1..], t);
      [s[0]] + t
  }

  /** A post no older than every element of `t` can go in front of it. */
  lemma PrependNewest(x: Micropost, m: Micropost, rest: seq<Micropost>, t: seq<Micropost>)
    requires NewestFirst(t) && multiset(t) == multiset(rest) + multiset{m}
    requires m.createdAt <= x.createdAt
    requires forall k :: 0 <= k < |rest| ==> rest[k].createdAt <= x.createdAt
    ensures NewestFirst([x] + t)
  {
    forall k | 0 <= k < |t|
      ensures t[k].createdAt <= x.createdAt
    {
      assert t[k] in multiset(t);
      assert t[k] == m || t[k] in rest;
    }
  }

  /** The rows in the order `ORDER BY created_at DESC` returns them (rows with
      equal timestamps keep an arbitrary but fixed order). */
  function OrderNewestFirst(s: seq<Micropost>): (r: seq<Micropost>)
    ensures NewestFirst(r)
    ensures multiset(r) == multiset(s)
  {
    if s == [] then []
    else
      assert s == [s[0]] + s[1..];
      Insert(s[0], OrderNewestFirst(s[1..]))
  }

  /** A query: the rows of `posts` satisfying `cond`, newest first, each row
      exactly as often as it is stored. */
  function Query(posts: seq<Micropost>, cond: Micropost -> bool): (r: seq<Micropost>)
    ensures NewestFirst(r)
    ensures forall m :: m in r <==> m in posts && cond(m)
    ensures forall m :: multiset(r)[m] == if cond(m) then multiset(posts)[m] else 0
  {
    var r := OrderNewestFirst(Filter(cond, posts));
    FilterCount(cond, posts);
    assert forall m :: m in r <==> m in multiset(r);
    r
  }

  // ---------------------------------------------------------------------------
  // Scopes

  /** `followed_by(user)`: the author is the user, or a relationship row has the
      user as follower and the author as followed. */
  predicate FollowedBy(rels: seq<Relationship>, user: int, m: Micropost) {
    && m.userId.Some?
    && (m.userId.value == user || Relationship(user, m.userId.value) in rels)
  }

  /** `in_reply_to(user)`: the post's `in_reply_to_user_id` is the user. */
  predicate RepliesTo(user: int, m: Micropost) {
    m.inReplyToUserId == Some(user)
  }

  /** `from_users_followed_by(user)`. */
  function FromUsersFollowedBy(posts: seq<Micropost>, rels: seq<Relationship>, user: int): (r: seq<Micropost>)
    ensures NewestFirst(r)
    ensures forall m :: m in r <==> m in posts && FollowedBy(rels, user, m)
  {
    Query(posts, (m: Micropost) => FollowedBy(rels, user, m))
  }

  /** `in_reply_to(user)`. */
  function InReplyTo(posts: seq<Micropost>, user: int): (r: seq<Micropost>)
    ensures NewestFirst(r)
    ensures forall m :: m in r <==> m in posts && RepliesTo(user, m)
  {
    Query(posts, (m: Micropost) => RepliesTo(user, m))
  }

  /** `from_users_followed_by_and_in_reply_to(user)`: the disjunction of the two
      conditions above in one query. */
  function FromUsersFollowedByAndInReplyTo(posts: seq<Micropost>, rels: seq<Relationship>, user: int): (r: seq<Micropost>)
    ensures NewestFirst(r)
    ensures forall m :: m in r <==> m in posts && (FollowedBy(rels, user, m) || RepliesTo(user, m))
  {
    Query(posts, (m: Micropost) => FollowedBy(rels, user, m) || RepliesTo(user, m))
  }

  /** The combined scope is exactly the union of the two separate scopes, and
      none of the three returns a row that is not stored. */
  lemma CombinedScopeIsUnion(posts: seq<Micropost>, rels: seq<Relationship>, user: int, m: Micropost)
    ensures m in FromUsersFollowedByAndInReplyTo(posts, rels, user)
            <==> m in FromUsersFollowedBy(posts, rels, user) || m in InReplyTo(posts, user)
    ensures m in FromUsersFollowedByAndInReplyTo(posts, rels, user) ==> m in posts
  {
  }

  /** The scope tests: own and followed posts are in `from_users_followed_by`,
      an unfollowed author's post is not; a reply is in `in_reply_to`, the same
      author's post without a reply target is not. */
  lemma ScopeExamples(posts: seq<Micropost>, rels: seq<Relationship>, user: int, other: int, third: int,
                      own: Micropost, followed: Micropost, unfollowed: Micropost, reply: Micropost)
    requires own in posts && followed in posts && unfollowed in posts && reply in posts
    requires Relationship(user, other) in rels && Relationship(user, third) !in rels && third != user
    requires own.userId == Some(user) && followed.userId == Some(other) && unfollowed.userId == Some(third)
    requires reply.inReplyToUserId == Some(user) && unfollowed.inReplyToUserId == None
    ensures own in FromUsersFollowedBy(posts, rels, user) && followed in FromUsersFollowedBy(posts, rels, user)
    ensures unfollowed !in FromUsersFollowedBy(posts, rels, user)
    ensures reply in InReplyTo(posts, user) && unfollowed !in InReplyTo(posts, user)
    ensures reply in FromUsersFollowedByAndInReplyTo(posts, rels, user)
    ensures unfollowed !in FromUsersFollowedByAndInReplyTo(posts, rels, user)
  {
  }

  // ---------------------------------------------------------------------------
  // Test-derived scopes for direct messages. The scope that the user's feed
  // calls and the scopes below are not defined in the micropost model; their
  // conditions are the ones its tests check.

  /** Test-derived feed condition: own posts, followed users' posts that are not
      direct messages, and posts addressed to the user. */
  predicate InDirectMessageFeed(rels: seq<Relationship>, user: int, m: Micropost) {
    || m.userId == Some(user)
    || (m.userId.Some? && Relationship(user, m.userId.value) in rels && !m.directMessage)
    || m.inReplyToUserId == Some(user)
  }

  /** Test-derived `from_users_followed_by_and_in_reply_to_and_direct_message`. */
  function FromUsersFollowedByAndInReplyToAndDirectMessage(posts: seq<Micropost>, rels: seq<Relationship>, user: int): (r: seq<Micropost>)
    ensures NewestFirst(r)
    ensures forall m :: m in r <==> m in posts && InDirectMessageFeed(rels, user, m)
  {
    Query(posts, (m: Micropost) => InDirectMessageFeed(rels, user, m))
  }

  /** Test-derived `public_microposts_for(user)`: the user's posts that are not
      direct messages. */
  function PublicMicropostsFor(posts: seq<Micropost>, user: int): (r: seq<Micropost>)
    ensures NewestFirst(r)
    ensures forall m :: m in r <==> m in posts && m.userId == Some(user) && !m.directMessage
  {
    Query(posts, (m: Micropost) => m.userId == Some(user) && !m.directMessage)
  }

  /** Test-derived `direct_message_to(user)`: direct messages addressed to the user. */
  function DirectMessageTo(posts: seq<Micropost>, user: int): (r: seq<Micropost>)
    ensures NewestFirst(r)
    ensures forall m :: m in r <==> m in posts && m.directMessage && m.inReplyToUserId == Some(user)
  {
    Query(posts, (m: Micropost) => m.directMessage && m.inReplyToUserId == Some(user))
  }

  /** The direct-message tests: a stranger's direct message to the user is in
      the feed and in `direct_message_to`; a followed user's direct message to
      someone else is not in the feed; the user's own direct message is not
      among its public posts. */
  lemma DirectMessageExamples(posts: seq<Micropost>, rels: seq<Relationship>, user: int, other: int, stranger: int,
                              toUser: Micropost, privatePost: Micropost, ownPrivate: Micropost)
    requires toUser in posts && privatePost in posts && ownPrivate in posts
    requires Relationship(user, other) in rels && other != user && stranger != user
    requires toUser.userId == Some(stranger) && toUser.directMessage && toUser.inReplyToUserId == Some(user)
    requires privatePost.userId == Some(other) && privatePost.directMessage && privatePost.inReplyToUserId != Some(user)
    requires ownPrivate.userId == Some(user) && ownPrivate.directMessage
    ensures toUser in FromUsersFollowedByAndInReplyToAndDirectMessage(posts, rels, user)
    ensures toUser in DirectMessageTo(posts, user)
    ensures privatePost !in FromUsersFollowedByAndInReplyToAndDirectMessage(posts, rels, user)
    ensures ownPrivate !in PublicMicropostsFor(posts, user)
  {
  }

  /** On posts that are not direct messages, the test-derived feed and the
      combined scope select the same rows. */
  lemma DirectMessageFeedAgreesOnPublicPosts(posts: seq<Micropost>, rels: seq<Relationship>, user: int, m: Micropost)
    requires !m.directMessage
    ensures m in FromUsersFollowedByAndInReplyToAndDirectMessage(posts, rels, user)
            <==> m in FromUsersFollowedByAndInReplyTo(posts, rels, user)
  {
  }
}
