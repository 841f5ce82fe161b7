# Microblog data layer in Dafny

This project models the data layer of a small Rails microblog ("sample app"):
users who follow one another and write microposts of at most 140 characters,
a reply marker `@username` at the start of a line, and a home feed that shows
a user's own posts, the posts of the users it follows and the posts addressed
to it, newest first. The ORM is replaced by three in-memory tables (sequences
of rows with integer ids and integer `created_at` timestamps).

Modules:

- `Wrappers`, `Seqs`, `Text`, `Schema` (`base.dfy`): `Option`, order-preserving
  filtering (a `WHERE` clause) and single-row removal, Ruby 1.9's `\s`, Rails'
  notion of blank (under Ruby 1.9 the `[[:space:]]` class, which holds every
  Unicode White_Space character such as U+000B, U+00A0 and U+3000), SQL `LOWER`, line anchors, and the three row types.
- `Utilities` (`utilities.dfy`): `full_title` from the test support code.
- `Microposts` (`micropost.dfy`): validations, the `before_save` reply-marker
  callback (the regex `/^@(.+) /` as a leftmost, greedy match specification
  and a scanner proved equal to it), `default_scope` ordering, and the scopes
  as set-comprehension-style queries. The direct-message scopes are
  test-derived (see below).
- `Users` (`user.rb` side, `user.dfy`): name, email, username and password
  validations (the email and username regexes as match specifications with
  checkers proved equivalent), case-insensitive uniqueness as a table
  invariant, the follow graph, the feed and the `dependent: :destroy`
  cascade as pure properties.
- `Database` (`database.dfy`): class `Store` holding the three tables; the
  operations that insert and delete rows (`follow!`, `unfollow!`,
  `following?`, destroying a user, saving users and microposts) are methods
  proved against the pure specifications above.

Where the code and the descriptions of the system disagree, the model follows
the code, except for `feed`, which calls a scope that does not exist (it would
raise `NoMethodError`) and is modelled after its tests:

- `follow!` appends a row even when the pair is already followed; the model
  proves that after two follows and one unfollow the pair is still followed.
- `unfollow!` with no row raises (it calls `destroy` on nil); `Store.Unfollow`
  returns `false` and changes nothing.
- The reply marker is the regex in the callback, not "`@` followed by a
  non-whitespace token": `.+` is greedy, so `@bob hi there` captures `bob hi`
  and the lookup then fails (`GreedyCapture`); `^` also matches after any line
  feed (`MentionOnLaterLine`); and content `d@name ...` does not match at all
  (`DirectMarkerNotMatched`), although spec/models/micropost_spec.rb:44-52
  expects such a post to be a direct message addressed to `name`. Nothing in
  the model code recognises the `d@` marker or sets the `direct_message` flag,
  so the flag is an input of `CreateMicropost` (part of the draft row).
- `feed` (app/models/user.rb:35) calls
  `from_users_followed_by_and_in_reply_to_and_direct_message`, which
  app/models/micropost.rb does not define, and nothing in the model code sets
  the `direct_message` column. The direct-message scopes
  (`FromUsersFollowedByAndInReplyToAndDirectMessage`, `PublicMicropostsFor`,
  `DirectMessageTo`) are therefore test-derived: their conditions are the
  ones spec/models/micropost_spec.rb and spec/models/user_spec.rb check, and
  `DirectMessageFeedAgreesOnPublicPosts` proves that on posts without the flag
  the feed selects exactly what `from_users_followed_by_and_in_reply_to` does.
- The username format `/^[\S]+$/` is anchored per line, so a username one of
  whose lines has no blank passes the format check (`UsernameFormatExamples`).

## Model

| member | source | states |
|---|---|---|
| `Utilities.FullTitle` | spec/support/utilities.rb:1-8 | the result starts with the base title and ends with the page title; its length is the base title's for an empty page title and base + 3 + page otherwise, with " \| " between the two |
| `Utilities.FullTitleOfEmpty` | spec/support/utilities.rb:3-4 | the full title is exactly the base title if and only if the page title is empty |
| `Utilities.FullTitleInjective` | spec/support/utilities.rb:1-8 | different page titles give different full titles |
| `Microposts.ValidationExamples` | app/models/micropost.rb:6-7 | content `" "`, content made only of Unicode white space (U+000B, U+00A0, U+2028), 141 characters, or a missing `user_id` fail validation; `Lorem ipsum` by a user passes |
| `Microposts.ReplyName` | app/models/micropost.rb:10 | no name exactly when the regex has no match anywhere; otherwise the name is the text between the `@` and the final space of the leftmost match, taken greedily, and is at least one character |
| `Microposts.ReplyNameOfMatch` | app/models/micropost.rb:10 | the leftmost greedy match determines the captured name uniquely |
| `Microposts.ReplyNameOfMention` | app/models/micropost.rb:10 | `@<name> <word>` with no space in name or word captures exactly the name |
| `Microposts.GreedyCapture` | app/models/micropost.rb:10 | `@bob hi there` captures `bob hi`: the capture runs to the last space of the line |
| `Microposts.MentionOnLaterLine` | app/models/micropost.rb:10 | `^` matches after a line feed: `hi\n@bob x` captures `bob` |
| `Microposts.DirectMarkerNotMatched` | app/models/micropost.rb:9-13 | single-line content `d@<name> ...` does not match, so the reply target stays as it was |
| `Microposts.FindByUsername` | app/models/micropost.rb:11 | no id exactly when no user has that username; otherwise the id of the first user whose username is exactly the name |
| `Microposts.ReplyTarget` | app/models/micropost.rb:9-13 | no match leaves the current value; after a match an id is stored iff some user has the captured username, and it is the id of such a user |
| `Microposts.OrderNewestFirst` | app/models/micropost.rb:15 | the result is ordered by `created_at` descending and is a permutation of the input |
| `Microposts.Query` | app/models/micropost.rb:15 | a query returns newest first exactly the stored rows that meet its condition, each as often as stored |
| `Microposts.FromUsersFollowedBy` | app/models/micropost.rb:28-33 | newest first; a post is in it iff it is stored and its author is the user or a user the user follows |
| `Microposts.InReplyTo` | app/models/micropost.rb:20 | newest first; a post is in it iff it is stored and its `in_reply_to_user_id` is the user |
| `Microposts.FromUsersFollowedByAndInReplyTo` | app/models/micropost.rb:35-42 | newest first; a post is in it iff it is stored and is authored by the user or a followed user, or addressed to the user |
| `Microposts.CombinedScopeIsUnion` | app/models/micropost.rb:18-22 | the combined scope is exactly the union of `from_users_followed_by` and `in_reply_to`, and returns only stored rows |
| `Microposts.ScopeExamples` | spec/models/micropost_spec.rb:55-85 | own and followed posts are in `from_users_followed_by`, an unfollowed author's post is not; a reply is in `in_reply_to`, a non-reply of the same author is not |
| `Microposts.FromUsersFollowedByAndInReplyToAndDirectMessage` | spec/models/micropost_spec.rb:87-121 | test-derived: newest first; own posts, followed users' posts without the direct-message flag, and posts addressed to the user |
| `Microposts.PublicMicropostsFor` | spec/models/micropost_spec.rb:143-156 | test-derived: newest first; the user's posts without the direct-message flag |
| `Microposts.DirectMessageTo` | spec/models/micropost_spec.rb:124-141 | test-derived: newest first; direct messages addressed to the user |
| `Microposts.DirectMessageExamples` | spec/models/micropost_spec.rb:87-156 | a stranger's direct message to the user is in the feed and in `direct_message_to`; a followed user's direct message to another is not in the feed; the user's own direct message is not public |
| `Microposts.DirectMessageFeedAgreesOnPublicPosts` | app/models/micropost.rb:35-42 | on posts without the direct-message flag the test-derived feed and `from_users_followed_by_and_in_reply_to` agree |
| `Users.ValidEmailFormat` | app/models/user.rb:27-28 | the check holds iff the whole string is one or more `[\w+\-.]`, `@`, one or more `[a-z\d\-.]`, `.`, one or more letters, case-insensitively |
| `Users.CommaInDomainRejected` | spec/models/user_spec.rb:69-75 | `user@foo,com` fails the format |
| `Users.MissingAtRejected` | spec/models/user_spec.rb:69-75 | `user_at_foo.org` fails the format |
| `Users.TrailingDotRejected` | spec/models/user_spec.rb:69-75 | `example.user@foo.` fails the format |
| `Users.UpperCaseEmailAccepted` | spec/models/user_spec.rb:77-83 | `A_USER@f.b.org` passes the format |
| `Users.PlusEmailAccepted` | spec/models/user_spec.rb:77-83 | `a+b@baz.cn` passes the format |
| `Users.SpaceFreeLineFrom` | app/models/user.rb:31 | true iff some line from the given line start on is non-empty and has no `\s` character |
| `Users.ValidUsernameFormat` | app/models/user.rb:30-31 | the check holds iff `/^[\S]+$/` matches some line of the username |
| `Users.UsernameFormatExamples` | spec/models/user_spec.rb:95-103 | `example` passes, `user name` fails, and `user name` followed by a line `example` passes |
| `Users.IdeographicSpaceUsername` | app/models/user.rb:30-31 | a username of one U+3000 passes the format yet is blank, so presence rejects it |
| `Users.UserValidationExamples` | spec/models/user_spec.rb:54-127 | a blank name (also one of U+00A0 alone) or a 51-character name, a 5-character password, and an email or username another user has in another case are each rejected |
| `Users.InsertValidUserKeepsUnique` | app/models/user.rb:28-31 | storing a user that passes validation under a fresh id keeps ids, emails and usernames unique ignoring case |
| `Users.FilterKeepsUnique` | app/models/user.rb:28-31 | deleting user rows keeps that uniqueness |
| `Users.FindByUsernameUnique` | app/models/micropost.rb:11 | under the uniqueness invariant the lookup of a stored user's username returns that user |
| `Users.ReplyToExistingUser` | app/models/micropost.rb:9-13 | saving `@<username> content` for a stored user sets the reply target to that user |
| `Users.ReplyToUnknownName` | app/models/micropost.rb:11 | saving a reply to a name no user has stores NULL |
| `Users.FollowedUsers` | app/models/user.rb:19 | a user id is followed iff a relationship row from the user to it exists |
| `Users.Followers` | app/models/user.rb:23 | a user id is a follower iff a relationship row from it to the user exists |
| `Users.FollowEffect` | app/models/user.rb:42-44 | after appending the row the pair is followed, appears in `followed_users` and `followers`, and no other pair changes |
| `Users.FollowThenUnfollow` | app/models/user.rb:42-48 | follow then unfollow on an unfollowed pair restores the table, so the pair is not followed |
| `Users.FollowTwiceUnfollowOnce` | app/models/user.rb:42-48 | follow is not de-duplicated: two follows and one unfollow leave the pair followed |
| `Users.UnfollowEffect` | app/models/user.rb:46-48 | unfollow removes exactly one row and changes no other pair |
| `Users.Feed` | app/models/user.rb:34-36 | newest first; own posts, followed users' posts without the direct-message flag, and posts addressed to the user |
| `Users.FeedMembership` | spec/models/user_spec.rb:171-210 | own, followed (not direct) and addressed posts are in the feed; an unfollowed author's post not addressed to the user is not, nor is another author's direct message to someone else |
| `Users.DestroyCascade` | app/models/user.rb:16-22 | after the cascade no feed shows the destroyed user's posts, it is nobody's follower or followed user, and every other post stays |
| `Seqs.RemoveFirstCount` | app/models/user.rb:46-48 | destroying the first found row takes away exactly one copy of that row when there is one, and no other row |
| `Database.Retain` | app/models/user.rb:16-22 | destroying rows one at a time leaves exactly the filtered table |
| `Database.Store.CreateUser` | app/models/user.rb:26-32 | the user is stored under the next id iff it passes every validation, and only then does the id sequence advance; the uniqueness invariant is kept |
| `Database.Store.CreateMicropost` | app/models/micropost.rb:6-13 | the post is stored iff valid, with the reply target the callback computes; only then does the micropost id sequence advance; nothing else changes |
| `Database.Store.Following` | app/models/user.rb:38-40 | finds a row iff the pair is followed, and it is the first such row |
| `Database.Store.Follow` | app/models/user.rb:42-44 | appends one row for the pair; users, microposts and id sequences unchanged |
| `Database.Store.Unfollow` | app/models/user.rb:46-48 | succeeds iff the pair was followed; removes the first row of the pair; nothing else changes, id sequences included |
| `Database.Store.Destroy` | app/models/user.rb:16-22 | removes the user's microposts, every relationship where it is follower or followed, and its row; every other row stays in order; the id sequences do not go back |
| `Database.DestroyedIdNotReused` | app/models/user.rb:5 | through the store's own contracts, a user saved after a user is destroyed gets a different id, since ids are never reused |
| `Database.FollowThenUnfollowRoundTrip` | spec/models/user_spec.rb:242-247 | through the store's own contracts, follow then unfollow leaves the pair unfollowed and the table as before |

## Left out

- Password handling (`has_secure_password`, `authenticate`, the confirmation
  check): bcrypt hashing inside the framework. Only the minimum length of the
  plain password is modelled.
- The remember token (`create_remember_token`): it comes from a random
  number generator.
- Updating an existing user or micropost: only inserts are modelled, so the
  uniqueness check's exclusion of the record itself appears only as `v.id != u.id`.
- `has_many :in_reply_to_microposts` (app/models/user.rb:17): with no foreign
  key it resolves to `user_id`, so it returns the user's own microposts; it is
  not modelled separately, and the replies addressed to a user are the
  `in_reply_to` scope.
- `Users.FollowedUsers`, `Users.Followers`: `has_many :through` joins the
  `users` table, so it yields only stored users; the model yields every id on
  an edge, and `Database.Store.Follow` accepts ids of users that are not
  stored (the source always passes a saved user). `Users.DestroyCascade` does
  prove that no edge names a destroyed user.
- `Text.IsBlankChar` takes U+180E as white space, as the Unicode 6.0 tables of
  Ruby 1.9 do; Unicode 6.3 and later Rubies no longer count it.
- Relationship row ids and the `Relationship` model's own validations
  (that file is not part of this model): a row is identified by its position
  in the table.
- `find_by_username` is modelled as an exact, case-sensitive comparison, as
  SQLite and PostgreSQL compare strings.
- `Database.Store.CreateMicropost`: the callback assigns the field on the Ruby
  record object in place; the model stores an updated copy, so aliasing of the
  record object is not captured.
- `Microposts.OrderNewestFirst`: SQL leaves the order of rows with equal
  `created_at` unspecified; the model fixes one order and promises only the
  descending order and the permutation.
- `Database.Store.Destroy`: the source destroys outgoing and incoming
  relationships in two passes; the model does one pass that removes the same
  rows.
- Controllers, mailers, the notification preference, views, migrations and
  request specs: HTTP, email delivery and page rendering are outside the
  data layer. The `user_preferences` table is not declared in the user model
  shown, so it is not part of this model.
- Timestamps and ids come from the clock and the database sequences; here
  `created_at` is supplied with the draft post and ids by counters in the store.
- Characters are Unicode code points; Ruby's string length on UTF-8 strings
  counts characters the same way. `LOWER` folds ASCII letters only.
