/** The three tables held in memory, and the operations of the models that
    insert and delete rows. */
module Database {
  import opened Wrappers
  import opened Seqs
  import opened Schema
  import opened Microposts
  import opened Users

  /** Destroys every row that `keep` rejects, one row at a time, as
      `dependent: :destroy` does for an association. */
  method Retain<T(==,!new)>(keep: T -> bool, rows: seq<T>) returns (kept: seq<T>)
    ensures kept == Filter(keep, rows)
  {
    kept := [];
    var i := 0;
    while i < |rows|
      invariant 0 <= i <= |rows|
      invariant kept == Filter(keep, rows[..i])
    {
      FilterSnoc(keep, rows[..i], rows[i]);
      assert rows[..i + 1] == rows[..i] + [rows[i]];
      if keep(rows[i]) {
        kept := kept + [rows[i]];
      }
      i := i + 1;
    }
    assert rows[..i] == rows;
  }

  class Store {
    var users: seq<User>
    var microposts: seq<Micropost>
    var relationships: seq<Relationship>
    /** The ids the database sequences hand out next. */
    var nextUserId: int
    var nextMicropostId: int

    /** The users table keeps its uniqueness invariant and the sequences are
        ahead of every stored id. */
    ghost predicate Valid()
      reads this
    {
      && UniqueIdentities(users)
      && (forall u :: u in users ==> u.id < nextUserId)
      && (forall m :: m in microposts ==> m.id < nextMicropostId)
    }

    constructor ()
      ensures Valid()
      ensures users == [] && microposts == [] && relationships == []
    {
      users, microposts, relationships := [], [], [];
      nextUserId, nextMicropostId := 1, 1;
    }

    /** Saves a new user: the record gets the next id and is stored only if it
        passes every validation. */
    method CreateUser(name: string, email: string, username: string, password: string)
      returns (created: Option<User>)
      requires Valid()
      modifies this
      ensures Valid()
      ensures var u := User(old(nextUserId), name, email, username, password);
              && (created.Some? <==> ValidUser(old(users), u))
              && (created.Some? ==> created.value == u && users == old(users) + [u])
      ensures created.None? ==> users == old(users)
      ensures microposts == old(microposts) && relationships == old(relationships)
      ensures nextUserId == old(nextUserId) + (if created.Some? then 1 else 0)
      ensures nextMicropostId == old(nextMicropostId)
    {
      var u := User(nextUserId, name, email, username, password);
      if !ValidUser(users, u) {
        return None;
      }
      InsertValidUserKeepsUnique(users, u);
      users := users + [u];
      nextUserId := nextUserId + 1;
      created := Some(u);
    }

    /** Saves a new micropost: validation first, then the `before_save`
        callback, which sets `in_reply_to_user` when the content carries a
        reply marker, then the insert under the next id. */
    method CreateMicropost(draft: Micropost) returns (saved: Option<Micropost>)
      requires Valid()
      modifies this
      ensures Valid()
      ensures saved.Some? <==> ValidMicropost(draft)
      ensures saved.Some? ==>
                && saved.value == draft.(id := old(nextMicropostId),
                                         inReplyToUserId := ReplyTarget(old(users), draft.content, draft.inReplyToUserId))
                && microposts == old(microposts) + [saved.value]
      ensures saved.None? ==> microposts == old(microposts)
      ensures users == old(users) && relationships == old(relationships)
      ensures nextMicropostId == old(nextMicropostId) + (if saved.Some? then 1 else 0)
      ensures nextUserId == old(nextUserId)
    {
      if !ValidMicropost(draft) {
        return None;
      }
      var record := draft.(id := nextMicropostId);
      match ReplyName(record.content) {
        case Some(name) =>
          record := record.(inReplyToUserId := FindByUsername(users, name));
        case None =>
      }
      microposts := microposts + [record];
      nextMicropostId := nextMicropostId + 1;
      saved := Some(record);
    }

    /** `following?`: the position of the first relationship row from
        `follower` to `followed`, if there is one. */
    method Following(follower: int, followed: int) returns (found: Option<nat>)
      ensures found.None? <==> !Follows(relationships, follower, followed)
      ensures found.Some? ==> && found.value < |relationships|
                              && relationships[found.value] == Relationship(follower, followed)
                              && Relationship(follower, followed) !in relationships[..found.value]
    {
      var i := 0;
      while i < |relationships|
        invariant 0 <= i <= |relationships|
        invariant Relationship(follower, followed) !in relationships[..i]
      {
        if relationships[i] == Relationship(follower, followed) {
          return Some(i);
        }
        assert relationships[..i + 1] == relationships[..i] + [relationships[i]];
        i := i + 1;
      }
      assert relationships[..i] == relationships;
      return None;
    }

    /** `follow!`: appends one relationship row, without checking for an
        existing one. */
    method Follow(follower: int, followed: int)
      requires Valid()
      modifies this
      ensures Valid()
      ensures relationships == old(relationships) + [Relationship(follower, followed)]
      ensures users == old(users) && microposts == old(microposts)
      ensures nextUserId == old(nextUserId) && nextMicropostId == old(nextMicropostId)
    {
      relationships := relationships + [Relationship(follower, followed)];
    }

    /** `unfollow!`: destroys the first relationship row of the pair. Without
        one the source calls `destroy` on nil and raises; here `ok` is false
        and nothing changes. */
    method Unfollow(follower: int, followed: int) returns (ok: bool)
      requires Valid()
      modifies this
      ensures Valid()
      ensures ok <==> Follows(old(relationships), follower, followed)
      ensures relationships == RemoveFirst(old(relationships), Relationship(follower, followed))
      ensures users == old(users) && microposts == old(microposts)
      ensures nextUserId == old(nextUserId) && nextMicropostId == old(nextMicropostId)
    {
      var found := Following(follower, followed);
      if found.None? {
        return false;
      }
      var i := found.value;
      RemoveFirstAt(relationships, Relationship(follower, followed), i);
      relationships := relationships[..i] + relationships[i + 1..];
      ok := true;
    }

    /** `destroy` on a user: its microposts, the relationships where it is
        follower or followed, then its own row. */
    method Destroy(id: int)
      requires Valid()
      modifies this
      ensures Valid()
      ensures microposts == Filter(KeepsPost(id), old(microposts))
      ensures relationships == Filter(KeepsEdge(id), old(relationships))
      ensures users == Filter(KeepsUser(id), old(users))
      ensures nextUserId == old(nextUserId) && nextMicropostId == old(nextMicropostId)
    {
      microposts := Retain(KeepsPost(id), microposts);
      relationships := Retain(KeepsEdge(id), relationships);
      FilterKeepsUnique(KeepsUser(id), users);
      users := Retain(KeepsUser(id), users);
    }
  }

  /** A client of the store: after a user is destroyed, the next user saved
      gets a different id, so replies still addressed to the destroyed user
      never reach the newcomer. */
  method DestroyedIdNotReused(store: Store, id: int, name: string, email: string, username: string, password: string)
      returns (created: Option<User>)
    requires store.Valid() && exists u :: u in store.users && u.id == id
    modifies store
    ensures store.Valid()
    ensures created.Some? ==> created.value.id != id && created.value in store.users
  {
    store.Destroy(id);
    created := store.CreateUser(name, email, username, password);
  }

  /** A client of the store: following a user not followed before and then
      unfollowing it leaves the relationships as they were. */
  method FollowThenUnfollowRoundTrip(store: Store, follower: int, followed: int)
    requires store.Valid() && !Follows(store.relationships, follower, followed)
    modifies store
    ensures store.Valid()
    ensures store.relationships == old(store.relationships)
    ensures !Follows(store.relationships, follower, followed)
  {
    store.Follow(follower, followed);
    var ok := store.Unfollow(follower, followed);
    assert ok;
    RemoveFirstOfAppended(old(store.relationships), Relationship(follower, followed));
  }
}
