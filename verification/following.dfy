/** Following a reel's creator from its card. */
module Following {
  import opened Wrappers
  import opened Seqs
  import opened Entities

  /** The card's "already following" test: only a logged-in learner
      follows anyone, and a learner follows exactly the creators on their
      follow list. */
  predicate IsFollowing(current: Option<User>, creatorId: Id): (following: bool)
    ensures following ==> current.Some? && current.value.role == Learner
    ensures current.Some? && current.value.role == Learner ==>
      (following <==> creatorId in current.value.followingCreatorIds)
  {
    current.Some? && creatorId in current.value.followingCreatorIds && current.value.role == Learner
  }

  /** The follow handler gets past its guards: a learner is logged in who
      does not follow the creator yet. Self-follow and the target's role are
      not checked. */
  predicate MayFollow(current: Option<User>, creatorId: Id) {
    current.Some? && current.value.role == Learner && !IsFollowing(current, creatorId)
  }

  /** The handler's updater: append the creator to the follow list. */
  function AddFollow(creatorId: Id): User -> User {
    (u: User) => u.(followingCreatorIds := u.followingCreatorIds + [creatorId])
  }

  /** The follow button: append `creatorId` to the logged-in learner's
      follow list unless it is already there. */
  function Follow(users: seq<User>, currentUserId: Id, creatorId: Id): (r: seq<User>)
    ensures |r| == |users|
    ensures !MayFollow(FindUser(users, currentUserId), creatorId) ==> r == users
    ensures MayFollow(FindUser(users, currentUserId), creatorId) ==>
      forall i :: 0 <= i < |users| ==>
        r[i] == if users[i].id == currentUserId
                then users[i].(followingCreatorIds := users[i].followingCreatorIds + [creatorId])
                else users[i]
  {
    var current := FindUser(users, currentUserId);
    if current.None? || current.value.role != Learner then users
    else if IsFollowing(current, creatorId) then users
    else ReplaceById(users, UserKey, current.value.id, AddFollow(creatorId))
  }

  /** After following, the logged-in learner follows the creator, and the
      follow list is the old one, extended by the creator exactly when it
      was missing. */
  lemma FollowRecordsCreator(users: seq<User>, currentUserId: Id, creatorId: Id)
    requires FindUser(users, currentUserId).Some? && FindUser(users, currentUserId).value.role == Learner
    ensures
      var before := FindUser(users, currentUserId).value;
      var after := FindUser(Follow(users, currentUserId, creatorId), currentUserId);
      && IsFollowing(after, creatorId)
      && after.value.followingCreatorIds ==
           (if creatorId in before.followingCreatorIds then before.followingCreatorIds
            else before.followingCreatorIds + [creatorId])
      && after.value.(followingCreatorIds := before.followingCreatorIds) == before
  {
    if MayFollow(FindUser(users, currentUserId), creatorId) {
      FindAfterReplace(users, currentUserId, AddFollow(creatorId));
    }
  }

  /** Following twice is following once. */
  lemma FollowIdempotent(users: seq<User>, currentUserId: Id, creatorId: Id)
    ensures Follow(Follow(users, currentUserId, creatorId), currentUserId, creatorId)
         == Follow(users, currentUserId, creatorId)
  {
    var current := FindUser(users, currentUserId);
    if MayFollow(current, creatorId) {
      FindAfterReplace(users, currentUserId, AddFollow(creatorId));
    }
  }

  /** A duplicate-free follow list stays duplicate-free. */
  lemma FollowKeepsNoDup(users: seq<User>, currentUserId: Id, creatorId: Id)
    requires FindUser(users, currentUserId).Some?
    requires NoDup(FindUser(users, currentUserId).value.followingCreatorIds)
    ensures NoDup(FindUser(Follow(users, currentUserId, creatorId), currentUserId).value.followingCreatorIds)
  {
    var before := FindUser(users, currentUserId).value;
    if MayFollow(FindUser(users, currentUserId), creatorId) {
      FindAfterReplace(users, currentUserId, AddFollow(creatorId));
      AppendNoDup(before.followingCreatorIds, creatorId);
    }
  }
}
