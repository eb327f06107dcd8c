/** The in-memory data model of the learning platform (users, reels,
    micro-courses) and the store helpers that look a user up and replace an
    entity by id. */
module Entities {
  import opened Wrappers

  type Id = string

  datatype Role = Learner | Creator

  datatype Level = Beginner | Intermediate | Advanced

  datatype Playlist = Playlist(id: Id, name: string, reelIds: seq<Id>)

  datatype User = User(
    id: Id,
    name: string,
    role: Role,
    interests: seq<string>,
    followingCreatorIds: seq<Id>,
    playlists: seq<Playlist>)

  datatype Quiz = Quiz(question: string, options: seq<string>, correctIndex: int)

  datatype Comment = Comment(id: Id, userName: string, text: string)

  datatype Poll = Poll(question: string, options: seq<string>, votes: seq<nat>)

  datatype Reel = Reel(
    id: Id,
    title: string,
    creatorId: Id,
    durationSec: int,
    topic: string,
    concept: string,
    level: Level,
    url: string,
    summary: string,
    quiz: Quiz,
    comments: seq<Comment>,
    poll: Poll)

  /** One learner's record inside a course. */
  datatype Progress = Progress(completedReelIds: seq<Id>)

  datatype Course = Course(
    id: Id,
    title: string,
    description: string,
    creatorId: Id,
    reelIds: seq<Id>,
    level: Level,
    tags: seq<string>,
    progress: map<Id, Progress>)

  function UserKey(u: User): Id { u.id }

  function CourseKey(c: Course): Id { c.id }

  /** Position of the first user with this id, or `|users|` when none has it. */
  function FirstIndex(users: seq<User>, id: Id): (i: nat)
    ensures i <= |users|
    ensures forall j :: 0 <= j < i ==> users[j].id != id
    ensures i < |users| ==> users[i].id == id
  {
    if |users| == 0 then 0
    else if users[0].id == id then 0
    else 1 + FirstIndex(users[1..], id)
  }

  /** The first user carrying `id`, if any: how the logged-in user is
      looked up. */
  function FindUser(users: seq<User>, id: Id): (r: Option<User>)
    ensures r.Some? ==> r.value in users && r.value.id == id
    ensures r.None? <==> forall u :: u in users ==> u.id != id
  {
    var i := FirstIndex(users, id);
    if i < |users| then Some(users[i]) else None
  }

  /** The store's update by id: every entity carrying `id` is replaced by
      `f` of it, every other entity is kept, and the order is unchanged.
      The updater returns the merged record; Dafny's `x.(field := v)` plays
      the part of the shallow merge of the fields the source's updater
      returns. */
  function ReplaceById<T>(xs: seq<T>, idOf: T -> Id, id: Id, f: T -> T): (r: seq<T>)
    ensures |r| == |xs|
    ensures forall i :: 0 <= i < |xs| ==> r[i] == if idOf(xs[i]) == id then f(xs[i]) else xs[i]
  {
    if |xs| == 0 then []
    else [if idOf(xs[0]) == id then f(xs[0]) else xs[0]] + ReplaceById(xs[1..], idOf, id, f)
  }

  /** No two entities share an id. */
  predicate UniqueIds<T>(xs: seq<T>, idOf: T -> Id) {
    forall i, j :: 0 <= i < j < |xs| ==> idOf(xs[i]) != idOf(xs[j])
  }

  /** Replacing by id is a no-op when no entity carries that id. */
  lemma ReplaceMissing<T>(xs: seq<T>, idOf: T -> Id, id: Id, f: T -> T)
    requires forall i :: 0 <= i < |xs| ==> idOf(xs[i]) != id
    ensures ReplaceById(xs, idOf, id, f) == xs
  {
  }

  /** An updater that keeps ids keeps the store's ids where they were, so
      the unique-id invariant survives every replace. */
  lemma ReplaceKeepsIds<T>(xs: seq<T>, idOf: T -> Id, id: Id, f: T -> T)
    requires forall x :: idOf(f(x)) == idOf(x)
    ensures forall i :: 0 <= i < |xs| ==> idOf(ReplaceById(xs, idOf, id, f)[i]) == idOf(xs[i])
    ensures UniqueIds(xs, idOf) ==> UniqueIds(ReplaceById(xs, idOf, id, f), idOf)
  {
  }

  /** Replacing twice with an updater that keeps ids and is idempotent is
      replacing once. */
  lemma ReplaceTwice<T>(xs: seq<T>, idOf: T -> Id, id: Id, f: T -> T)
    requires forall x :: idOf(f(x)) == idOf(x) && f(f(x)) == f(x)
    ensures ReplaceById(ReplaceById(xs, idOf, id, f), idOf, id, f) == ReplaceById(xs, idOf, id, f)
  {
    var once := ReplaceById(xs, idOf, id, f);
    var twice := ReplaceById(once, idOf, id, f);
    forall i | 0 <= i < |xs| ensures twice[i] == once[i] {
      if idOf(xs[i]) == id {
        assert once[i] == f(xs[i]);
      }
    }
  }

  /** After an id-keeping replace, looking the user up again finds the
      updated version of the user found before. */
  lemma {:induction false} FindAfterReplace(users: seq<User>, id: Id, f: User -> User)
    requires forall u :: f(u).id == u.id
    ensures FirstIndex(ReplaceById(users, UserKey, id, f), id) == FirstIndex(users, id)
    ensures FindUser(ReplaceById(users, UserKey, id, f), id) ==
      if FindUser(users, id).Some? then Some(f(FindUser(users, id).value)) else None
  {
    var r := ReplaceById(users, UserKey, id, f);
    if |users| > 0 && users[0].id != id {
      FindAfterReplace(users[1..], id, f);
      assert r[1..] == ReplaceById(users[1..], UserKey, id, f);
    }
  }
}
