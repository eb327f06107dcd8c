/** The two feed derivations of the learner's home screen: the
    personalised ("For You") ranking and the "Following" filter. */
module Feed {
  import opened Wrappers
  import opened Seqs
  import opened Entities
  import opened StableSort

  /** The ranking heuristic: 2 for a topic of interest, 1 for a concept of
      interest, 3 for a followed creator. */
  function Score(u: User, r: Reel): (s: nat)
    ensures s <= 6
    ensures s == 0 <==>
      r.topic !in u.interests && r.concept !in u.interests && r.creatorId !in u.followingCreatorIds
    ensures s >= 4 ==> r.creatorId in u.followingCreatorIds
  {
    (if r.topic in u.interests then 2 else 0)
    + (if r.concept in u.interests then 1 else 0)
    + (if r.creatorId in u.followingCreatorIds then 3 else 0)
  }

  /** The score as a sort key. */
  function ScoreOf(u: User): Reel -> int {
    (r: Reel) => Score(u, r)
  }

  /** The "For You" feed: every reel, by descending score, ties kept in
      collection order; nothing without a logged-in user. */
  function PersonalizedFeed(current: Option<User>, reels: seq<Reel>): (feed: seq<Reel>)
    ensures current.None? ==> feed == []
    ensures current.Some? ==> multiset(feed) == multiset(reels)
    ensures current.Some? ==> SortedDesc(feed, ScoreOf(current.value))
  {
    match current
    case None => []
    case Some(u) => Sort(reels, ScoreOf(u))
  }

  /** Reels with equal score keep their relative order from the collection. */
  lemma PersonalizedFeedStable(u: User, reels: seq<Reel>, k: int)
    ensures Filter(PersonalizedFeed(Some(u), reels), HasKey(ScoreOf(u), k))
         == Filter(reels, HasKey(ScoreOf(u), k))
  {
    SortStable(reels, ScoreOf(u), k);
  }

  /** The personalised feed is the one and only ordering of the reels
      that is by non-increasing score and keeps each score's reels in
      collection order. */
  lemma PersonalizedFeedUnique(u: User, reels: seq<Reel>, feed: seq<Reel>)
    ensures feed == PersonalizedFeed(Some(u), reels) <==>
      SortedDesc(feed, ScoreOf(u)) && SameClasses(feed, reels, ScoreOf(u))
  {
    SortCharacterization(reels, feed, ScoreOf(u));
  }

  /** The test "made by a creator `u` follows". */
  function ByFollowed(u: User): Reel -> bool {
    (r: Reel) => r.creatorId in u.followingCreatorIds
  }

  /** The "Following" feed: the reels of followed creators, in collection
      order; nothing without a logged-in user. */
  function FollowingFeed(current: Option<User>, reels: seq<Reel>): (feed: seq<Reel>)
    ensures |feed| <= |reels|
    ensures current.None? ==> feed == []
    ensures current.Some? ==> forall r :: r in feed <==>
      r in reels && r.creatorId in current.value.followingCreatorIds
  {
    match current
    case None => []
    case Some(u) => Filter(reels, ByFollowed(u))
  }

  /** The following feed keeps every copy of a followed creator's reel and
      no copy of any other. */
  lemma FollowingFeedCount(u: User, reels: seq<Reel>, r: Reel)
    ensures multiset(FollowingFeed(Some(u), reels))[r] ==
      if r.creatorId in u.followingCreatorIds then multiset(reels)[r] else 0
  {
    FilterCount(reels, ByFollowed(u), r);
  }

  /** The following feed never reorders: it distributes over splitting the
      collection anywhere. */
  lemma FollowingFeedOrder(u: User, a: seq<Reel>, b: seq<Reel>)
    ensures FollowingFeed(Some(u), a + b) == FollowingFeed(Some(u), a) + FollowingFeed(Some(u), b)
  {
    FilterConcat(a, b, ByFollowed(u));
  }

  /** The worked example: interests [DSA], following [c1]; r1 (DSA by c1)
      scores 5, r3 (English by c1) scores 3, r2 (DSA by c2) scores 2, so the
      feed reads r1, r3, r2. */
  lemma PersonalizedFeedExample(u: User, r1: Reel, r2: Reel, r3: Reel)
    requires u.interests == ["DSA"] && u.followingCreatorIds == ["c1"]
    requires r1.topic == "DSA" && r1.concept == "Binary Search" && r1.creatorId == "c1"
    requires r2.topic == "DSA" && r2.concept == "Complexity" && r2.creatorId == "c2"
    requires r3.topic == "English" && r3.concept == "Present Perfect" && r3.creatorId == "c1"
    ensures PersonalizedFeed(Some(u), [r1, r2, r3]) == [r1, r3, r2]
  {
    var key := ScoreOf(u);
    assert key(r1) == 5 && key(r2) == 2 && key(r3) == 3;
    SortOfThree(r1, r2, r3, key);
  }

  /** Sorting three elements whose keys are 5, 2 and 3. */
  lemma SortOfThree<T(!new)>(a: T, b: T, c: T, key: T -> int)
    requires key(a) == 5 && key(b) == 2 && key(c) == 3
    ensures Sort([a, b, c], key) == [a, c, b]
  {
    assert Sort([a], key) == [a] by { assert [a][..0] == []; }
    assert Sort([a, b], key) == [a, b] by { assert [a, b][..1] == [a]; }
    assert Insert(c, [a, b], key) == [a, c, b] by { assert [a, b][1..] == [b]; }
    assert [a, b, c][..2] == [a, b];
  }
}
