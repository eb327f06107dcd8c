/** Per-learner completion of micro-courses: marking a reel complete, the
    percentage shown on the course card, and the profile's count of
    completed courses. */
module CourseProgress {
  import opened Wrappers
  import opened Seqs
  import opened Entities

  /** The reels `userId` has completed in `c`; a missing record reads as empty. */
  function Completed(c: Course, userId: Id): seq<Id> {
    if userId in c.progress then c.progress[userId].completedReelIds else []
  }

  /** The updater of the "Mark complete" button merged into the course:
      append the reel to the learner's record (created empty when missing)
      unless it is already there. The reel is not checked against the
      course's own reels. */
  function MarkComplete(c: Course, userId: Id, reelId: Id): (r: Course)
    ensures r.(progress := c.progress) == c
    ensures reelId in Completed(c, userId) ==> r == c
    ensures reelId !in Completed(c, userId) ==>
      r.progress == c.progress[userId := Progress(Completed(c, userId) + [reelId])]
  {
    var record := if userId in c.progress then c.progress[userId] else Progress([]);
    if reelId in record.completedReelIds then c
    else c.(progress := c.progress[userId := Progress(record.completedReelIds + [reelId])])
  }

  /** Marking never revokes: every record survives and only grows at its
      end, the marked reel is recorded, and other learners' records are
      untouched. */
  lemma MarkCompleteMonotone(c: Course, userId: Id, reelId: Id)
    ensures var r := MarkComplete(c, userId, reelId);
      && userId in r.progress
      && reelId in Completed(r, userId)
      && (forall v :: v in c.progress ==> v in r.progress)
      && (forall v :: Completed(c, v) <= Completed(r, v))
      && (forall v :: v != userId && v in c.progress ==> r.progress[v] == c.progress[v])
  {
    var r := MarkComplete(c, userId, reelId);
    if reelId in Completed(c, userId) {
      assert userId in c.progress;
    }
  }

  /** Marking the same reel twice is marking it once. */
  lemma MarkCompleteIdempotent(c: Course, userId: Id, reelId: Id)
    ensures MarkComplete(MarkComplete(c, userId, reelId), userId, reelId) == MarkComplete(c, userId, reelId)
  {
    MarkCompleteMonotone(c, userId, reelId);
  }

  /** A run of "Mark complete" clicks, as (learner, reel) pairs in order. */
  function MarkAll(c: Course, clicks: seq<(Id, Id)>): Course
    decreases |clicks|
  {
    if |clicks| == 0 then c
    else MarkAll(MarkComplete(c, clicks[0].0, clicks[0].1), clicks[1..])
  }

  /** Progress monotonicity over any run: each learner's completed list
      afterwards extends the one before, so its length never decreases. */
  lemma {:induction false} MarkAllMonotone(c: Course, clicks: seq<(Id, Id)>, v: Id)
    ensures Completed(c, v) <= Completed(MarkAll(c, clicks), v)
    ensures |Completed(c, v)| <= |Completed(MarkAll(c, clicks), v)|
    ensures MarkAll(c, clicks).(progress := c.progress) == c
    decreases |clicks|
  {
    if |clicks| > 0 {
      var next := MarkComplete(c, clicks[0].0, clicks[0].1);
      MarkCompleteMonotone(c, clicks[0].0, clicks[0].1);
      MarkAllMonotone(next, clicks[1..], v);
    }
  }

  /** The updater as a value for `ReplaceById`. */
  function MarkCompleteBy(userId: Id, reelId: Id): Course -> Course {
    (c: Course) => MarkComplete(c, userId, reelId)
  }

  /** The button on a reel card: with anyone logged in, mark the reel
      complete in every course carrying `courseId`; otherwise do nothing. */
  function MarkCompleteInCourses(courses: seq<Course>, current: Option<User>, courseId: Id, reelId: Id): (r: seq<Course>)
    ensures |r| == |courses|
    ensures current.None? ==> r == courses
    ensures current.Some? ==> forall i :: 0 <= i < |courses| ==>
      r[i] == if courses[i].id == courseId then MarkComplete(courses[i], current.value.id, reelId) else courses[i]
  {
    match current
    case None => courses
    case Some(u) => ReplaceById(courses, CourseKey, courseId, MarkCompleteBy(u.id, reelId))
  }

  /** The JavaScript number a rounded percentage can be: a whole number, NaN
      or positive Infinity. */
  datatype Percent = Whole(n: int) | NotANumber | PosInfinity

  /** The share done of total as a percentage, rounded to the nearest whole
      number with halves going up, computed on exact rationals. Zero over
      zero is NaN and anything else over zero is Infinity. */
  function RoundedPercent(done: nat, total: nat): (p: Percent)
    ensures total == 0 ==> p == if done == 0 then NotANumber else PosInfinity
    ensures total > 0 ==> p.Whole? && p.n >= 0
  {
    if total == 0 then (if done == 0 then NotANumber else PosInfinity)
    else Whole((200 * done + total) / (2 * total))
  }

  /** The rounded value is the integer nearest to `100 * done / total`,
      halves going up: `n - 1/2 <= 100 * done / total < n + 1/2`. */
  lemma RoundedPercentNearest(done: nat, total: nat)
    requires total > 0
    ensures var n := RoundedPercent(done, total).n;
      total * (2 * n - 1) <= 200 * done < total * (2 * n + 1)
  {
    var a := 200 * done + total;
    var b := 2 * total;
    var n := a / b;
    assert a == b * n + a % b && 0 <= a % b < b;
    assert total * (2 * n - 1) == b * n - total;
    assert total * (2 * n + 1) == b * n + total;
  }

  /** With at most `total` reels done the value lies in 0..100; it is 0
      with none done and 100 with all done. */
  lemma RoundedPercentBounds(done: nat, total: nat)
    requires 0 < total && done <= total
    ensures var n := RoundedPercent(done, total).n;
      && 0 <= n <= 100
      && (done == 0 ==> n == 0)
      && (done == total ==> n == 100)
  {
    var n := RoundedPercent(done, total).n;
    RoundedPercentNearest(done, total);
    assert total * (2 * n - 1) <= 200 * total by {
      assert 200 * done <= 200 * total;
    }
    MulCancel(total, 2 * n - 1, 200);
    if done == 0 {
      MulCancel(total, 2 * n - 1, 0);
    }
    if done == total {
      MulCancelStrict(total, 199, 2 * n + 1);
    }
  }

  /** Cancelling a positive factor on both sides of `<=`. */
  lemma MulCancel(t: int, x: int, y: int)
    requires t > 0 && t * x <= t * y
    ensures x <= y
  {
  }

  /** Cancelling a positive factor on both sides of `<`. */
  lemma MulCancelStrict(t: int, x: int, y: int)
    requires t > 0 && t * x < t * y
    ensures x < y
  {
  }

  /** `getProgress`: 0 with nobody logged in or no record; otherwise the
      rounded percentage of completed entries over the course's reels. */
  function ProgressPercent(c: Course, current: Option<User>): (p: Percent)
    ensures current.None? || current.value.id !in c.progress ==> p == Whole(0)
    ensures current.Some? && current.value.id in c.progress ==>
      p == RoundedPercent(|Completed(c, current.value.id)|, |c.reelIds|)
  {
    if current.None? then Whole(0)
    else if current.value.id !in c.progress then Whole(0)
    else RoundedPercent(|c.progress[current.value.id].completedReelIds|, |c.reelIds|)
  }

  /** A record that could have come from the reel cards: no reel twice,
      and only reels of the course. */
  predicate RecordOk(done: seq<Id>, reelIds: seq<Id>) {
    NoDup(done) && forall r :: r in done ==> r in reelIds
  }

  /** Every learner's record of `c` is `RecordOk`. */
  predicate ProgressWellFormed(c: Course) {
    forall u :: u in c.progress ==> RecordOk(c.progress[u].completedReelIds, c.reelIds)
  }

  /** A well-formed record never lists more reels than the course has. */
  lemma RecordWithinCourse(done: seq<Id>, reelIds: seq<Id>)
    requires RecordOk(done, reelIds)
    ensures |done| <= |reelIds|
  {
    NoDupCard(done);
    CardAtMostLength(reelIds);
    var a := set x | x in done;
    var b := set x | x in reelIds;
    assert a <= b;
    SubsetCard(a, b);
  }

  lemma SubsetCard<T>(a: set<T>, b: set<T>)
    requires a <= b
    ensures |a| <= |b|
  {
    assert b == a + (b - a);
  }

  /** Marking a reel of the course keeps every record well formed. */
  lemma MarkCompleteKeepsWellFormed(c: Course, userId: Id, reelId: Id)
    requires ProgressWellFormed(c) && reelId in c.reelIds
    ensures ProgressWellFormed(MarkComplete(c, userId, reelId))
  {
    var done := Completed(c, userId);
    if reelId !in done {
      AppendNoDup(done, reelId);
    }
  }

  /** For a well-formed course with reels, the shown progress is a whole
      number between 0 and 100. */
  lemma ProgressBounded(c: Course, current: Option<User>)
    requires ProgressWellFormed(c) && |c.reelIds| > 0
    ensures ProgressPercent(c, current).Whole?
    ensures 0 <= ProgressPercent(c, current).n <= 100
  {
    if current.Some? && current.value.id in c.progress {
      RecordWithinCourse(Completed(c, current.value.id), c.reelIds);
      RoundedPercentBounds(|Completed(c, current.value.id)|, |c.reelIds|);
    }
  }

  /** The profile's test: a record exists and is as long as the course.
      For a well-formed course without repeated reels this means the
      learner has completed every reel of the course. */
  predicate IsCourseComplete(c: Course, userId: Id): (complete: bool)
    ensures complete ==> userId in c.progress
    ensures ProgressWellFormed(c) && NoDup(c.reelIds) ==>
      (complete <==> userId in c.progress && forall r :: r in c.reelIds ==> r in Completed(c, userId))
  {
    if userId in c.progress then
      var done := c.progress[userId].completedReelIds;
      AllReelsDone(done, c.reelIds);
      |done| == |c.reelIds|
    else false
  }

  /** A record drawn from a course without repeated reels is as long as
      the course exactly when it holds every reel of the course. */
  lemma AllReelsDone(done: seq<Id>, reelIds: seq<Id>)
    ensures RecordOk(done, reelIds) && NoDup(reelIds) ==>
      (|done| == |reelIds| <==> forall r :: r in reelIds ==> r in done)
  {
    if RecordOk(done, reelIds) && NoDup(reelIds) {
      NoDupCard(done);
      NoDupCard(reelIds);
      var a := set x | x in done;
      var b := set x | x in reelIds;
      assert a <= b;
      assert b == a + (b - a);
      if |done| == |reelIds| {
        assert |b - a| == 0;
        assert b - a == {};
        forall r | r in reelIds ensures r in done {
          assert r in b && r !in b - a;
        }
      }
      if forall r :: r in reelIds ==> r in done {
        assert b <= a;
        assert a == b;
      }
    }
  }

  /** A completed course shows 100%. */
  lemma CompleteShowsHundred(c: Course, u: User)
    requires IsCourseComplete(c, u.id) && |c.reelIds| > 0
    ensures ProgressPercent(c, Some(u)) == Whole(100)
  {
    RoundedPercentBounds(|c.reelIds|, |c.reelIds|);
  }

  /** The converse fails: 199 of 200 reels round up to 100% although the
      profile does not count the course as completed. */
  lemma HundredWithoutCompletion(c: Course, u: User)
    requires |c.reelIds| == 200 && u.id in c.progress && |c.progress[u.id].completedReelIds| == 199
    ensures ProgressPercent(c, Some(u)) == Whole(100)
    ensures !IsCourseComplete(c, u.id)
  {
  }

  /** Once complete, a well-formed course stays complete when any of its
      reels is marked again. */
  lemma CompleteStaysComplete(c: Course, userId: Id, reelId: Id)
    requires ProgressWellFormed(c) && reelId in c.reelIds && IsCourseComplete(c, userId)
    ensures MarkComplete(c, userId, reelId) == c
  {
    MarkCompleteKeepsWellFormed(c, userId, reelId);
    var r := MarkComplete(c, userId, reelId);
    RecordWithinCourse(Completed(r, userId), r.reelIds);
  }

  /** The test "`userId` has completed the course", as a value for `Filter`. */
  function CompletedBy(userId: Id): Course -> bool {
    (c: Course) => IsCourseComplete(c, userId)
  }

  /** The profile's "Micro-courses completed" figure: the courses the
      logged-in learner has completed; always 0 for a creator. */
  function CompletedCourseCount(courses: seq<Course>, current: User): (n: nat)
    ensures n <= |courses|
    ensures current.role != Learner ==> n == 0
    ensures current.role == Learner && (forall c :: c in courses ==> !IsCourseComplete(c, current.id)) ==> n == 0
  {
    if current.role != Learner then 0
    else
      var done := Filter(courses, CompletedBy(current.id));
      assert |done| > 0 ==> done[0] in done;
      |done|
  }

  /** A single course counts once exactly when a learner has completed it. */
  lemma CompletedCourseCountOne(c: Course, current: User)
    ensures CompletedCourseCount([c], current) ==
      if current.role == Learner && IsCourseComplete(c, current.id) then 1 else 0
  {
    FilterHead([c], CompletedBy(current.id));
    assert [c][1..] == [];
  }

  /** The count adds up over any split of the course list. */
  lemma CompletedCourseCountSplit(a: seq<Course>, b: seq<Course>, current: User)
    ensures CompletedCourseCount(a + b, current) == CompletedCourseCount(a, current) + CompletedCourseCount(b, current)
  {
    FilterConcat(a, b, CompletedBy(current.id));
  }

  /** Marking a reel of its course never lowers a learner's completed-course
      count, as long as every course's progress is well formed. */
  lemma MarkCompleteKeepsCount(courses: seq<Course>, current: User, courseId: Id, reelId: Id)
    requires forall c :: c in courses ==> ProgressWellFormed(c)
    requires forall c :: c in courses && c.id == courseId ==> reelId in c.reelIds
    ensures CompletedCourseCount(courses, current) <=
            CompletedCourseCount(MarkCompleteInCourses(courses, Some(current), courseId, reelId), current)
  {
    var after := MarkCompleteInCourses(courses, Some(current), courseId, reelId);
    var p := CompletedBy(current.id);
    forall i | 0 <= i < |courses| && p(courses[i]) ensures p(after[i]) {
      if courses[i].id == courseId {
        CompleteStaysComplete(courses[i], current.id, reelId);
      }
    }
    FilterPointwise(courses, after, p);
  }

  /** The worked example: a two-reel course and a learner without a record
      go 0%, then 50% after the first reel, then 100% and complete after the
      second. */
  lemma ProgressExample(c: Course, u: User)
    requires c.reelIds == ["r1", "r2"] && u.id !in c.progress
    ensures ProgressPercent(c, Some(u)) == Whole(0)
    ensures ProgressPercent(MarkComplete(c, u.id, "r1"), Some(u)) == Whole(50)
    ensures ProgressPercent(MarkComplete(MarkComplete(c, u.id, "r1"), u.id, "r2"), Some(u)) == Whole(100)
    ensures IsCourseComplete(MarkComplete(MarkComplete(c, u.id, "r1"), u.id, "r2"), u.id)
  {
    var c1 := MarkComplete(c, u.id, "r1");
    assert Completed(c1, u.id) == ["r1"];
    assert "r2" !in ["r1"];
  }
}
