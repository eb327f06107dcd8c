/** The creator studio: uploading a reel, picking reels for a course, and
    building the micro-course. */
module Authoring {
  import opened Wrappers
  import opened Seqs
  import opened Text
  import opened Entities
  import opened CourseProgress

  /** The studio is only offered to a logged-in creator. */
  predicate IsCreator(current: Option<User>) {
    current.Some? && current.value.role == Creator
  }

  /** The upload form's fields. Numeric fields arrive as integers. */
  datatype ReelForm = ReelForm(
    title: string,
    durationSec: int,
    topic: string,
    concept: string,
    level: Level,
    summary: string,
    quizQuestion: string,
    quizOptions: string,
    correctIndex: int)

  /** The trimmed field, or `fallback` when the field is blank. */
  function TrimOr(s: string, fallback: string): (r: string)
    ensures !IsBlank(s) ==> r == Trim(s)
    ensures IsBlank(s) ==> r == fallback
  {
    var t := Trim(s);
    if t == [] then fallback else t
  }

  /** The quiz options typed one per line (each trimmed, blank lines
      dropped), or two placeholders when the text is blank. */
  function QuizOptions(text: string): (options: seq<string>)
    ensures |options| >= 1
    ensures forall o :: o in options ==> o != [] && IsTrimmed(o) && '\n' !in o
    ensures IsBlank(text) ==> options == ["Option A", "Option B"]
    ensures !IsBlank(text) ==> options == Fields(text, '\n')
  {
    FieldsEmpty(text, '\n');
    var lines := Fields(text, '\n');
    if |lines| > 0 then lines else ["Option A", "Option B"]
  }

  /** Options written one per line are read back as written. */
  lemma QuizOptionsRoundTrip(options: seq<string>)
    requires |options| > 0
    requires forall o :: o in options ==> o != [] && IsTrimmed(o) && '\n' !in o
    ensures QuizOptions(Join(options, '\n')) == options
  {
    FieldsJoin(options, '\n');
  }

  /** The reel the upload form builds, with the form's defaults filled in.
      The correct index is taken as typed, not checked against the options. */
  function NewReel(form: ReelForm, creatorId: Id, freshId: Id): (r: Reel)
    ensures r.id == freshId && r.creatorId == creatorId && r.level == form.level
    ensures r.title == Trim(form.title) && r.topic == Trim(form.topic) && r.concept == Trim(form.concept)
    ensures r.durationSec == if form.durationSec == 0 then 60 else form.durationSec
    ensures r.summary != [] && r.quiz.question != []
    ensures r.summary == TrimOr(form.summary, "Short AI-style summary of this reel.")
    ensures r.quiz.question == TrimOr(form.quizQuestion, "Quick understanding check.")
    ensures r.quiz.options == QuizOptions(form.quizOptions)
    ensures r.quiz.correctIndex == form.correctIndex
    ensures r.comments == []
    ensures r.poll == Poll("Was this helpful?", ["Yes", "No"], [0, 0])
  {
    Reel(
      freshId,
      Trim(form.title),
      creatorId,
      if form.durationSec == 0 then 60 else form.durationSec,
      Trim(form.topic),
      Trim(form.concept),
      form.level,
      "",
      TrimOr(form.summary, "Short AI-style summary of this reel."),
      Quiz(TrimOr(form.quizQuestion, "Quick understanding check."), QuizOptions(form.quizOptions), form.correctIndex),
      [],
      Poll("Was this helpful?", ["Yes", "No"], [0, 0]))
  }

  /** "Create Reel": for a creator and a title and topic that are not
      blank, put the new reel at the front of the collection. */
  function CreateReel(reels: seq<Reel>, current: Option<User>, freshId: Id, form: ReelForm): (r: seq<Reel>)
    ensures !IsCreator(current) || IsBlank(form.title) || IsBlank(form.topic) ==> r == reels
    ensures IsCreator(current) && !IsBlank(form.title) && !IsBlank(form.topic) ==>
      && |r| == |reels| + 1
      && r[1..] == reels
      && r[0] == NewReel(form, current.value.id, freshId)
      && r[0].title != [] && r[0].topic != []
  {
    if !IsCreator(current) || Trim(form.title) == [] || Trim(form.topic) == [] then reels
    else [NewReel(form, current.value.id, freshId)] + reels
  }

  /** A reel whose poll can be voted on option by option and whose quiz
      has at least one option. */
  predicate ReelWellFormed(r: Reel) {
    |r.poll.votes| == |r.poll.options| && |r.quiz.options| >= 1 && r.title != []
  }

  /** Uploading with a fresh id keeps reel ids unique and every reel well formed. */
  lemma CreateReelKeepsInvariants(reels: seq<Reel>, current: Option<User>, freshId: Id, form: ReelForm)
    requires UniqueIds(reels, (r: Reel) => r.id)
    requires forall r :: r in reels ==> ReelWellFormed(r) && r.id != freshId
    ensures var after := CreateReel(reels, current, freshId, form);
      && UniqueIds(after, (r: Reel) => r.id)
      && forall r :: r in after ==> ReelWellFormed(r)
  {
    var after := CreateReel(reels, current, freshId, form);
    if after != reels {
      forall i, j | 0 <= i < j < |after| ensures after[i].id != after[j].id {
        if i == 0 {
          assert after[j] == reels[j - 1];
          assert reels[j - 1] in reels;
        } else {
          assert after[i] == reels[i - 1] && after[j] == reels[j - 1];
        }
      }
    }
  }

  /** The test "is not `id`", as a value for `Filter`. */
  function Other(id: Id): Id -> bool {
    (x: Id) => x != id
  }

  /** The course builder's checkbox: drop the reel when selected, append
      it otherwise. The selection's order becomes the course's reel order. */
  function ToggleReelSelection(selected: seq<Id>, reelId: Id): (r: seq<Id>)
    ensures reelId in r <==> reelId !in selected
    ensures forall x :: x != reelId ==> (x in r <==> x in selected)
    ensures reelId !in selected ==> r == selected + [reelId]
    ensures reelId in selected ==>
      forall x :: multiset(r)[x] == if x == reelId then 0 else multiset(selected)[x]
  {
    if reelId in selected then
      assert forall x :: multiset(Filter(selected, Other(reelId)))[x]
                         == if x == reelId then 0 else multiset(selected)[x] by {
        forall x {
          FilterCount(selected, Other(reelId), x);
        }
      }
      Filter(selected, Other(reelId))
    else selected + [reelId]
  }

  /** Unticking a reel removes it and keeps the other reels in their order. */
  lemma UntickKeepsOrder(a: seq<Id>, b: seq<Id>, reelId: Id)
    requires reelId !in a && reelId !in b
    ensures ToggleReelSelection(a + [reelId] + b, reelId) == a + b
  {
    var sel := a + [reelId] + b;
    assert reelId in sel;
    FilterDropOne(a, reelId, b, Other(reelId));
  }

  /** A selection built by toggling never lists a reel twice. */
  lemma ToggleKeepsNoDup(selected: seq<Id>, reelId: Id)
    requires NoDup(selected)
    ensures NoDup(ToggleReelSelection(selected, reelId))
  {
    if reelId in selected {
      FilterNoDup(selected, Other(reelId));
    } else {
      AppendNoDup(selected, reelId);
    }
  }

  /** Ticking an unselected reel and unticking it restores the selection. */
  lemma ToggleTwice(selected: seq<Id>, reelId: Id)
    requires reelId !in selected
    ensures ToggleReelSelection(ToggleReelSelection(selected, reelId), reelId) == selected
  {
    var p := Other(reelId);
    FilterConcat(selected, [reelId], p);
    FilterAll(selected, p);
    assert Filter([reelId], p) == [];
  }

  /** The course builder's fields. */
  datatype CourseForm = CourseForm(title: string, description: string, level: Level, tags: string)

  /** The course the builder creates: trimmed title and description, the
      selected reels, the comma-separated tags, and no progress yet. */
  function NewCourse(form: CourseForm, creatorId: Id, freshId: Id, selected: seq<Id>): (c: Course)
    ensures c.id == freshId && c.creatorId == creatorId && c.reelIds == selected && c.level == form.level
    ensures c.title == Trim(form.title) && c.description == Trim(form.description)
    ensures forall t :: t in c.tags ==> t != [] && IsTrimmed(t) && ',' !in t
    ensures c.tags == Fields(form.tags, ',')
    ensures c.progress == map[]
  {
    Course(freshId, Trim(form.title), Trim(form.description), creatorId, selected, form.level,
           Fields(form.tags, ','), map[])
  }

  /** Tags typed with commas between them are read back as typed. */
  lemma CourseTagsRoundTrip(form: CourseForm, creatorId: Id, freshId: Id, selected: seq<Id>, tags: seq<string>)
    requires forall t :: t in tags ==> t != [] && IsTrimmed(t) && ',' !in t
    requires form.tags == Join(tags, ',')
    ensures NewCourse(form, creatorId, freshId, selected).tags == tags
  {
    FieldsJoin(tags, ',');
  }

  /** Two tags typed with a space after the comma, as in "DSA, placements",
      are trimmed and kept in order. */
  lemma CourseTagsSpaced(form: CourseForm, creatorId: Id, freshId: Id, selected: seq<Id>, a: string, b: string)
    requires a != [] && IsTrimmed(a) && ',' !in a
    requires b != [] && IsTrimmed(b) && ',' !in b
    requires form.tags == a + [','] + ([' '] + b)
    ensures NewCourse(form, creatorId, freshId, selected).tags == [a, b]
  {
    var b' := [' '] + b;
    FieldsCat(a, b', ',');
    assert ',' !in b' by {
      assert forall k :: 0 < k < |b'| ==> b'[k] == b[k - 1];
    }
    FieldsOne(a, ',');
    FieldsOne(b', ',');
    assert !IsSpace(a[0]) && !IsSpace(b'[1]);
    TrimOfTrimmed(a);
    assert b'[1..] == b;
    assert TrimStart(b') == TrimStart(b);
    assert TrimStart(b) == b;
    TrimOfTrimmed(b);
  }

  /** "Create Micro-Course": for a creator, a title that is not blank and
      a non-empty selection, append the new course. */
  function CreateCourse(courses: seq<Course>, current: Option<User>, freshId: Id, form: CourseForm, selected: seq<Id>): (r: seq<Course>)
    ensures !IsCreator(current) || IsBlank(form.title) || |selected| == 0 ==> r == courses
    ensures IsCreator(current) && !IsBlank(form.title) && |selected| > 0 ==>
      && |r| == |courses| + 1
      && r[..|courses|] == courses
      && r[|courses|] == NewCourse(form, current.value.id, freshId, selected)
      && r[|courses|].title != [] && |r[|courses|].reelIds| > 0
  {
    if !IsCreator(current) || Trim(form.title) == [] || |selected| == 0 then courses
    else courses + [NewCourse(form, current.value.id, freshId, selected)]
  }

  /** A new course starts well formed, with every learner at 0%. */
  lemma NewCourseStartsEmpty(form: CourseForm, creatorId: Id, freshId: Id, selected: seq<Id>, u: User)
    ensures ProgressWellFormed(NewCourse(form, creatorId, freshId, selected))
    ensures ProgressPercent(NewCourse(form, creatorId, freshId, selected), Some(u)) == Whole(0)
    ensures !IsCourseComplete(NewCourse(form, creatorId, freshId, selected), u.id)
  {
  }
}
