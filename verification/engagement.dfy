/** What a viewer does on a reel card: answer the quiz, comment, vote in
    the poll. Comments and votes act on the card's own copy of the reel, so
    they are pure functions from a reel to a reel. */
module Engagement {
  import opened Wrappers
  import opened Seqs
  import opened Text
  import opened Entities

  /** The quiz check: no verdict while no option is selected; otherwise
      whether the selection is the correct index. The selection is not
      range-checked. */
  function CheckAnswer(quiz: Quiz, selected: Option<int>): (verdict: Option<bool>)
    ensures verdict.None? <==> selected.None?
    ensures verdict == Some(true) <==> selected == Some(quiz.correctIndex)
  {
    match selected
    case None => None
    case Some(i) => Some(i == quiz.correctIndex)
  }

  /** A well-formed quiz has exactly one option that is judged correct. */
  lemma ExactlyOneCorrect(quiz: Quiz)
    requires 0 <= quiz.correctIndex < |quiz.options|
    ensures |set i | 0 <= i < |quiz.options| && CheckAnswer(quiz, Some(i)) == Some(true)| == 1
  {
    var correct := set i | 0 <= i < |quiz.options| && CheckAnswer(quiz, Some(i)) == Some(true);
    assert correct == {quiz.correctIndex};
  }

  /** The name a comment is posted under: the logged-in user's name, or
      "Anonymous" when nobody is logged in or the name is empty. */
  function DisplayName(current: Option<User>): (name: string)
    ensures name != []
    ensures current.Some? && current.value.name != [] ==> name == current.value.name
    ensures current.None? || current.value.name == [] ==> name == "Anonymous"
  {
    if current.Some? && current.value.name != [] then current.value.name else "Anonymous"
  }

  /** Posting a comment: a text that is blank after trimming changes
      nothing; otherwise a comment with the fresh id, the display name and
      the trimmed text goes at the end of the thread. */
  function AddComment(reel: Reel, current: Option<User>, freshId: Id, text: string): (r: Reel)
    ensures IsBlank(text) ==> r == reel
    ensures !IsBlank(text) ==>
      && r == reel.(comments := r.comments)
      && |r.comments| == |reel.comments| + 1
      && r.comments[..|reel.comments|] == reel.comments
      && r.comments[|reel.comments|] == Comment(freshId, DisplayName(current), Trim(text))
  {
    var t := Trim(text);
    if t == [] then reel
    else reel.(comments := reel.comments + [Comment(freshId, DisplayName(current), t)])
  }

  /** Every comment carries a non-empty, trimmed text and a non-empty name. */
  predicate CommentsWellFormed(reel: Reel) {
    forall c :: c in reel.comments ==> c.text != [] && IsTrimmed(c.text) && c.userName != []
  }

  /** Posting keeps the thread well formed. */
  lemma AddCommentKeepsWellFormed(reel: Reel, current: Option<User>, freshId: Id, text: string)
    requires CommentsWellFormed(reel)
    ensures CommentsWellFormed(AddComment(reel, current, freshId, text))
  {
  }

  /** A poll vote: the chosen counter grows by one; nothing else changes. */
  function Vote(reel: Reel, index: nat): (r: Reel)
    requires index < |reel.poll.votes|
    ensures r == reel.(poll := r.poll)
    ensures r.poll.question == reel.poll.question && r.poll.options == reel.poll.options
    ensures |r.poll.votes| == |reel.poll.votes|
    ensures r.poll.votes[index] == reel.poll.votes[index] + 1
    ensures forall i :: 0 <= i < |reel.poll.votes| && i != index ==> r.poll.votes[i] == reel.poll.votes[i]
  {
    var votes := reel.poll.votes;
    reel.(poll := reel.poll.(votes := votes[index := votes[index] + 1]))
  }

  /** One vote adds exactly one to the poll's total. */
  lemma VoteAddsOne(reel: Reel, index: nat)
    requires index < |reel.poll.votes|
    ensures Sum(Vote(reel, index).poll.votes) == Sum(reel.poll.votes) + 1
  {
    SumIncrement(reel.poll.votes, index);
  }

  /** A run of votes, one per index, in order. */
  function VoteAll(reel: Reel, indexes: seq<nat>): (r: Reel)
    requires forall k :: 0 <= k < |indexes| ==> indexes[k] < |reel.poll.votes|
    ensures |r.poll.votes| == |reel.poll.votes|
    decreases |indexes|
  {
    if |indexes| == 0 then reel
    else VoteAll(Vote(reel, indexes[0]), indexes[1..])
  }

  /** Vote conservation: after N votes the total has grown by exactly N,
      and the poll's question and options are untouched. */
  lemma {:induction false} VoteConservation(reel: Reel, indexes: seq<nat>)
    requires forall k :: 0 <= k < |indexes| ==> indexes[k] < |reel.poll.votes|
    ensures Sum(VoteAll(reel, indexes).poll.votes) == Sum(reel.poll.votes) + |indexes|
    ensures VoteAll(reel, indexes).poll.options == reel.poll.options
    ensures VoteAll(reel, indexes) == reel.(poll := VoteAll(reel, indexes).poll)
    decreases |indexes|
  {
    if |indexes| > 0 {
      VoteAddsOne(reel, indexes[0]);
      VoteConservation(Vote(reel, indexes[0]), indexes[1..]);
    }
  }
}
