/**
 * A game with a single player who answers the first question with the
 * letter A, the letter of the right answer, and then submits the same
 * letter again while the answer window is still open. The first submission
 * completes the round; the second one reaches a round that has already
 * resolved.
 */
module Scenarios {
  import opened Rules
  import opened Rooms
  import opened Normalize

  /** A question whose first option, the one the letter A picks, is its
      non-empty right answer. */
  predicate FirstIsRight(q: Question) {
    |q.options| >= 1 && q.options[0] == q.answer && q.answer != ""
  }

  /** Within the answer window the letter A selects the first option. */
  lemma LetterAPicksFirst(q: Question, elapsed: int)
    requires FirstIsRight(q) && 0 <= elapsed <= AnswerWindow
    ensures StoredAnswer(Some("A"), elapsed, q.options) == Ok(Some(q.answer))
  {
    assert LetterIndex("A") == Some(0);
  }

  /** A round in which the only player gave the right answer gives that
      player one point. */
  lemma RightAnswerScores(similar: (string, string) -> bool, name: string, q: Question, k: nat)
    requires FirstIsRight(q)
    ensures Award(CloseEnough(similar), map[name := k], map[name := Some(q.answer)], q.answer) == map[name := k + 1]
  {
    assert Earns(CloseEnough(similar), Some(q.answer), q.answer);
  }

  /** The game up to the question being out, with the answers due. */
  method Asked(name: string, q: Question) returns (room: Room)
    requires name != ""
    ensures fresh(room) && room.Valid()
    ensures room.players == [name] && room.scores == map[name := 0]
    ensures room.AcceptsAnswerFrom(name) && room.currentQuestion == Some(q)
    ensures room.questionStartTime == Some(0) && room.answers == map[]
  {
    room := new Room(name);
    var started := room.StartGame(name);
    assert !IsDuplicate([], Entry(q));
    assert FirstFresh(DuplicateAt([], _ => q), 0) == Some(0);
    var events := room.SelectTopic(name, "geography", "history", _ => q, 0);
  }

  /** The state after the player answered once: the round is complete and
      scored. */
  ghost predicate Answered(room: Room, name: string, q: Question)
    reads room
  {
    && room.Valid() && room.players == [name] && room.AcceptsAnswerFrom(name)
    && room.currentQuestion == Some(q) && room.questionStartTime == Some(0)
    && room.answers == map[name := Some(q.answer)] && room.scores == map[name := 1]
  }

  /** handle_submit_answer as written, first submission. */
  method AnswerOnce(name: string, q: Question, similar: (string, string) -> bool) returns (room: Room)
    requires name != "" && FirstIsRight(q)
    ensures fresh(room) && Answered(room, name, q)
  {
    room := Asked(name, q);
    LetterAPicksFirst(q, 1000000);
    var first := room.SubmitAnswer(name, Some("A"), 1000000, similar);
    assert Elements([name]) == {name};
    RightAnswerScores(similar, name, q, 0);
  }

  /** handle_submit_answer as written: the repeated submission scores the
      round a second time. */
  method ResubmissionScoresAgain(name: string, q: Question, similar: (string, string) -> bool) returns (room: Room)
    requires name != "" && FirstIsRight(q)
    ensures room.scores == map[name := 2]
  {
    room := AnswerOnce(name, q, similar);
    LetterAPicksFirst(q, 2000000);
    var second := room.SubmitAnswer(name, Some("A"), 2000000, similar);
    assert Elements([name]) == {name};
    RightAnswerScores(similar, name, q, 1);
  }

  /** The corrected handler, first submission: it completes the round and
      scores it. */
  method AnswerOnceCorrected(name: string, q: Question, similar: (string, string) -> bool) returns (room: Room)
    requires name != "" && FirstIsRight(q)
    ensures fresh(room) && Answered(room, name, q)
  {
    room := Asked(name, q);
    LetterAPicksFirst(q, 1000000);
    var first := room.SubmitAnswerOnce(name, Some("A"), 1000000, similar);
    assert Elements([name]) == {name};
    RightAnswerScores(similar, name, q, 0);
  }

  /** The corrected handler: the repeated submission is recorded and the
      round keeps the one point it gave. */
  method ResubmissionScoresOnce(name: string, q: Question, similar: (string, string) -> bool) returns (room: Room)
    requires name != "" && FirstIsRight(q)
    ensures room.scores == map[name := 1]
  {
    room := AnswerOnceCorrected(name, q, similar);
    LetterAPicksFirst(q, 2000000);
    var second := room.SubmitAnswerOnce(name, Some("A"), 2000000, similar);
    assert Elements([name]) == {name};
  }
}
