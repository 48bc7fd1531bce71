/**
 * One entry of the server's `games` dictionary: the record of a game room and
 * the handlers that update it in place. Each handler is modelled from the
 * point where its room has been found in the dictionary (see Registry).
 */
module Rooms {
  import opened Normalize
  import opened Rules

  /** The HTTP outcomes of join_game: a redirect to the index page, the 404
      and 403 responses, or a redirect to the game page. */
  datatype JoinReply = RedirectToIndex | NotFound | AlreadyInProgress | Full | Joined

  class Room {
    var host: string
    var players: seq<string>
    var disconnected: set<string>
    var status: Status
    var currentPlayerIndex: nat
    var currentQuestion: Option<Question>
    /** The clock reading, in microseconds, when the current question went out. */
    var questionStartTime: Option<int>
    /** The stored answer of each player who answered the current question. */
    var answers: map<string, Option<string>>
    /** The keys of `answers` in insertion order, the order a Python dict
        iterates in; an overwrite keeps a key's place. */
    var answerOrder: seq<string>
    var scores: map<string, nat>
    /** (question text, answer text) of every question accepted in this room. */
    var questionsAsked: seq<(string, string)>

    ghost predicate Valid()
      reads this
    {
      RosterValid() && AnswersValid() && QuestionsValid() && StatusValid()
    }

    /** Between one and ten distinct, non-empty players, the host first; a
        score for each of them and nobody else; the turn index in range. */
    ghost predicate RosterValid()
      reads this`host, this`players, this`scores, this`currentPlayerIndex, this`disconnected
    {
      && 1 <= |players| <= MaxPlayers
      && players[0] == host
      && NoDuplicates(players)
      && "" !in players
      && scores.Keys == Elements(players)
      && currentPlayerIndex < |players|
      && disconnected <= Elements(players)
    }

    /** Only players have answer slots, and answerOrder lists each slot once. */
    ghost predicate AnswersValid()
      reads this`players, this`answers, this`answerOrder
    {
      && answers.Keys <= Elements(players)
      && NoDuplicates(answerOrder) && Elements(answerOrder) == answers.Keys
    }

    /** A question is out exactly when its clock is running, and no
        question asked in the room repeats an earlier one. */
    ghost predicate QuestionsValid()
      reads this`currentQuestion, this`questionStartTime, this`questionsAsked
    {
      && (currentQuestion.Some? <==> questionStartTime.Some?)
      && NoRepeats(questionsAsked)
    }

    /** A waiting room has had no turn, question or answer yet. */
    ghost predicate StatusValid()
      reads this`status, this`currentPlayerIndex, this`currentQuestion, this`answers, this`questionsAsked
    {
      status == Waiting ==>
        currentPlayerIndex == 0 && currentQuestion.None? && answers == map[] && questionsAsked == []
    }

    /** The record create_game stores for a game created by `username`. */
    ghost predicate IsNew(username: string)
      reads this
    {
      && host == username && players == [username] && scores == map[username := 0]
      && disconnected == {} && status == Waiting && currentPlayerIndex == 0
      && currentQuestion == None && questionStartTime == None
      && answers == map[] && answerOrder == [] && questionsAsked == []
    }

    constructor (username: string)
      requires username != ""
      ensures Valid() && IsNew(username)
    {
      host := username;
      players := [username];
      disconnected := {};
      status := Waiting;
      currentPlayerIndex := 0;
      currentQuestion := None;
      questionStartTime := None;
      answers := map[];
      answerOrder := [];
      scores := map[username := 0];
      questionsAsked := [];
    }

    /**
     * join_game once the room is found: refused unless the room is waiting
     * and holds fewer than ten players; a new name is appended with score 0,
     * a name already present is let in again without any change.
     */
    method Join(username: string) returns (reply: JoinReply)
      requires Valid() && username != ""
      modifies this`players, this`scores
      ensures Valid()
      ensures reply == (if old(status) != Waiting then AlreadyInProgress
                        else if |old(players)| >= MaxPlayers then Full
                        else Joined)
      ensures players == (if reply == Joined && username !in old(players) then old(players) + [username]
                          else old(players))
      ensures scores == (if reply == Joined && username !in old(players) then old(scores)[username := 0]
                         else old(scores))
    {
      if status != Waiting {
        return AlreadyInProgress;
      }
      if |players| >= MaxPlayers {
        return Full;
      }
      if username !in players {
        ElementsAppend(players, username);
        NoDuplicatesAppend(players, username);
        players := players + [username];
        scores := scores[username := 0];
      }
      reply := Joined;
    }

    /** handle_join_game_room once the room is found: a player of the room is
        no longer marked disconnected, and the room hears of it. */
    method Rejoin(username: string) returns (events: seq<Event>)
      requires Valid()
      modifies this`disconnected
      ensures Valid()
      ensures disconnected == if username in players then old(disconnected) - {username} else old(disconnected)
      ensures events == if username in players then [PlayerJoined(username, players)] else []
    {
      events := [];
      if username in players {
        disconnected := disconnected - {username};
        events := [PlayerJoined(username, players)];
      }
    }

    /** handle_disconnect for one room: a player of the room is marked
        disconnected; nobody is removed. */
    method MarkDisconnected(username: string) returns (found: bool)
      requires Valid()
      modifies this`disconnected
      ensures Valid()
      ensures found == (username in players)
      ensures disconnected == if found then old(disconnected) + {username} else old(disconnected)
    {
      found := username in players;
      InElements(players, username);
      if found {
        disconnected := disconnected + {username};
      }
    }

    /** handle_start_game once the room is found: only the host starts, and
        only a waiting game; the turn stays with the player at index 0. */
    method StartGame(username: string) returns (events: seq<Event>)
      requires Valid()
      modifies this`status
      ensures Valid()
      ensures old(status) == Waiting && username == host ==>
        status == InProgress && currentPlayerIndex == 0
        && events == [GameStarted(players[currentPlayerIndex], players, scores)]
      ensures !(old(status) == Waiting && username == host) ==> status == old(status) && events == []
    {
      events := [];
      if username == host && status == Waiting {
        status := InProgress;
        events := [GameStarted(players[currentPlayerIndex], players, scores)];
      }
    }

    /** The player whose turn it is, in a game in progress. */
    predicate IsTurnHolder(username: string)
      reads this
    {
      username in players && status == InProgress
      && currentPlayerIndex < |players| && players[currentPlayerIndex] == username
    }

    /**
     * handle_select_topic once the room is found. Only the turn holder of a
     * game in progress may pick; everybody else is ignored (AskGenerator).
     */
    method SelectTopic(username: string, topic: string, randomTopic: string,
                       generate: nat -> Question, now: int) returns (events: seq<Event>)
      requires Valid()
      requires randomTopic != ""
      modifies this`questionsAsked, this`currentQuestion, this`answers, this`answerOrder, this`questionStartTime
      ensures Valid()
      ensures !old(IsTurnHolder(username)) ==> events == [] && unchanged(this)
      ensures old(IsTurnHolder(username)) ==>
        var announced := if topic == "" then [RandomTopicSelected(randomTopic)] else [];
        var chosen := if topic == "" then randomTopic else topic;
        match FirstFresh(DuplicateAt(old(questionsAsked), generate), 0)
        case Some(k) =>
          var q := generate(k);
          && questionsAsked == old(questionsAsked) + [Entry(q)]
          && currentQuestion == Some(q) && questionStartTime == Some(now)
          && answers == map[] && answerOrder == []
          && events == announced + [QuestionReady(q.question, q.options, chosen)]
        case None =>
          unchanged(this) && events == announced + [Error(UniqueQuestionError)]
    {
      if !IsTurnHolder(username) {
        return [];
      }
      events := AskGenerator(topic, randomTopic, generate, now);
    }

    /**
     * The body of handle_select_topic for the turn holder: an empty topic is
     * replaced by the random pick `randomTopic` and announced (the handler
     * does this on the first pass of its loop, which always runs). The first
     * generated question that repeats none asked before is recorded
     * (RecordQuestion); when all five repeat, an error goes to the room and
     * nothing changes.
     */
    method AskGenerator(topic: string, randomTopic: string, generate: nat -> Question, now: int)
      returns (events: seq<Event>)
      requires Valid() && status == InProgress
      requires randomTopic != ""
      modifies this`questionsAsked, this`currentQuestion, this`answers, this`answerOrder, this`questionStartTime
      ensures Valid()
      ensures
        var announced := if topic == "" then [RandomTopicSelected(randomTopic)] else [];
        var chosen := if topic == "" then randomTopic else topic;
        match FirstFresh(DuplicateAt(old(questionsAsked), generate), 0)
        case Some(k) =>
          var q := generate(k);
          && questionsAsked == old(questionsAsked) + [Entry(q)]
          && currentQuestion == Some(q) && questionStartTime == Some(now)
          && answers == map[] && answerOrder == []
          && events == announced + [QuestionReady(q.question, q.options, chosen)]
        case None =>
          unchanged(this) && events == announced + [Error(UniqueQuestionError)]
    {
      var chosen := topic;
      events := [];
      if chosen == "" {
        chosen := randomTopic;
        events := [RandomTopicSelected(chosen)];
      }
      var found := FindFresh(questionsAsked, generate);
      if found.Some? {
        var q := generate(found.value);
        FirstFreshSpec(DuplicateAt(questionsAsked, generate), 0);
        RecordQuestion(q, now);
        events := events + [QuestionReady(q.question, q.options, chosen)];
      } else {
        events := events + [Error(UniqueQuestionError)];
      }
    }

    /** A question that repeats none asked so far is recorded, opens a fresh
        answer set and starts the clock at `now`. */
    method RecordQuestion(q: Question, now: int)
      requires Valid() && status == InProgress && !IsDuplicate(questionsAsked, Entry(q))
      modifies this`questionsAsked, this`currentQuestion, this`answers, this`answerOrder, this`questionStartTime
      ensures Valid()
      ensures questionsAsked == old(questionsAsked) + [Entry(q)]
      ensures currentQuestion == Some(q) && questionStartTime == Some(now)
      ensures answers == map[] && answerOrder == []
    {
      NoRepeatsAppend(questionsAsked, Entry(q));
      questionsAsked := questionsAsked + [Entry(q)];
      currentQuestion := Some(q);
      answers := map[];
      answerOrder := [];
      questionStartTime := Some(now);
    }

    /** The guard of handle_submit_answer: a player of a game in progress with
        a question out. */
    predicate AcceptsAnswerFrom(username: string)
      reads this
    {
      username in players && status == InProgress && currentQuestion.Some?
    }

    /**
     * handle_submit_answer once the room is found. The stored answer is None
     * after the 30-second window and the option text for a letter A-D; a
     * letter past the end of the options raises IndexError before anything
     * is written. The player's slot is written, overwriting an earlier one.
     * When every player, connected or not, has a slot the round resolves
     * (ResolveRound), also when it had already resolved before.
     */
    method SubmitAnswer(username: string, answer: Option<string>, now: int,
                        similar: (string, string) -> bool) returns (outcome: Result<seq<Event>>)
      requires Valid()
      modifies this`answers, this`answerOrder, this`scores, this`currentPlayerIndex
      ensures Valid()
      ensures !old(AcceptsAnswerFrom(username)) ==> outcome == Ok([]) && unchanged(this)
      ensures old(AcceptsAnswerFrom(username)) ==>
        var r := old(StoredAnswer(answer, now - questionStartTime.value, currentQuestion.value.options));
        && (r.IndexError? ==> outcome == IndexError(r.index) && unchanged(this))
        && (r.Ok? ==> answers == old(answers)[username := r.value])
        && (r.Ok? ==> answerOrder == if username in old(answers) then old(answerOrder) else old(answerOrder) + [username])
        && (r.Ok? && !RoundComplete() ==>
              scores == old(scores) && currentPlayerIndex == old(currentPlayerIndex)
              && outcome == Ok([PlayerAnswered(username)]))
        && (r.Ok? && RoundComplete() ==>
              && scores == Award(CloseEnough(similar), old(scores), answers, currentQuestion.value.answer)
              && currentPlayerIndex == NextTurn(old(currentPlayerIndex), |players|)
              && outcome == Ok([PlayerAnswered(username), Results(similar)]))
    {
      if !AcceptsAnswerFrom(username) {
        return Ok([]);
      }
      var q := currentQuestion.value;
      var stored := StoredAnswer(answer, now - questionStartTime.value, q.options);
      if stored.IndexError? {
        return IndexError(stored.index);
      }
      var events := AcceptAnswer(username, stored.value, similar);
      return Ok(events);
    }

    /** The part of handle_submit_answer after the stored answer is known. */
    method AcceptAnswer(username: string, stored: Option<string>, similar: (string, string) -> bool)
      returns (events: seq<Event>)
      requires Valid() && AcceptsAnswerFrom(username)
      modifies this`answers, this`answerOrder, this`scores, this`currentPlayerIndex
      ensures Valid()
      ensures answers == old(answers)[username := stored]
      ensures answerOrder == if username in old(answers) then old(answerOrder) else old(answerOrder) + [username]
      ensures !RoundComplete() ==>
        scores == old(scores) && currentPlayerIndex == old(currentPlayerIndex) && events == [PlayerAnswered(username)]
      ensures RoundComplete() ==>
        && scores == Award(CloseEnough(similar), old(scores), answers, currentQuestion.value.answer)
        && currentPlayerIndex == NextTurn(old(currentPlayerIndex), |players|)
        && events == [PlayerAnswered(username), Results(similar)]
    {
      StoreAnswer(username, stored);
      if |answers| != |players| {
        return [PlayerAnswered(username)];
      }
      var results := ResolveRound(similar);
      return [PlayerAnswered(username), results];
    }

    /**
     * handle_submit_answer as evidently intended: a round resolves only on
     * the submission that completes it. A submission to a round that is
     * already complete is recorded, and scores and turn stay as they are.
     */
    method SubmitAnswerOnce(username: string, answer: Option<string>, now: int,
                            similar: (string, string) -> bool) returns (outcome: Result<seq<Event>>)
      requires Valid()
      modifies this`answers, this`answerOrder, this`scores, this`currentPlayerIndex
      ensures Valid()
      ensures !old(AcceptsAnswerFrom(username)) ==> outcome == Ok([]) && unchanged(this)
      ensures old(AcceptsAnswerFrom(username)) ==>
        var r := old(StoredAnswer(answer, now - questionStartTime.value, currentQuestion.value.options));
        && (r.IndexError? ==> outcome == IndexError(r.index) && unchanged(this))
        && (r.Ok? ==> answers == old(answers)[username := r.value])
        && (r.Ok? ==> answerOrder == if username in old(answers) then old(answerOrder) else old(answerOrder) + [username])
        && (r.Ok? && (old(RoundComplete()) || !RoundComplete()) ==>
              scores == old(scores) && currentPlayerIndex == old(currentPlayerIndex)
              && outcome == Ok([PlayerAnswered(username)]))
        && (r.Ok? && !old(RoundComplete()) && RoundComplete() ==>
              && scores == Award(CloseEnough(similar), old(scores), answers, currentQuestion.value.answer)
              && currentPlayerIndex == NextTurn(old(currentPlayerIndex), |players|)
              && outcome == Ok([PlayerAnswered(username), Results(similar)]))
    {
      if !AcceptsAnswerFrom(username) {
        return Ok([]);
      }
      var q := currentQuestion.value;
      var stored := StoredAnswer(answer, now - questionStartTime.value, q.options);
      if stored.IndexError? {
        return IndexError(stored.index);
      }
      var events := AcceptAnswerOnce(username, stored.value, similar);
      return Ok(events);
    }

    /** AcceptAnswer, resolving the round only when this submission completes it. */
    method AcceptAnswerOnce(username: string, stored: Option<string>, similar: (string, string) -> bool)
      returns (events: seq<Event>)
      requires Valid() && AcceptsAnswerFrom(username)
      modifies this`answers, this`answerOrder, this`scores, this`currentPlayerIndex
      ensures Valid()
      ensures answers == old(answers)[username := stored]
      ensures answerOrder == if username in old(answers) then old(answerOrder) else old(answerOrder) + [username]
      ensures old(RoundComplete()) || !RoundComplete() ==>
        scores == old(scores) && currentPlayerIndex == old(currentPlayerIndex) && events == [PlayerAnswered(username)]
      ensures !old(RoundComplete()) && RoundComplete() ==>
        && scores == Award(CloseEnough(similar), old(scores), answers, currentQuestion.value.answer)
        && currentPlayerIndex == NextTurn(old(currentPlayerIndex), |players|)
        && events == [PlayerAnswered(username), Results(similar)]
    {
      var wasComplete := |answers| == |players|;
      AllAnswered(answers.Keys, players);
      StoreAnswer(username, stored);
      if wasComplete || |answers| != |players| {
        return [PlayerAnswered(username)];
      }
      var results := ResolveRound(similar);
      return [PlayerAnswered(username), results];
    }

    /** The write `answers[username] = stored` of handle_submit_answer: the
        slot is created at the end of the insertion order or overwritten in
        place, and the round is complete exactly when the slots number the
        players. */
    method StoreAnswer(username: string, stored: Option<string>)
      requires Valid() && username in players && status == InProgress
      modifies this`answers, this`answerOrder
      ensures Valid()
      ensures answers == old(answers)[username := stored]
      ensures answerOrder == if username in old(answers) then old(answerOrder) else old(answerOrder) + [username]
      ensures |answers| == |players| <==> RoundComplete()
    {
      RecordAnswer(players, answers, answerOrder, username, stored);
      if username !in answers {
        answerOrder := answerOrder + [username];
      }
      answers := answers[username := stored];
    }

    /** Every player of the room, connected or not, has an answer slot. */
    ghost predicate RoundComplete()
      reads this`players, this`answers
    {
      answers.Keys == Elements(players)
    }

    /** The round_results event of a resolved round, as the room stands after it. */
    ghost function Results(similar: (string, string) -> bool): Event
      reads this
      requires Valid() && currentQuestion.Some?
    {
      var q := currentQuestion.value;
      RoundResults(q.answer, q.explanation, answers, Winners(CloseEnough(similar), answerOrder, answers, q.answer),
                   players[currentPlayerIndex], scores)
    }

    /**
     * The resolution step of handle_submit_answer, run when every player has
     * an answer slot: each player whose stored answer is present, non-empty
     * and close enough to the correct answer gains exactly one point, the
     * others keep their score, and the turn passes to the next index,
     * connected or not. The question stays current.
     */
    method ResolveRound(similar: (string, string) -> bool) returns (results: Event)
      requires Valid() && currentQuestion.Some? && RoundComplete()
      modifies this`scores, this`currentPlayerIndex
      ensures Valid()
      ensures scores == Award(CloseEnough(similar), old(scores), answers, currentQuestion.value.answer)
      ensures currentPlayerIndex == NextTurn(old(currentPlayerIndex), |players|)
      ensures results == Results(similar)
    {
      var q := currentQuestion.value;
      var newScores, correctPlayers := ScoreRound(CloseEnough(similar), scores, answerOrder, answers, q.answer);
      TallyIsAward(CloseEnough(similar), scores, answerOrder, answers, q.answer);
      scores := newScores;
      currentPlayerIndex := (currentPlayerIndex + 1) % |players|;
      results := RoundResults(q.answer, q.explanation, answers, correctPlayers, players[currentPlayerIndex], scores);
    }
  }

  /**
   * The scoring loop of handle_submit_answer: the players are visited in
   * the order their answer slots were created; each whose answer earns a
   * point gets it and is listed in `correctPlayers`.
   */
  method ScoreRound(close: (string, string) -> bool, scores: map<string, nat>, order: seq<string>,
                    answers: map<string, Option<string>>, correctAnswer: string)
    returns (newScores: map<string, nat>, correctPlayers: seq<string>)
    requires Elements(order) == answers.Keys && answers.Keys <= scores.Keys
    ensures newScores == Tally(close, scores, order, answers, correctAnswer)
    ensures correctPlayers == Winners(close, order, answers, correctAnswer)
  {
    forall p | p in order
      ensures p in answers
    {
      InElements(order, p);
    }
    newScores, correctPlayers := scores, [];
    var i := 0;
    while i < |order|
      invariant 0 <= i <= |order|
      invariant newScores == Tally(close, scores, order[..i], answers, correctAnswer)
      invariant correctPlayers == Winners(close, order[..i], answers, correctAnswer)
    {
      var player := order[i];
      ScoreStep(close, scores, order, i, answers, correctAnswer, newScores, correctPlayers);
      var earns := Earns(close, answers[player], correctAnswer);
      if earns {
        correctPlayers := correctPlayers + [player];
        newScores := newScores[player := newScores[player] + 1];
      }
      i := i + 1;
    }
    assert order[..i] == order;
  }

  /** The duplicate scan of handle_select_topic: does `q` repeat one of the
      questions asked so far? */
  method HasAskedBefore(asked: seq<(string, string)>, q: Question) returns (duplicate: bool)
    ensures duplicate == IsDuplicate(asked, Entry(q))
  {
    var normalizedAnswer := NormalizeAnswer(q.answer);
    var i := 0;
    while i < |asked|
      invariant 0 <= i <= |asked|
      invariant forall j :: 0 <= j < i ==> !Clash(asked[j], Entry(q))
    {
      var (prevQuestion, prevAnswer) := asked[i];
      if NormalizeAnswer(prevAnswer) == normalizedAnswer || q.question == prevQuestion {
        assert Clash(asked[i], Entry(q));
        IsDuplicateExists(asked, Entry(q));
        return true;
      }
      i := i + 1;
    }
    IsDuplicateExists(asked, Entry(q));
    return false;
  }

  /** The attempts loop of handle_select_topic: the generator is asked up to
      five times, and the first attempt whose question is no duplicate wins. */
  method FindFresh(asked: seq<(string, string)>, generate: nat -> Question) returns (found: Option<nat>)
    ensures found == FirstFresh(DuplicateAt(asked, generate), 0)
  {
    ghost var duplicateAt := DuplicateAt(asked, generate);
    var attempt := 0;
    while attempt < MaxAttempts
      invariant 0 <= attempt <= MaxAttempts
      invariant FirstFresh(duplicateAt, attempt) == FirstFresh(duplicateAt, 0)
    {
      var duplicate := HasAskedBefore(asked, generate(attempt));
      if !duplicate {
        return Some(attempt);
      }
      attempt := attempt + 1;
    }
    return None;
  }
}
