/**
 * The values a game room holds and the pure rules its handlers apply: the
 * letter-to-option mapping and the 30-second cutoff of an answer, the
 * duplicate test on generated questions, and the scoring of a round.
 */
module Rules {
  import opened Normalize

  datatype Option<T> = None | Some(value: T)

  /** A handler either completes, or raises IndexError at the given index. */
  datatype Result<T> = Ok(value: T) | IndexError(index: nat)

  /** join_game refuses a room that already holds this many players. */
  const MaxPlayers: nat := 10
  /** handle_select_topic asks the generator at most this many times. */
  const MaxAttempts: nat := 5
  /** An answer arriving more than 30 seconds after the question counts as
      no answer. The clock is in microseconds, the resolution of datetime. */
  const AnswerWindow: int := 30 * 1000000
  const UniqueQuestionError: string := "Couldn't generate a unique question. Try another topic."

  /** The room's `status`; the code never sets any other value. */
  datatype Status = Waiting | InProgress

  /** A payload of the question generator. */
  datatype Question = Question(question: string, answer: string, options: seq<string>, explanation: string)

  /** Socket.IO events the handlers emit to the room. */
  datatype Event =
    | PlayerJoined(username: string, players: seq<string>)
    | GameStarted(currentPlayer: string, players: seq<string>, scores: map<string, nat>)
    | RandomTopicSelected(topic: string)
    | QuestionReady(question: string, options: seq<string>, topic: string)
    | Error(message: string)
    | PlayerAnswered(username: string)
    | RoundResults(correctAnswer: string, explanation: string, playerAnswers: map<string, Option<string>>,
                   correctPlayers: seq<string>, nextPlayer: string, scores: map<string, nat>)
    | PlayerDisconnected(username: string)

  /** The set of names in a sequence (players, game ids, answer slots),
      collected from the front. */
  function Elements(names: seq<string>): set<string> {
    if names == [] then {} else Elements(names[..|names| - 1]) + {names[|names| - 1]}
  }

  /** A name is in the set exactly when it occurs in the sequence. */
  lemma {:induction false} InElements(names: seq<string>, p: string)
    ensures p in Elements(names) <==> p in names
  {
    if names != [] {
      var init := names[..|names| - 1];
      InElements(init, p);
      assert p in names <==> p in init || p == names[|names| - 1];
    }
  }

  /** Appending a name adds it to the set. */
  lemma ElementsAppend(names: seq<string>, p: string)
    ensures Elements(names + [p]) == Elements(names) + {p}
  {
  }

  /** No name occurs twice: each one is new when it is appended. */
  predicate NoDuplicates(s: seq<string>) {
    s == [] || (NoDuplicates(s[..|s| - 1]) && s[|s| - 1] !in s[..|s| - 1])
  }

  /** Appending keeps a sequence free of duplicates exactly when the name is new. */
  lemma NoDuplicatesAppend(s: seq<string>, p: string)
    ensures NoDuplicates(s + [p]) <==> NoDuplicates(s) && p !in s
  {
  }

  /** NoDuplicates means that no two positions hold the same name. */
  lemma {:induction false} NoDuplicatesPairwise(s: seq<string>)
    ensures NoDuplicates(s) <==> forall i, j :: 0 <= i < j < |s| ==> s[i] != s[j]
  {
    if s != [] {
      var init := s[..|s| - 1];
      NoDuplicatesPairwise(init);
      assert forall i :: 0 <= i < |init| ==> init[i] == s[i];
    }
  }

  lemma {:induction false} ElementsSize(players: seq<string>)
    requires NoDuplicates(players)
    ensures |Elements(players)| == |players|
  {
    if players != [] {
      var last := players[|players| - 1];
      var init := players[..|players| - 1];
      assert Elements(players) == Elements(init) + {last};
      InElements(init, last);
      ElementsSize(init);
    }
  }

  /** The round-closing test `len(answers) == len(players)`: since only
      players' names are ever keys of `answers`, equal sizes mean that every
      player, connected or not, has an answer slot. */
  lemma AllAnswered(answered: set<string>, players: seq<string>)
    requires answered <= Elements(players) && NoDuplicates(players)
    ensures |answered| == |players| <==> answered == Elements(players)
  {
    ElementsSize(players);
    if answered != Elements(players) {
      var missing := Elements(players) - answered;
      assert Elements(players) == answered + missing;
      assert |missing| > 0;
    }
  }

  /** Writing a player's answer slot keeps the slots and their insertion
      order in step, and the round is complete exactly when every player of
      the roster has a slot. */
  lemma RecordAnswer(players: seq<string>, answers: map<string, Option<string>>, order: seq<string>,
                     username: string, stored: Option<string>)
    requires NoDuplicates(players) && username in players
    requires NoDuplicates(order) && Elements(order) == answers.Keys && answers.Keys <= Elements(players)
    ensures var order' := if username in answers then order else order + [username];
            var answers' := answers[username := stored];
            && NoDuplicates(order') && Elements(order') == answers'.Keys && answers'.Keys <= Elements(players)
            && (|answers'| == |players| <==> answers'.Keys == Elements(players))
  {
    var answers' := answers[username := stored];
    InElements(players, username);
    if username !in answers {
      ElementsAppend(order, username);
      InElements(order, username);
      NoDuplicatesAppend(order, username);
    }
    assert |answers'| == |answers'.Keys|;
    AllAnswered(answers'.Keys, players);
  }

  /** The option index a letter answer "A".."D" stands for (ord(letter) - ord('A')). */
  function LetterIndex(answer: string): (r: Option<nat>)
    ensures r.Some? <==> |answer| == 1 && 'A' <= answer[0] <= 'D'
    ensures r.Some? ==> r.value < 4 && answer[0] == ('A' as int + r.value) as char
  {
    if |answer| == 1 && 'A' <= answer[0] <= 'D' then Some(answer[0] as int - 'A' as int) else None
  }

  /** The four strings LetterIndex accepts are the letters "A" to "D". */
  lemma LetterIndexLetters(answer: string)
    ensures LetterIndex(answer).Some? <==> answer in ["A", "B", "C", "D"]
  {
    if |answer| == 1 {
      assert answer == [answer[0]];
    }
  }

  /**
   * What handle_submit_answer records for a submission `elapsed` microseconds
   * after the question went out: nothing when late, the option text for a
   * letter, the submission itself otherwise, or IndexError when the letter
   * points past the end of the options.
   */
  function StoredAnswer(answer: Option<string>, elapsed: int, options: seq<string>): (r: Result<Option<string>>)
    ensures elapsed > AnswerWindow ==> r == Ok(None)
    ensures elapsed <= AnswerWindow && (answer.None? || LetterIndex(answer.value).None?) ==> r == Ok(answer)
    ensures elapsed <= AnswerWindow && answer.Some? && LetterIndex(answer.value).Some? ==>
      var k := LetterIndex(answer.value).value;
      && (k < |options| ==> r == Ok(Some(options[k])))
      && (k >= |options| ==> r == IndexError(k))
    ensures r.IndexError? <==>
      elapsed <= AnswerWindow && answer.Some? && LetterIndex(answer.value).Some? && LetterIndex(answer.value).value >= |options|
  {
    var a := if elapsed > AnswerWindow then None else answer;
    if a.Some? && LetterIndex(a.value).Some? then
      var k := LetterIndex(a.value).value;
      if k < |options| then Ok(Some(options[k])) else IndexError(k)
    else Ok(a)
  }

  /** A letter submitted in time is replaced by the option at its position. */
  lemma LetterSelectsOption(k: nat, elapsed: int, options: seq<string>)
    requires k < 4 && k < |options| && elapsed <= AnswerWindow
    ensures StoredAnswer(Some([('A' as int + k) as char]), elapsed, options) == Ok(Some(options[k]))
  {
  }

  /** A stored answer earns a point when it is present and non-empty (Python
      truthiness) and close enough to the correct answer. */
  predicate Earns(close: (string, string) -> bool, stored: Option<string>, correctAnswer: string) {
    stored.Some? && stored.value != "" && close(stored.value, correctAnswer)
  }

  /** The scores after a round resolves (AwardSpec). */
  function Award(close: (string, string) -> bool, scores: map<string, nat>,
                 answers: map<string, Option<string>>, correctAnswer: string): map<string, nat>
  {
    map p | p in scores :: if p in answers && Earns(close, answers[p], correctAnswer) then scores[p] + 1 else scores[p]
  }

  /** A round gives every player whose answer earns a point exactly one
      point, and leaves every other score and the set of players as it was. */
  lemma AwardSpec(close: (string, string) -> bool, scores: map<string, nat>,
                  answers: map<string, Option<string>>, correctAnswer: string)
    ensures var r := Award(close, scores, answers, correctAnswer);
      && r.Keys == scores.Keys
      && (forall p :: p in r ==> scores[p] <= r[p] <= scores[p] + 1)
      && (forall p :: p in r ==> (r[p] == scores[p] + 1 <==> p in answers && Earns(close, answers[p], correctAnswer)))
  {
  }

  /** The scores as the scoring loop leaves them after visiting the players
      of `order` in turn. */
  function Tally(close: (string, string) -> bool, scores: map<string, nat>, order: seq<string>,
                 answers: map<string, Option<string>>, correctAnswer: string): (r: map<string, nat>)
    ensures r.Keys == scores.Keys
  {
    if order == [] then scores
    else
      var before := Tally(close, scores, order[..|order| - 1], answers, correctAnswer);
      var p := order[|order| - 1];
      if p in before && p in answers && Earns(close, answers[p], correctAnswer) then before[p := before[p] + 1]
      else before
  }

  /** Visiting players without repeats gives each visited player the point
      its answer earns, once. */
  lemma {:induction false} TallyCounts(close: (string, string) -> bool, scores: map<string, nat>, order: seq<string>,
                                       answers: map<string, Option<string>>, correctAnswer: string)
    requires NoDuplicates(order)
    ensures var r := Tally(close, scores, order, answers, correctAnswer);
      forall p :: p in r ==>
        r[p] == if p in order && p in answers && Earns(close, answers[p], correctAnswer) then scores[p] + 1 else scores[p]
  {
    if order != [] {
      var init := order[..|order| - 1];
      var last := order[|order| - 1];
      assert forall q :: q in order <==> q in init || q == last;
      assert last !in init;
      TallyCounts(close, scores, init, answers, correctAnswer);
    }
  }

  /** The scoring loop, run over every key of `answers` once, awards exactly
      the points of Award. */
  lemma TallyIsAward(close: (string, string) -> bool, scores: map<string, nat>, order: seq<string>,
                     answers: map<string, Option<string>>, correctAnswer: string)
    requires NoDuplicates(order) && Elements(order) == answers.Keys
    ensures Tally(close, scores, order, answers, correctAnswer) == Award(close, scores, answers, correctAnswer)
  {
    TallyCounts(close, scores, order, answers, correctAnswer);
    var t, a := Tally(close, scores, order, answers, correctAnswer), Award(close, scores, answers, correctAnswer);
    forall p | p in t ensures t[p] == a[p] {
      InElements(order, p);
    }
  }

  /** The `correct_players` list: the players in `order` whose answer earns a
      point, in that order. */
  function Winners(close: (string, string) -> bool, order: seq<string>,
                   answers: map<string, Option<string>>, correctAnswer: string): seq<string>
  {
    if order == [] then []
    else
      var p := order[|order| - 1];
      Winners(close, order[..|order| - 1], answers, correctAnswer)
        + (if p in answers && Earns(close, answers[p], correctAnswer) then [p] else [])
  }

  /** correct_players lists exactly the visited players whose answer earns a
      point, and no more names than were visited. */
  lemma {:induction false} WinnersSpec(close: (string, string) -> bool, order: seq<string>,
                                       answers: map<string, Option<string>>, correctAnswer: string)
    ensures var r := Winners(close, order, answers, correctAnswer);
      && |r| <= |order|
      && forall p :: p in r <==> p in order && p in answers && Earns(close, answers[p], correctAnswer)
  {
    if order != [] {
      var init := order[..|order| - 1];
      WinnersSpec(close, init, answers, correctAnswer);
      assert forall q :: q in order <==> q in init || q == order[|order| - 1];
    }
  }

  /**
   * One pass of the scoring loop: with `scores` and `winners` as the loop has
   * left them after `order[..i]`, visiting `order[i]` leaves them as after
   * `order[..i + 1]`.
   */
  lemma ScoreStep(close: (string, string) -> bool, initial: map<string, nat>, order: seq<string>, i: nat,
                  answers: map<string, Option<string>>, correctAnswer: string,
                  scores: map<string, nat>, winners: seq<string>)
    requires i < |order| && order[i] in answers && answers.Keys <= initial.Keys
    requires scores == Tally(close, initial, order[..i], answers, correctAnswer)
    requires winners == Winners(close, order[..i], answers, correctAnswer)
    ensures order[i] in scores
    ensures var earns := Earns(close, answers[order[i]], correctAnswer);
      && (if earns then scores[order[i] := scores[order[i]] + 1] else scores)
         == Tally(close, initial, order[..i + 1], answers, correctAnswer)
      && (if earns then winners + [order[i]] else winners)
         == Winners(close, order[..i + 1], answers, correctAnswer)
  {
    assert order[..i + 1][..i] == order[..i];
  }

  /** The (question, answer) pair handle_select_topic records for a question. */
  function Entry(q: Question): (string, string) {
    (q.question, q.answer)
  }

  /** Two (question, answer) pairs clash when their answers normalise alike or
      their questions are identical. */
  predicate Clash(a: (string, string), b: (string, string)) {
    NormalizeAnswer(a.1) == NormalizeAnswer(b.1) || a.0 == b.0
  }

  /** Some element of `s` satisfies `p`. */
  predicate Any<T>(s: seq<T>, p: T -> bool) {
    s != [] && (Any(s[..|s| - 1], p) || p(s[|s| - 1]))
  }

  /** Any holds exactly when some position of `s` satisfies `p`. */
  lemma {:induction false} AnyExists<T>(s: seq<T>, p: T -> bool)
    ensures Any(s, p) <==> exists i :: 0 <= i < |s| && p(s[i])
  {
    if s != [] {
      var init, n := s[..|s| - 1], |s| - 1;
      AnyExists(init, p);
      if Any(init, p) {
        var i :| 0 <= i < |init| && p(init[i]);
        assert s[i] == init[i];
      } else if !p(s[n]) {
        forall i | 0 <= i < |s|
          ensures !p(s[i])
        {
          if i < n {
            assert s[i] == init[i];
          }
        }
      }
    }
  }

  /** The pairs that clash with `e`. */
  function ClashesWith(e: (string, string)): ((string, string)) -> bool {
    a => Clash(a, e)
  }

  /** A generated question, recorded as `e`, duplicates one already asked in the room. */
  predicate IsDuplicate(asked: seq<(string, string)>, e: (string, string)) {
    Any(asked, ClashesWith(e))
  }

  /** IsDuplicate holds exactly when some asked pair clashes with `e`. */
  lemma IsDuplicateExists(asked: seq<(string, string)>, e: (string, string))
    ensures IsDuplicate(asked, e) <==> exists i :: 0 <= i < |asked| && Clash(asked[i], e)
  {
    AnyExists(asked, ClashesWith(e));
  }

  /** Every asked pair was, when it was recorded, no duplicate of the pairs before it. */
  predicate NoRepeats(asked: seq<(string, string)>) {
    asked == [] || (NoRepeats(asked[..|asked| - 1]) && !IsDuplicate(asked[..|asked| - 1], asked[|asked| - 1]))
  }

  /** Recording a pair keeps the list free of repeats exactly when the pair is no duplicate. */
  lemma NoRepeatsAppend(asked: seq<(string, string)>, e: (string, string))
    ensures NoRepeats(asked + [e]) <==> NoRepeats(asked) && !IsDuplicate(asked, e)
  {
  }

  /** A list free of repeats is one in which no two pairs clash. */
  lemma {:induction false} NoRepeatsPairwise(asked: seq<(string, string)>)
    ensures NoRepeats(asked) <==> forall i, j :: 0 <= i < j < |asked| ==> !Clash(asked[i], asked[j])
  {
    if asked != [] {
      var init, last := asked[..|asked| - 1], asked[|asked| - 1];
      NoRepeatsPairwise(init);
      IsDuplicateExists(init, last);
      assert forall i :: 0 <= i < |init| ==> init[i] == asked[i];
    }
  }

  /** For each attempt number, whether the generator's question at that
      attempt duplicates one of `asked`. */
  function DuplicateAt(asked: seq<(string, string)>, generate: nat -> Question): nat -> bool {
    (j: nat) => IsDuplicate(asked, Entry(generate(j)))
  }

  /**
   * The attempt, from `attempt` on and below MaxAttempts, that is the first
   * whose question is no duplicate; None when every remaining attempt
   * produces a duplicate (FirstFreshSpec).
   */
  function FirstFresh(duplicate: nat -> bool, attempt: nat): Option<nat>
    decreases MaxAttempts - attempt
  {
    if attempt >= MaxAttempts then None
    else if !duplicate(attempt) then Some(attempt)
    else FirstFresh(duplicate, attempt + 1)
  }

  /** FirstFresh finds the first attempt that is no duplicate, and finds none
      exactly when every remaining attempt is a duplicate. */
  lemma FirstFreshSpec(duplicate: nat -> bool, attempt: nat)
    ensures var r := FirstFresh(duplicate, attempt);
      && (r.Some? ==> attempt <= r.value < MaxAttempts && !duplicate(r.value))
      && (r.Some? ==> forall j :: attempt <= j < r.value ==> duplicate(j))
      && (r.None? <==> forall j :: attempt <= j < MaxAttempts ==> duplicate(j))
    decreases MaxAttempts - attempt
  {
  }

  /** The turn after index `i` in a roster of `n`: `(i + 1) % n`, skipping nobody. */
  function NextTurn(i: nat, n: nat): (r: nat)
    requires n > 0
    ensures r < n
    ensures i + 1 < n ==> r == i + 1
    ensures i + 1 == n ==> r == 0
  {
    (i + 1) % n
  }
}
