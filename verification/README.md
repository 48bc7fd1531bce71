# TriviaTribe game rooms in Dafny

TriviaTribe is a multiplayer trivia server. Players create a game room or join one by its id. The host starts the game. Players then take turns picking a topic, and a language model generates a multiple-choice question on it. Every player answers within 30 seconds, and a round ends once every player in the room, connected or not, has an answer on record. Each close-enough answer then earns one point, and the turn passes to the next player.

This project models the server's in-memory state and the handlers that change it:

- **`Normalize`** (`normalize.dfy`): the two string normalisers and the fuzzy answer matcher built on them.
- **`Rules`** (`rules.dfy`): the values a room holds and the pure rules its handlers apply:
  - the 30-second cutoff;
  - the mapping from a letter to an option;
  - the duplicate test on generated questions and the five-attempt search;
  - the scoring of a round and the turn order.
- **`Rooms`** (`room.dfy`): class `Room`, one entry of the `games` dictionary. Its methods run each handler from the point where the room has been found, and update the record in place.
  - `Room.Valid` is the record's invariant, and every handler preserves it:
    - one to ten distinct, non-empty players, with the host first;
    - one score per player and nobody else;
    - answers only from players, listed once each in insertion order;
    - no two recorded questions that clash.
  - The scoring and search loops are module-level methods over values (`ScoreRound`, `HasAskedBefore`, `FindFresh`).
  - Each of those methods is proved against a recursive specification function (`Tally`, `Winners`, `IsDuplicate`, `FirstFresh`). Lemmas relate each function to the property it stands for.
- **`Scenarios`** (`scenarios.dfy`): a one-player game run through the room handlers, showing the repeated scoring listed under Findings, and the corrected handler that avoids it.
- **`Registry`** (`games.dfy`): class `Games`, the `games` dictionary with its keys in insertion order. It covers:
  - the lookup every socket handler starts with;
  - `create_game`, `join_game` and `handle_disconnect`.

The handlers emit Socket.IO events. In the model, each room handler returns its events as a list (`Rules.Event`), in emission order. `Registry.Games.Disconnect` sends one event to each of several rooms, so it returns each event paired with the id of the room it goes to.

Three inputs stand in for things outside the model:

- **The question generator** is an input function `generate: nat -> Question`, giving the question returned by each successive call.
- **The fuzzy-match decision** on two different normalised strings (a float comparison, or a `difflib` ratio of at least 0.8) is an input predicate `similar`.
- **The clock** is an integer `now` in microseconds, the resolution of Python's `datetime`.

## Model

| member | source | states |
|---|---|---|
| `Normalize.LowerChar` | app.py:66 | Lower-casing leaves no upper-case letter and does not move a character in or out of the whitespace or word-character classes. |
| `Normalize.TrimStartRemovesSpace` | app.py:230 | The left half of `strip()` removes a prefix made only of whitespace and keeps a suffix of the input that does not start with whitespace. |
| `Normalize.TrimEndRemovesSpace` | app.py:230 | The right half of `strip()` removes a suffix made only of whitespace and keeps a prefix of the input that does not end with whitespace. |
| `Normalize.StripKeepsNonSpace` | app.py:66 | `strip()` leaves no whitespace at either end and introduces no character. Every non-whitespace character of its input occurs in the result (order and count: `StripKeepsText`). |
| `Normalize.StripTrimmed` | app.py:230 | A string with no whitespace at either end is unchanged by `strip()`. |
| `Normalize.CollapseShape` | app.py:230 | After `re.sub(r'\s+', ' ', …)`, every whitespace character is a plain space and no two are adjacent. No character is added except the space. The result is empty only for empty input, and has whitespace at an end exactly where the input does. |
| `Normalize.CollapseKeeps` | app.py:230 | Every non-whitespace character of the input occurs in the collapse (order and count: `CollapseKeepsText`). |
| `Normalize.CollapseSingleSpaced` | app.py:230 | Text that is already single-spaced with plain spaces is unchanged by the collapse. |
| `Normalize.NormalizeAnswerShape` | app.py:229-230 | `normalize_answer` returns lower-case text with no whitespace at either end and only single plain spaces inside. Every non-whitespace character of its input occurs in it, lower-cased (order and count: `NormalizeAnswerKeepsText`). |
| `Normalize.NormalFormIsFixed` | app.py:229-230 | `normalize_answer` leaves a string already in that form unchanged. |
| `Normalize.NormalizeAnswerIdempotent` | app.py:229-230 | Applying `normalize_answer` twice gives the same result as applying it once. |
| `Normalize.DropPunctuationKeeps` | app.py:67 | After removing `[^\w\s]`, a character occurs in the text exactly when it occurs in the input and is a word character or whitespace; the text never gets longer (order and count: `DropPunctuationKeepsText`). |
| `Normalize.NormalizeTextShape` | app.py:64-68 | `normalize_text` returns lower-case text made only of word characters and whitespace, and every word character of its input occurs in it, lower-cased (order and count: `NormalizeTextKeepsWords`). |
| `Normalize.NormalizeTextNotIdempotent` | app.py:64-68 | `normalize_text` is not idempotent: `"! a"` becomes `" a"`, and a second pass turns that into `"a"`. |
| `Normalize.StripKeepsText` | app.py:66 | `strip()` (the `Strip` function, also used at app.py:230) removes whitespace only: keeping just the characters of any whitespace-free class, the input and the result agree, in order and count. |
| `Normalize.CollapseKeepsText` | app.py:230 | `re.sub(r'\s+', ' ', …)` (the `CollapseSpaces` function) rewrites whitespace only: the non-whitespace characters of the result are those of the input, in order and count. |
| `Normalize.NormalizeAnswerKeepsText` | app.py:229-230 | `normalize_answer` (the `NormalizeAnswer` function) changes case and whitespace only: its non-whitespace characters are the input's, lower-cased, in order and count. |
| `Normalize.DropPunctuationKeepsText` | app.py:67 | `re.sub(r'[^\w\s]', '', …)` (the `DropPunctuation` function) keeps the word characters and the whitespace of the input, each in order and count. |
| `Normalize.NormalizeTextKeepsWords` | app.py:64-68 | `normalize_text` (the `NormalizeText` function) keeps the word characters of its input, lower-cased, in order and count. |
| `Normalize.CloseEnoughIgnoresCase` | app.py:70-84 | `is_close_enough` (the `IsCloseEnough` predicate) gives the same verdict for a player's answer and for its lower-cased form. |
| `Normalize.SameTextMatches` | app.py:70-84 | `is_close_enough` (the `IsCloseEnough` predicate): two answers with the same `normalize_text` form always count as close enough, whatever the similarity decision is. |
| `Rules.AllAnswered` | app.py:313 | Because only players' names are keys of `answers`, `len(answers) == len(players)` holds exactly when every player has an answer slot. |
| `Rules.RecordAnswer` | app.py:309-313 | Writing a player's answer slot keeps the slots and their insertion order in step. The size test then says whether every player has a slot. |
| `Rules.LetterIndex` | app.py:305-306 | A submission counts as a letter exactly when it is one of the one-character strings "A" to "D". Its index is `ord(letter) - ord('A')`, below 4. |
| `Rules.LetterIndexLetters` | app.py:305 | The letters accepted are exactly the strings in `['A', 'B', 'C', 'D']`. |
| `Rules.StoredAnswer` | app.py:299-309 | What is stored for a submission. After more than 30 seconds it is no answer. In time, a letter A-D is replaced by the option at its position, or raises IndexError when it points past the end of the options. Anything else sent in time is stored exactly as sent. IndexError arises in that one case only. |
| `Rules.LetterSelectsOption` | app.py:305-306 | A letter submitted in time is replaced by the option at its position. |
| `Rules.AwardSpec` | app.py:317-321 | A round adds no players and removes none. A player gains exactly one point when their stored answer is present, non-empty and close enough to the correct answer; every other score is unchanged. |
| `Rules.TallyCounts` | app.py:317-321 | The scoring loop, visiting each name at most once, gives each visited player the point their answer earns, exactly once. |
| `Rules.TallyIsAward` | app.py:317-321 | The scoring loop over the `answers` dictionary awards exactly the points of `Award`. |
| `Rules.WinnersSpec` | app.py:316-320 | `correct_players` lists exactly the visited players whose answer earns a point, and holds no more names than were visited. |
| `Rules.ScoreStep` | app.py:317-321 | One pass of the scoring loop extends the scores and the `correct_players` list from one prefix of the answer order to the next. |
| `Rules.IsDuplicateExists` | app.py:263-270 | A generated question is a duplicate exactly when some question asked before has the same normalised answer or the same question text. |
| `Rules.NoRepeatsAppend` | app.py:272-273 | Recording a question keeps the asked list free of repeats exactly when it is no duplicate. |
| `Rules.NoRepeatsPairwise` | app.py:263-273 | A repeat-free asked list is one in which no two entries share a normalised answer or a question text. |
| `Rules.FirstFreshSpec` | app.py:250-283 | The attempt chosen is the first one below five whose question is no duplicate. No attempt is chosen exactly when all five are duplicates. |
| `Rules.NextTurn` | app.py:324 | The turn moves to the next index and wraps to 0 after the last player, skipping nobody. |
| `Rooms.Room.constructor` | app.py:97-107 | A new room hosted by the creator: the only player, score 0, waiting, no question, no answers. |
| `Rooms.Room.Join` | app.py:125-133 | The room refuses with 403 unless it is waiting, and is full at ten players. A new name is appended with score 0; a name already present changes nothing. The invariant is kept. |
| `Rooms.Room.Rejoin` | app.py:207-211 | A player of the room is removed from `disconnected`, and `player_joined` goes to the room. Anyone else is ignored. |
| `Rooms.Room.MarkDisconnected` | app.py:339-341 | A player of the room is added to `disconnected`, and no player is removed. The result says whether the name was a player. |
| `Rooms.Room.StartGame` | app.py:217-226 | Only the host starts, and only a waiting game. The game goes in progress with the turn at index 0, and `game_started` goes to the room. Otherwise nothing changes. |
| `Rooms.Room.SelectTopic` | app.py:239-286 | Anyone but the turn holder of a game in progress is ignored. Otherwise an empty topic becomes the random topic and is announced. The first of five generated questions that is no duplicate is recorded, opens an empty answer set, starts the clock and is announced. If all five are duplicates, the error message is sent and the room is unchanged. |
| `Rooms.Room.AskGenerator` | app.py:250-286 | The same, for the turn holder: the chosen question is the one `FirstFresh` picks, and the asked list stays free of repeats. |
| `Rooms.Room.RecordQuestion` | app.py:272-276 | A question that is no duplicate is appended to the asked list and becomes current with a fresh answer set and the clock at `now`. |
| `Rooms.Room.SubmitAnswer` | app.py:294-334 | Only a player of a game in progress with a question out is heard. A letter past the end of the options raises IndexError before anything is written. Otherwise the player's slot is written, and `player_answered` is sent. When every player has a slot, the scores become `Award`, the turn passes to `NextTurn`, and `round_results` is sent. |
| `Rooms.Room.AcceptAnswer` | app.py:309-334 | The part of the handler after the stored answer is known: the write, and the resolution once every player has a slot. |
| `Rooms.Room.StoreAnswer` | app.py:309-313 | A slot is overwritten in place or created at the end of the insertion order. The size test holds exactly when the round is complete. |
| `Rooms.Room.ResolveRound` | app.py:313-334 | Resolving a complete round sets the scores to `Award` and the turn to `NextTurn`. The results carry the winners in answer order, the next player and the new scores. |
| `Rooms.Room.SubmitAnswerOnce` | app.py:294-334 | The handler as evidently intended (see Findings): the same guards, letter mapping and write, but the round resolves only on the submission that completes it. A submission to a round that was already complete leaves scores and turn as they were and sends only `player_answered`. |
| `Rooms.Room.AcceptAnswerOnce` | app.py:309-334 | The corrected tail of the handler: resolution with `Award` and `NextTurn` exactly when the round goes from incomplete to complete, and no change to scores or turn otherwise. |
| `Scenarios.LetterAPicksFirst` | app.py:300-307 | Within the 30-second window the letter A stores the question's first option. |
| `Scenarios.RightAnswerScores` | app.py:317-321 | A round in which the only player gave the right, non-empty answer adds one point to that player's score. |
| `Scenarios.ResubmissionScoresAgain` | app.py:309-327 | With the handler as written, a one-player game in which the player submits the right letter twice ends with two points from a single question. |
| `Scenarios.ResubmissionScoresOnce` | app.py:309-327 | With the corrected handler, the same two submissions leave the player with one point. |
| `Rooms.ScoreRound` | app.py:316-321 | The scoring loop computes `Tally` and `Winners` over the answers in insertion order. |
| `Rooms.HasAskedBefore` | app.py:260-270 | The duplicate scan returns `IsDuplicate`. |
| `Rooms.FindFresh` | app.py:250-283 | The attempts loop returns the attempt `FirstFresh` picks. |
| `Registry.HoldingSpec` | app.py:336-343 | A disconnect notifies exactly the rooms whose roster holds the user, each once. |
| `Registry.Holders` | app.py:340-343 | The rooms notified on a disconnect are the ones whose roster holds the user, in dictionary order. |
| `Registry.Games.constructor` | app.py:61 | The server starts with no games. |
| `Registry.Games.Find` | app.py:207 | The `game_id in games` test every socket handler starts with: a room exactly when the payload names a stored id. |
| `Registry.Games.CreateGame` | app.py:91-112 | Without a user name the request goes back to the index page and nothing changes. Otherwise a fresh room hosted by the user is stored under the id, replacing any room that had that id, and every other room is kept. The key order is kept, with a new id going last. |
| `Registry.Games.Install` | app.py:97 | Storing a room under an id keeps the registry consistent. A new key goes last and an existing key keeps its place. |
| `Registry.Games.JoinGame` | app.py:114-138 | A missing name or id goes back to the index page, and an unknown id gets 404. Otherwise the room's answer is that of `Room.Join`, and no other room's players or scores change. |
| `Registry.Games.Disconnect` | app.py:336-343 | Without a user in the session nothing happens and no event is sent. Otherwise every room holding the user marks them disconnected and the others are unchanged. One `player_disconnected` event for the user goes to each room of `Holding`, in that order. |
| `Registry.Games.MarkEverywhere` | app.py:338-341 | Every room holding the user adds them to `disconnected`, and every room stays consistent. |

## Left out

- The HTTP side is not modelled:
  - Flask routing and templates: the index page, and the game page (app.py:140-149);
  - the session writes in `create_game` and `join_game`;
  - the redirects, beyond naming their outcome.
- Socket.IO rooms and transport (`join_room`, the `to=game_id` addressing) and `handle_connect` are not modelled. Events are returned as lists instead.
- The question generator's internals are not modelled: the prompt, the model call, and the JSON parsing with its fallback question. The generator is the input `generate`.
- `generate_game_id` and `RANDOM_TOPICS` are not defined in app.py. The game id and the random topic are inputs. A random topic must be non-empty, as a real pick from a topic list would be.
- `is_close_enough` only covers equal normalised strings. The float comparison and the `difflib` ratio are the input predicate `similar`.
- Unicode handling is simplified:
  - case mapping is ASCII only;
  - `\w` treats every non-ASCII character that is not whitespace as a word character.
- The SQLAlchemy models (app.py:37-58), models.py and static/music.js are not modelled. The handlers never touch them.
- Handlers are assumed to run one at a time, with no concurrent interleaving.
- A socket handler is modelled as `Games.Find` followed by the `Room` method. There is no combined registry-level member for `join_game_room`, `start_game`, `select_topic` or `submit_answer`.
  - A missing `username` in a socket payload behaves like a name that is not a player, which every guard rejects.
  - A missing `game_id` fails `Find`.
  - Payload values are strings or absent; other JSON types are not modelled.
- `Rooms.Room.SelectTopic` emits the random-topic announcement once, before the search. The handler emits it on the first pass of its loop, which always runs and always precedes the first generator call, so the event order is the same.
- `Rooms.Room.SelectTopic` and `Rooms.Room.AskGenerator` require a non-empty `randomTopic`, standing for a pick from the missing `RANDOM_TOPICS`.
- The asked-questions list is created empty with the room. The handler creates it lazily on the first topic selection (app.py:245-246), which is equivalent.
- `Rooms.Room.ResolveRound` computes the new scores and then assigns them. The handler increments them in place inside the loop; no step in between can fail, so the final state is the same.
- `Registry.Games.Disconnect` marks every room in one simultaneous update (`MarkEverywhere`) and computes the notification order separately (`Holders`). The handler does both room by room in dictionary order; the final state and the event order are the same.
- Exceptions other than the IndexError of an out-of-range letter are not modelled. Within the room, `Room.Valid` rules out the lookups that could fail: the players, the scores and the current question are always consistent.
- The generator's output is taken to be a complete `Rules.Question` of strings. The model does not cover a payload with a missing or non-string field. In the source, such a payload raises part-way through a handler and leaves a partly updated room:
  - without `question` or `answer`, `handle_select_topic` raises before recording anything (app.py:257-258);
  - without `options`, it raises after the question was recorded (app.py:273-276, 280);
  - without `explanation`, `handle_submit_answer` raises after the scores and the turn changed (app.py:321-329);
  - a field that is not a string makes `normalize_answer` or `normalize_text` raise.

## Findings

| source | as written | input that shows it | evidently intended | confidence | as-written member | corrected member |
|---|---|---|---|---|---|---|
| app.py:309-327 | After a round resolves, its answers and question stay in the room until the next topic is picked. Any further accepted submission finds every player with a slot and resolves the round again: every close-enough answer scores again, and the turn advances again. | A one-player game with a question whose first option is right: the player sends the letter A twice within 30 seconds and ends with 2 points. | A round is scored once, on the submission that completes it. | not executed | `Rooms.Room.SubmitAnswer`, exhibited by `Scenarios.ResubmissionScoresAgain` | `Rooms.Room.SubmitAnswerOnce` (via `Rooms.Room.AcceptAnswerOnce`), exhibited by `Scenarios.ResubmissionScoresOnce` |
