# Word-chaining game: rule engine and browser session

This project models the two pieces of game logic in a small word-chaining
game. Each turn, the player replaces the current word with a new word built
from its letters.

- The server's **rule engine** (`src/server/app.py`) does five things:
  - It decides whether a word is valid. It uses a length bound, two caches,
    the dictionary and an online lookup.
  - It classifies a submitted word under one of three rules and scores it:
    - an anagram earns 15 points per letter;
    - the original rule, a sub-multiset of the current word's letters, earns
      10 points per letter;
    - the modified rule, at least 2 shared letters, earns 5 points per letter;
    - a word taken from a hint earns half, rounded down.
  - It decides whether the game is over.
  - It enumerates the candidate words for a word.
  - It selects hints and picks the start word.
- The **browser session** (`src/static/js/game.js`) keeps `currentWord`,
  `score` and `usedWords`, the input box with its one-shot from-hint flag,
  the hint box, the game-over overlay, the message line and the history
  list.

The modules are:

- `Text`: JavaScript `trim` and the lower-casing both sides apply.
- `Sorting`: a stable insertion sort by an integer key. The server's
  `sort(key=len, reverse=True)` is this sort with key `-len`. The client's
  character sort in `isAnagram` is this sort by code point.
- `Letters`: the letter-count tests. A Python `Counter` is a `multiset<char>`.
  The two counting loops of `submit_word` are methods proved equal to the
  multiset definitions.
- `Protocol`: the JSON bodies exchanged between client and server.
- `Server`: the rule engine. The pure parts are functions, with lemmas for
  what the engine promises. The enumeration loop, the start-word search and
  the validity gate are methods. The gate changes the two caches, which are
  fields of the `GameServer` class.
- `Client`: the `Session` class. A handler that calls the server is split at
  the network call. One method builds the request; another takes the server's
  reply, or a network error, as a parameter. The session's fields also form
  one value, a `Page`. Each handler that changes several fields states its
  whole new page as a function of the old one: `Prepared`, `AfterSubmitReply`,
  `Accepted`, `HintClick`, `AfterHintReply` and the like. Lemmas beside those
  functions state what each keeps and what it changes.
- `Game`: a session and a server composed. A submission and a hint request
  are followed from the click to the updated page.

The invariant `Session.Valid` says the score always equals the sum of the
points in the history list. `GameServer.Valid` says the two caches are
disjoint, hold only words of an accepted length, and never mark a
dictionary word as nonexistent.

## Model

| member | source | states |
|---|---|---|
| Text.Trim | src/static/js/game.js:61 | The result is the input with its leading and trailing white space cut off. What is cut off is all white space. The result starts and ends with a non-space. It is empty exactly when the input is blank. |
| Text.TrimIdempotent | src/static/js/game.js:61 | Trimming a trimmed string changes nothing. |
| Text.Lower | src/static/js/game.js:61 | Lower-casing keeps the length and lower-cases every ASCII capital in place. Every other character is kept. |
| Text.LowerIdempotent | src/server/app.py:100-101 | Lower-casing twice is lower-casing once. So the server's own `.lower()` leaves a word the client normalised unchanged. |
| Text.Normalise | src/static/js/game.js:61-66 | The normalised input is empty exactly when the typed text is blank, and it is already lower-case. |
| Sorting.SortBy | src/server/app.py:300-301 | Sorting returns a permutation of its input (equal multisets). |
| Sorting.SortByIsSorted | src/server/app.py:300-301 | The sorted list is ordered by its key. |
| Sorting.SortByIsStable | src/server/app.py:300-301 | The sort is stable: for every key, the elements with that key keep their input order. |
| Sorting.SortedArrangementUnique | src/static/js/game.js:228-229 | Two sorted arrangements of the same multiset are equal when the key is injective, as the code point is. |
| Letters.AnagramFits | src/server/app.py:115 | Equal letter counts imply the original rule and imply sharing every letter. So the engine's anagram test picks out a special case of the original rule. |
| Letters.CheckFits | src/server/app.py:154-158 | The `valid` loop answers true exactly when every letter of the new word is available in the current word with its count. |
| Letters.CountShared | src/server/app.py:162-165 | The `shared_letters` loop computes the size of the multiset intersection. |
| Server.MaxLength | src/server/app.py:77 | Every dictionary word is at most this long, and some word has exactly this length. |
| Server.WithLength | src/server/app.py:80 | The list holds exactly the dictionary words of the given length. |
| Server.StartGame | src/server/app.py:74-95 | An empty dictionary gives no start word. Otherwise the start word is a dictionary word, of the largest length at most min(8, longest), and of length 4 or more when that length is not the capped maximum. No start word is returned only when no word has the capped maximum length or a length from 4 up to it. |
| Server.SubmitReplyFor | src/server/app.py:97-252 | No contract of its own. `Server.AnagramScore`, `Server.OriginalRuleScore`, `Server.ModifiedRuleScore`, `Server.RefusedSubmissions`, `Server.HintedPoints`, `Server.ScoredPointsPositive` and `Server.SubmitGameOverRule` specify it. |
| Server.RuleOf | src/server/app.py:115-212 | No contract of its own. `Server.ModifiedRuleOf` and the three score lemmas state which rule applies when. |
| Server.Points | src/server/app.py:120-225 | No contract of its own. `Server.PointsAtLeastFive`, `Server.HintedPoints` and the three score lemmas specify it. |
| Server.AnagramScore | src/server/app.py:115-151 | Equal letter counts, identical words included, score 15 per letter, or half rounded down from a hint, with no modified-rule flag. |
| Server.OriginalRuleScore | src/server/app.py:214-252 | A proper sub-multiset of the current word's letters scores 10 per letter, or half from a hint, with no modified-rule flag. |
| Server.ModifiedRuleScore | src/server/app.py:160-207 | A word that is not a sub-multiset but shares 2 or more letters scores 5 per letter, or half from a hint, with the modified-rule flag. |
| Server.RefusedSubmissions | src/server/app.py:103-212 | A submission is refused exactly when the word is invalid, or when it neither fits nor shares 2 letters. The messages are "Not a valid word" and the at-least-2-letters message, respectively. |
| Server.ModifiedRuleOf | src/server/app.py:160-165 | A word that does not fit in the current word's letters but shares 2 or more of them falls under the modified rule. It can be neither an anagram nor an original-rule word. |
| Server.ScoredPointsPositive | src/server/app.py:31 | Every accepted word earns at least 5 points, because a valid word has at least 2 letters. |
| Server.PointsAtLeastFive | src/server/app.py:172-176 | A word of 2 or more letters earns at least 5 points under every rule, with or without the hint halving. |
| Server.HintedPoints | src/server/app.py:120-225 | A word sent from a hint is accepted only under some rule, and then earns its length times that rule's rate, halved and rounded down. |
| Server.SubmitGameOverRule | src/server/app.py:231-245 | `game_over` is false with no used words. Otherwise it is true exactly when no dictionary word passes either rule against the new word. The new word itself, the used words and the replaced word are excluded. |
| Server.EndsGame | src/server/app.py:231-245 | No contract of its own. `Server.SubmitGameOverRule` states it. |
| Server.OriginalAmongMembers | src/server/app.py:267-283 | Among the words scanned, the original-rule list holds exactly those, other than the input word, that fit in its letters. |
| Server.ModifiedAmongMembers | src/server/app.py:285-292 | Among the words scanned, the modified-rule list holds exactly those, other than the input word, that do not fit but share at least 2 letters. |
| Server.Candidates | src/server/app.py:254-303 | No contract of its own. `Server.FindPossibleWords` computes it with the source's loop. `Server.CandidatesMembers`, `Server.CandidatesDisjoint`, `Server.CandidatesLongestFirst`, `Server.OriginalKeepDictionaryOrder` and `Server.ModifiedKeepDictionaryOrder` specify it. |
| Server.FindPossibleWords | src/server/app.py:254-303 | The enumeration loop followed by the two sorts yields the two candidate lists. |
| Server.CandidatesMembers | src/server/app.py:254-292 | An empty word gets two empty lists. Otherwise the lists hold exactly the matching dictionary words, other than the word itself, under the original rule and under the modified rule only. |
| Server.CandidatesDisjoint | src/server/app.py:281-283 | No word is in both lists, and the input word is in neither. |
| Server.CandidatesLongestFirst | src/server/app.py:300-301 | Both lists run from the longest word to the shortest: no word is longer than one before it. |
| Server.OriginalKeepDictionaryOrder | src/server/app.py:300 | Original-rule words of equal length keep their dictionary order. |
| Server.ModifiedKeepDictionaryOrder | src/server/app.py:301 | Modified-rule words of equal length keep their dictionary order. |
| Server.Unused | src/server/app.py:330-331 | The filter keeps exactly the words not used. It never grows the list, and it keeps everything when no word is used. `Server.UnusedAppend` and `Server.UnusedKeepsLongestFirst` state that it keeps order. |
| Server.UnusedAppend | src/server/app.py:330-331 | Filtering a concatenation is the concatenation of the filtered parts, so the words kept stay in their order. |
| Server.UnusedKeepsLongestFirst | src/server/app.py:330-331 | Filtering a list that runs longest first leaves a list that runs longest first. |
| Server.Take | src/server/app.py:334-335 | The slice is a prefix of length min(n, length). |
| Server.GetHint | src/server/app.py:305-351 | No contract of its own. `Server.HintListsCutAtThree`, `Server.HintsAreUnusedPrefixes`, `Server.HintsLongestFirst` and `Server.HintGameOverRule` specify it. |
| Server.HintListsCutAtThree | src/server/app.py:337-343 | The rebalancing branches never fire. Each hint list is the first three of its filtered candidate list. |
| Server.HintsAreUnusedPrefixes | src/server/app.py:323-335 | A request with a current word gets hints. Each list is a prefix of at most 3 of the filtered candidates. Every hint is an unused dictionary word, other than the current word, that passes its list's rule. |
| Server.HintsLongestFirst | src/server/app.py:323-335 | Both hint lists run longest first. No unused candidate left out of a list is longer than any hint in it, so the hints are the longest unused candidates. |
| Server.HintGameOverRule | src/server/app.py:315-351 | A request fails exactly for an empty current word. `game_over` is false with no used words. Otherwise it is true exactly when no unused dictionary word passes either rule. |
| Server.GameServer.constructor | src/server/app.py:24-26 | The server starts with empty caches, which satisfy the cache invariant. |
| Server.GameServer.Accepts | src/server/app.py:29-66 | An accepted word has 2 to 15 letters. A dictionary word is accepted exactly when its length is in that range. |
| Server.GameServer.IsValidWord | src/server/app.py:29-66 | A word outside 2 to 15 letters is rejected and the caches are untouched. Otherwise the answer is the gate's verdict. An accepted word is added to the verified cache. A word the lookup reports missing is added to the nonexistent cache. A settled lookup gives the same answer whatever the lookup would say next. |
| Server.GameServer.SubmitWord | src/server/app.py:97-252 | The reply is the engine's verdict for the lower-cased words, and an accepted word earns at least 5 points. The caches change exactly as `GameServer.CachesRecorded` says: an accepted word joins the verified words, a word the online dictionary rejected joins the nonexistent words, and nothing else is added. The cache invariant is kept. |
| Client.IsAnagram | src/static/js/game.js:225-232 | No contract of its own. `Client.IsAnagramIffSameLetters` specifies it. |
| Client.IsAnagramIffSameLetters | src/static/js/game.js:225-232 | `isAnagram` holds exactly when the two words have equal letter counts. So it is reflexive and symmetric. |
| Client.PreparedEffects | src/static/js/game.js:60-88 | A blank or used word is refused on the spot. The only change is the message: 'enter a word' or 'already used'. Otherwise the request carries the current word, the normalised word, the used words and the from-hint flag. The only other changes: the flag is cleared, the hint box closes, and 'anagram detected' is shown exactly for an anagram of the current word. |
| Client.PreparedKeepsScoreAndControls | src/static/js/game.js:60-88 | Preparing a submission changes neither the score nor the lock flags and overlay. |
| Client.AcceptedEffects | src/static/js/game.js:106-137 | An accepted word: the replaced word joins the used words, and the new word becomes current. The points are added to the score and logged at the head of the history. The input is cleared and the success shown. The score stays the history's total. The page locks exactly when a game-over signal meets a current word and a non-zero score; otherwise the controls are unchanged. The from-hint flag and the hint box are untouched. |
| Client.SubmitReplyEffects | src/static/js/game.js:104-148 | Whatever the answer, the input is cleared, and the from-hint flag and hint box are kept. The score stays the history's total. A refusal or a network error changes only the input and the message, which gives the reason; game state and controls are kept. |
| Client.GameOverLocks | src/static/js/game.js:134-137 | An accepted word worth some points, on a page with a non-negative score, locks the page exactly when the server signals game over. Without the signal the controls are unchanged. |
| Client.ReplyOutcome | src/static/js/game.js:104-148 | An answer to a sent word, worth some points if accepted, never lowers a non-negative score. A control fires afterwards exactly as before, unless an accepted word ended the game. |
| Client.SubmitOutcome | src/static/js/game.js:60-149 | A whole `submitWord`, whether refused on the spot or answered, never lowers a non-negative score. A control fires afterwards exactly as before, unless an accepted word ended the game. |
| Client.PickedHintOutcome | src/static/js/game.js:339-347 | A picked hint is sent with the from-hint flag raised, unless it is blank or already used. The hint box ends closed either way. A hint refused on the spot leaves the flag raised. |
| Client.ResubmitOutcome | src/static/js/game.js:60-137 | The current word typed back in is sent as itself. Once accepted, it stays current, it becomes the last used word, and the score grows by the points. |
| Client.HintClickEffects | src/static/js/game.js:413-419 | A disabled hint button changes nothing. An enabled one always leaves the box closed. It closes an open box; with no current word it only shows the 'no word' message; otherwise it disables itself while the request is out. Game state, input and from-hint flag are kept. |
| Client.HintReplyEffects | src/static/js/game.js:300-322 | Game state, input and from-hint flag are kept. Delivered hints are shown as exactly the two lists received. The button is enabled again unless the game-over signal locks the page, which happens exactly with a current word and a non-zero score. A failure keeps the hint box and lock flags, re-enables the button and shows the reason. |
| Client.Session.constructor | src/static/js/game.js:16-18 | Page load gives score 0, no used words, an empty input, and the controls enabled. Then `initGame`'s outcome applies. |
| Client.Session.InitGame | src/static/js/game.js:21-57 | The overlay is hidden and the controls are enabled. A start word becomes the current word and the only history entry. A failure keeps the current word and shows its reason. Score and used words are never touched. |
| Client.Session.TypeWord | src/static/js/game.js:61 | Typing reaches the input box only while the box is enabled (`showGameOver` disables it). The page afterwards is `Client.Typed` of the page before: the input is the typed text, or unchanged on a disabled box, and nothing else changes. |
| Client.Session.PrepareSubmission | src/static/js/game.js:60-88 | The request is `SubmitRequest` of the page before. The whole page afterwards is `Prepared` of the page before. `Client.PreparedEffects` states what those are. |
| Client.Session.ReceiveSubmitReply | src/static/js/game.js:104-148 | Keeps the score equal to the history's total. The whole page afterwards is `AfterSubmitReply` of the page before and the reply. `Client.SubmitReplyEffects` states what that is. |
| Client.Session.AcceptWord | src/static/js/game.js:106-137 | Keeps the score equal to the history's total. The whole page afterwards is `Accepted` of the page before. `Client.AcceptedEffects` states what that is. |
| Client.Session.ShowGameOver | src/static/js/game.js:422-447 | With a current word and a non-zero score, the overlay is shown and the input, submit and hint controls are disabled. Otherwise nothing changes. The whole page afterwards is `GameOverShown` of the page before. |
| Client.Session.HintButtonClicked | src/static/js/game.js:413-419 | A disabled hint button does nothing. Otherwise an open hint box is closed without a request, and a closed one goes through the `getHints` guard. The whole page afterwards is `HintClick` of the page before. |
| Client.Session.RequestHints | src/static/js/game.js:278-298 | With no current word, an error is shown and no request is made. Otherwise the request carries the current and used words, and the hint button is disabled. The whole page afterwards is `HintsRequested` of the page before. |
| Client.Session.ReceiveHints | src/static/js/game.js:300-322 | The whole page afterwards is `AfterHintReply` of the page before and the reply. `Client.HintReplyEffects` states what that is. |
| Client.Session.PickHint | src/static/js/game.js:339-347 | A clicked hint fills the input, raises the from-hint flag and closes the hint box. `Game.PickHintTurn` follows the submission that comes next. The whole page afterwards is `HintPicked` of the page before. |
| Client.Session.ResetGame | src/static/js/game.js:484-510 | The page ends with score 0 and no used words. The input is empty, the hint box and overlay are hidden, and the controls are enabled. A new start word, if the start succeeds, is the only history entry. Otherwise there is no current word and the start failure is shown. |
| Game.SubmitTurn | src/static/js/game.js:60-149 | A submission end to end. The page reaches the server exactly when `SubmitRequest` gives a request. A word refused on the spot leaves the page as `Prepared` of the page before, and the server caches unchanged. Otherwise the reply is the engine's verdict on that request, and an accepted word earns at least 5 points. The whole page afterwards is the prepared page after taking in that verdict. The caches record the lower-cased new word as `GameServer.CachesRecorded` says. |
| Game.PressSubmit | src/static/js/game.js:404-410 | A disabled control fires nothing: no reply, and neither the page nor the server changes. An enabled control runs `submitWord`, with the whole page, the reply and the cache changes of `Game.SubmitTurn`: the caches are unchanged when the page refuses the word on the spot. The score never decreases. The control still fires afterwards unless an accepted word ended the game. |
| Game.LockedPageIgnoresControls | src/static/js/game.js:444-446 | Once `showGameOver` has disabled the input, the submit button and the hint button, neither a submission nor a hint click sends a request or changes the page or the server. |
| Game.PickHintTurn | src/static/js/game.js:339-350 | A click on a shown hint submits it at once, whatever state the submit controls are in. The whole page afterwards is that of `submitWord` on the picked page, and the hint box ends closed. A hint refused on the spot leaves the flag raised and the server caches unchanged. Otherwise the reply is the engine's verdict with the from-hint flag set, and the caches record the lower-cased hint as `GameServer.CachesRecorded` says. An accepted hint earns half its rule's rate times its length, rounded down. |
| Game.ServeSubmission | src/static/js/game.js:90-148 | The reply is the engine's verdict on the sent request, worth at least 5 points if accepted. The whole page afterwards is `AfterSubmitReply` of the page before and that verdict. The caches record the lower-cased new word as `GameServer.CachesRecorded` says. |
| Game.HintTurn | src/static/js/game.js:413-419 | The hint button end to end. No game state changes, and neither do the input or the from-hint flag. A request goes out exactly when the button is enabled, the box is closed and there is a current word. The whole page afterwards is the clicked page, or the clicked page after taking in the engine's hints. Every hint shown after a click on an enabled button is an unused dictionary word, other than the current word, that passes its rule. A game-over answer locks a page with a non-zero score. |
| Game.ShowServerHints | src/static/js/game.js:289-313 | The engine's hints for the request are shown and are sound. The whole page afterwards is `AfterHintReply` of the page before and those hints. A game-over answer locks a page with a non-zero score. |
| Game.ResubmitCurrentWord | src/server/app.py:115-151 | With the input box enabled, typing the current word back in is accepted as an anagram worth 15 points per letter. Afterwards the current word is also the last used word. |
| Game.ResubmitStartWord | src/static/js/game.js:106-111 | In a fresh game, resubmitting the start word leaves it both the current word and the only used word. |

## Left out

- The page's presentation is not modelled: DOM element updates, history
  rendering (the used-word strike-through, the anagram-bonus class), focus,
  the hint button's label, fireworks and confetti, and all console and
  `print` output. The history list is kept as a list of entries, newest first.
- The message line's 5-second auto-clear timer is not modelled. The message
  line is one slot that each new message replaces, and the wording of
  messages is reduced to their cause.
- The network is not modelled. `fetch`, JSON encoding and Flask routing are
  replaced by the server's answer, passed to the client as a value. A
  network exception, or a body that is not JSON, is a `NetworkError` value.
- The online dictionary lookup (`requests.get`, `time.sleep`) is a parameter
  `ApiAnswer`: found, not found, or unreachable.
- Dictionary loading is not modelled. The word list is given, so the
  loader's filter to words of at most 8 letters is not modelled either.
- `random.choice` is a nondeterministic pick among the longest words.
- Both `max` of an empty dictionary and `random.choice([])` raise in the
  source. `Server.StartGame` returns `None` for them.
- Requests are assumed well-formed: all keys are present and the body is
  JSON. So the `Invalid JSON data` branch of `get_hint`, its exception
  handler, and the defaults of `data.get` are not modelled.
- Handlers are atomic steps. Interleaving of concurrent requests is not
  modelled, for example a second submission while one is pending.
- Text.Lower: lower-cases ASCII letters only. `toLowerCase` and `.lower()`
  map every Unicode capital. A letter outside ASCII is kept as it is, and
  the properties proved hold for this restricted mapping.
- Client.Session.InitGame: requires a score of 0. Its two callers, page load
  and `resetGame`, both run it at score 0. This is what keeps the score
  equal to the history's total once `initGame` clears the history.
- Client.IsAnagram: a `char` here is a Unicode code point. JavaScript
  strings are sequences of UTF-16 code units, and `split('')` cuts a
  character outside the Basic Multilingual Plane into two surrogates. So
  for such characters the source compares code units, and two different
  words can have the same sorted units. The model compares whole
  characters, and `Client.IsAnagramIffSameLetters` holds for code points.
- Client.Session.PrepareSubmission: the "Anagram detected" message uses
  `Client.IsAnagram`, so it shares the same code-point reading. For words
  outside the Basic Multilingual Plane the message can differ from the
  source's.

## How the code behaves where one might expect otherwise

- **The current word can also be a used word.** The player can resubmit
  the current word. The engine accepts it as an anagram of itself, and the
  client then pushes the old current word, which is the same word, onto the
  used words. `Game.ResubmitCurrentWord` and `Game.ResubmitStartWord` show
  this.
- **Only `resetGame` resets the game state.** `initGame` sets only the
  current word and the history. `resetGame` resets score and used words
  before it calls `initGame`.
- **The game-over guard checks a non-zero score after scoring.**
  `showGameOver` tests `score === 0`, and `submitWord` calls it after the
  word's points have been added.
