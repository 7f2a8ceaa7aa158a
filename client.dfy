/** The browser session: the game state the page keeps (`currentWord`,
    `score`, `usedWords`), the input box with its from-hint flag, the hint box,
    the game-over overlay, the message line and the history list. Each handler
    is one atomic step; a handler that talks to the server is split at its
    network call into the part that builds the request and the part that
    handles the reply, which arrives as a parameter. */
module Client {
  import opened Wrappers
  import opened Protocol
  import opened Text
  import Sorting

  // ---------------------------------------------------------------------------
  // isAnagram

  /** The order `sort()` puts single characters in, by code point. */
  function CodePoint(c: char): int {
    c as int
  }

  /** `word.split('').sort().join('')`. */
  function SortedLetters(w: string): string {
    Sorting.SortBy(w, CodePoint)
  }

  /** `isAnagram`: equal lengths and equal sorted letters. */
  function IsAnagram(a: string, b: string): bool {
    |a| == |b| && SortedLetters(a) == SortedLetters(b)
  }

  /** Two words are anagrams exactly when they have the same letters with the
      same counts, the test the server makes with `Counter`; hence the test is
      reflexive and symmetric. */
  lemma IsAnagramIffSameLetters(a: string, b: string)
    ensures IsAnagram(a, b) <==> multiset(a) == multiset(b)
    ensures IsAnagram(a, a) && IsAnagram(a, b) == IsAnagram(b, a)
  {
    if multiset(a) == multiset(b) {
      assert |a| == |multiset(a)| == |multiset(b)| == |b|;
      Sorting.SortByIsSorted(a, CodePoint);
      Sorting.SortByIsSorted(b, CodePoint);
      Sorting.SortedArrangementUnique(SortedLetters(a), SortedLetters(b), CodePoint);
    }
  }

  // ---------------------------------------------------------------------------
  // Messages and history

  /** The messages the page shows, by cause (their wording is presentation). */
  datatype Notice =
    | EnterWord                                  // 'Please enter a word'
    | AlreadyUsed                                // 'You already used this word'
    | AnagramDetected                            // 'Anagram detected! ...'
    | WordScored(points: int, modifiedRule: bool) // 'Valid word! +N points' or the modified-rule variant
    | ServerSaid(text: string)                   // the server's own message
    | NetworkTrouble(reason: string)             // 'Network error: ...'
    | StartFailure(text: string)                 // 'Failed to start game: ...'
    | NoWordForHints                             // 'No word to get hints for'
    | HintsUnavailable                           // 'Error fetching hints. Please try again.'

  /** One line of the history list: the word, its points, the modified-rule mark. */
  datatype Entry = Entry(word: string, points: int, modifiedRule: bool)

  function TotalPoints(history: seq<Entry>): int {
    if history == [] then 0 else history[0].points + TotalPoints(history[1..])
  }

  /** The two ways to submit the typed word: the submit button, and the
      Enter key in the input box. A disabled control fires no event. */
  datatype Control = SubmitButton | EnterKey

  // ---------------------------------------------------------------------------
  // The page as a value

  /** Everything the page keeps, as one value: the fields of `Session`. */
  datatype Page = Page(
    currentWord: string, score: int, usedWords: seq<string>,
    input: string, fromHint: bool,
    hintsVisible: bool, originalHints: seq<string>, modifiedHints: seq<string>,
    gameOverShown: bool, inputEnabled: bool, submitEnabled: bool, hintEnabled: bool,
    message: Option<Notice>, history: seq<Entry>)

  /** The score is the sum of the points in the history list. */
  predicate Consistent(p: Page) {
    p.score == TotalPoints(p.history)
  }

  /** The game-over overlay is shown and every control is disabled. */
  predicate Locked(p: Page) {
    p.gameOverShown && !p.inputEnabled && !p.submitEnabled && !p.hintEnabled
  }

  /** `showGameOver`: locks the page only with a current word and a non-zero score. */
  function GameOverShown(p: Page): Page {
    if p.currentWord == [] || p.score == 0 then p
    else p.(gameOverShown := true, inputEnabled := false, submitEnabled := false, hintEnabled := false)
  }

  /** Typing into the input box; a disabled box takes no typing. */
  function Typed(p: Page, text: string): Page {
    if p.inputEnabled then p.(input := text) else p
  }

  /** The request `submitWord` sends: none for a blank or already used word. */
  function SubmitRequest(p: Page): Option<WordSubmission> {
    var w := Normalise(p.input);
    if w == [] || w in p.usedWords then None else Some(WordSubmission(p.currentWord, w, p.usedWords, p.fromHint))
  }

  /** `submitWord` up to the request. A blank or used word is refused on the
      spot with its message. Otherwise the from-hint flag is consumed, an
      anagram of the current word is announced and the hint box closes. */
  function Prepared(p: Page): Page {
    var w := Normalise(p.input);
    if w == [] then p.(message := Some(EnterWord))
    else if w in p.usedWords then p.(message := Some(AlreadyUsed))
    else p.(fromHint := false, hintsVisible := false,
            message := if IsAnagram(p.currentWord, w) then Some(AnagramDetected) else p.message)
  }

  /** The success branch of `submitWord` before any game-over signal: the
      replaced word is used, the new word is current, and the points are
      scored and logged. */
  function WordTaken(p: Page, newWord: string, points: int, modifiedRule: bool): Page {
    p.(usedWords := p.usedWords + [p.currentWord], currentWord := newWord, score := p.score + points,
       history := [Entry(newWord, points, modifiedRule)] + p.history,
       input := [], message := Some(WordScored(points, modifiedRule)))
  }

  /** The success branch of `submitWord`. */
  function Accepted(p: Page, newWord: string, points: int, modifiedRule: bool, gameOver: bool): Page {
    var q := WordTaken(p, newWord, points, modifiedRule);
    if gameOver then GameOverShown(q) else q
  }

  /** `submitWord` taking in the server's answer, or a network error. */
  function AfterSubmitReply(p: Page, newWord: string, reply: Reply<SubmitReply>): Page {
    match reply
    case Delivered(Scored(points, modifiedRule, gameOver)) => Accepted(p, newWord, points, modifiedRule, gameOver)
    case Delivered(Refused(text)) => p.(input := [], message := Some(ServerSaid(text)))
    case NetworkError(reason) => p.(input := [], message := Some(NetworkTrouble(reason)))
  }

  /** `getHints` up to the request. */
  function HintsRequested(p: Page): Page {
    if p.currentWord == [] then p.(message := Some(NoWordForHints)) else p.(hintEnabled := false)
  }

  /** A click on the hint button. */
  function HintClick(p: Page): Page {
    if !p.hintEnabled then p
    else if p.hintsVisible then p.(hintsVisible := false)
    else HintsRequested(p)
  }

  /** `getHints` taking in the server's answer, or a network error. */
  function AfterHintReply(p: Page, reply: Reply<HintReply>): Page {
    match reply
    case Delivered(Hints(original, modified, gameOver)) =>
      var q := p.(hintEnabled := true, originalHints := original, modifiedHints := modified, hintsVisible := true);
      if gameOver then GameOverShown(q) else q
    case Delivered(NoHints(text)) => p.(hintEnabled := true, message := Some(ServerSaid(text)))
    case NetworkError(_) => p.(hintEnabled := true, message := Some(HintsUnavailable))
  }

  /** A click on a shown hint, before the submission it triggers. */
  function HintPicked(p: Page, hint: string): Page {
    p.(input := hint, fromHint := true, hintsVisible := false)
  }

  /** The lock flags and the overlay of two pages agree. */
  predicate SameControls(p: Page, q: Page) {
    && q.gameOverShown == p.gameOverShown && q.inputEnabled == p.inputEnabled
    && q.submitEnabled == p.submitEnabled && q.hintEnabled == p.hintEnabled
  }

  /** The game state of two pages agrees: current word, score, used words, history. */
  predicate SameGame(p: Page, q: Page) {
    q.currentWord == p.currentWord && q.score == p.score && q.usedWords == p.usedWords && q.history == p.history
  }

  /** The hint box of two pages agrees: shown or not, and its two lists. */
  predicate SameHintBox(p: Page, q: Page) {
    q.hintsVisible == p.hintsVisible && q.originalHints == p.originalHints && q.modifiedHints == p.modifiedHints
  }

  /** `submitWord` up to the request. A blank or used word is refused on the
      spot with its message and nothing else changes. Otherwise the request
      carries the current word, the normalised word, the used words and the
      from-hint flag; the flag is consumed, the hint box closes, an anagram is
      announced, and nothing else changes. */
  lemma PreparedEffects(p: Page)
    ensures var q, w := Prepared(p), Normalise(p.input);
      && (SubmitRequest(p).None? <==> w == [] || w in p.usedWords)
      && (w == [] ==> q == p.(message := Some(EnterWord)))
      && (w != [] && w in p.usedWords ==> q == p.(message := Some(AlreadyUsed)))
      && (SubmitRequest(p).Some? ==>
            && SubmitRequest(p).value == WordSubmission(p.currentWord, w, p.usedWords, p.fromHint)
            && q == p.(fromHint := false, hintsVisible := false,
                       message := if IsAnagram(p.currentWord, w) then Some(AnagramDetected) else p.message))
  {
  }

  /** An accepted word: the replaced word joins the used words, the new word
      becomes current, the points are added to the score and logged at the
      head of the history, the input is cleared and the success shown; the
      score stays the history's total. The page locks exactly when a game-over
      signal meets a current word and a non-zero score; otherwise the controls
      are as they were. The from-hint flag and the hint box are untouched. */
  lemma AcceptedEffects(p: Page, newWord: string, points: int, modifiedRule: bool, gameOver: bool)
    ensures var q := Accepted(p, newWord, points, modifiedRule, gameOver);
      && q.usedWords == p.usedWords + [p.currentWord] && q.currentWord == newWord
      && q.score == p.score + points && q.history == [Entry(newWord, points, modifiedRule)] + p.history
      && q.input == [] && q.message == Some(WordScored(points, modifiedRule))
      && (Consistent(p) ==> Consistent(q))
      && (if gameOver && newWord != [] && p.score + points != 0 then Locked(q) else SameControls(p, q))
      && q.fromHint == p.fromHint && SameHintBox(p, q)
  {
  }

  /** Whatever the server answers, the input is cleared, the from-hint flag
      and the hint box stay as they are, and the score stays the history's
      total. A refusal or a network error changes only the input and the
      message: game state and controls stay, so the page stays usable. */
  lemma SubmitReplyEffects(p: Page, newWord: string, reply: Reply<SubmitReply>)
    ensures var q := AfterSubmitReply(p, newWord, reply);
      && q.input == [] && q.fromHint == p.fromHint && SameHintBox(p, q)
      && (Consistent(p) ==> Consistent(q))
      && (!(reply.Delivered? && reply.body.Scored?) ==>
            && SameGame(p, q) && SameControls(p, q)
            && q.message == Some(if reply.Delivered? then ServerSaid(reply.body.message) else NetworkTrouble(reply.reason)))
  {
    if reply.Delivered? && reply.body.Scored? {
      AcceptedEffects(p, newWord, reply.body.points, reply.body.modifiedRule, reply.body.gameOver);
    }
  }

  /** An accepted word worth some points, on a page whose score is not
      negative, locks the page exactly when the server signals game over. */
  lemma GameOverLocks(p: Page, newWord: string, points: int, modifiedRule: bool, gameOver: bool)
    requires p.score >= 0 && points > 0 && newWord != []
    ensures var q := Accepted(p, newWord, points, modifiedRule, gameOver);
      (gameOver ==> Locked(q)) && (!gameOver ==> SameControls(p, q))
  {
    AcceptedEffects(p, newWord, points, modifiedRule, gameOver);
  }

  /** Whether the submit button or the Enter key fires on the page. */
  predicate Enabled(p: Page, via: Control) {
    match via
    case SubmitButton => p.submitEnabled
    case EnterKey => p.inputEnabled
  }

  /** Preparing a submission keeps the score and the controls. */
  lemma PreparedKeepsScoreAndControls(p: Page)
    ensures Prepared(p).score == p.score && SameControls(p, Prepared(p))
  {
    PreparedEffects(p);
  }

  /** The server's answer to a sent word, which earns some points when
      accepted, never lowers a non-negative score, and leaves a control firing
      exactly as before unless an accepted word ended the game. */
  lemma ReplyOutcome(p: Page, newWord: string, reply: SubmitReply, via: Control)
    requires p.score >= 0 && newWord != [] && (reply.Scored? ==> reply.points > 0)
    ensures var q := AfterSubmitReply(p, newWord, Delivered(reply));
      && q.score >= p.score
      && (Enabled(q, via) <==> Enabled(p, via) && !(reply.Scored? && reply.gameOver))
  {
    SubmitReplyEffects(p, newWord, Delivered(reply));
    if reply.Scored? {
      GameOverLocks(p, newWord, reply.points, reply.modifiedRule, reply.gameOver);
    }
  }

  /** A whole `submitWord`, refused on the spot or answered by the server
      with at least some points for an accepted word, never lowers a
      non-negative score, and leaves a control firing exactly as before
      unless an accepted word ended the game. */
  lemma SubmitOutcome(p: Page, reply: Option<SubmitReply>, via: Control)
    requires p.score >= 0
    requires reply.Some? ==> SubmitRequest(p).Some? && (reply.value.Scored? ==> reply.value.points > 0)
    ensures var q := if reply.None? then Prepared(p)
                     else AfterSubmitReply(Prepared(p), SubmitRequest(p).value.newWord, Delivered(reply.value));
      && q.score >= p.score
      && (Enabled(q, via) <==> Enabled(p, via) && !(reply.Some? && reply.value.Scored? && reply.value.gameOver))
  {
    PreparedKeepsScoreAndControls(p);
    if reply.Some? {
      ReplyOutcome(Prepared(p), SubmitRequest(p).value.newWord, reply.value, via);
    }
  }

  /** A picked hint submitted at once: the request carries the normalised
      hint with the from-hint flag raised, unless the hint is blank or already
      used. Either way the hint box ends closed, and a hint refused on the
      spot leaves the flag raised for the next word. */
  lemma PickedHintOutcome(p: Page, hint: string, reply: Option<SubmitReply>)
    requires reply.None? <==> SubmitRequest(HintPicked(p, hint)).None?
    ensures var picked, w := HintPicked(p, hint), Normalise(hint);
      && (SubmitRequest(picked).None? <==> w == [] || w in p.usedWords)
      && (SubmitRequest(picked).Some? ==> SubmitRequest(picked).value == WordSubmission(p.currentWord, w, p.usedWords, true))
      && var q := if reply.None? then Prepared(picked) else AfterSubmitReply(Prepared(picked), w, Delivered(reply.value));
         !q.hintsVisible && (reply.None? ==> q.fromHint)
  {
    var picked := HintPicked(p, hint);
    PreparedEffects(picked);
    if reply.Some? {
      SubmitReplyEffects(Prepared(picked), Normalise(hint), Delivered(reply.value));
    }
  }

  /** The current word typed back in and accepted: it is sent as itself, and
      afterwards it is still the current word, it is also the last used word,
      and the score has grown by the points. */
  lemma ResubmitOutcome(p: Page, points: int, modifiedRule: bool, gameOver: bool)
    requires p.inputEnabled && p.currentWord != [] && Normalise(p.currentWord) == p.currentWord
    requires p.currentWord !in p.usedWords
    ensures var typed := Typed(p, p.currentWord);
      && SubmitRequest(typed) == Some(WordSubmission(p.currentWord, p.currentWord, p.usedWords, p.fromHint))
      && var q := AfterSubmitReply(Prepared(typed), p.currentWord, Delivered(Scored(points, modifiedRule, gameOver)));
         q.currentWord == p.currentWord && q.usedWords == p.usedWords + [p.currentWord] && q.score == p.score + points
  {
    var typed := Typed(p, p.currentWord);
    PreparedEffects(typed);
    AcceptedEffects(Prepared(typed), p.currentWord, points, modifiedRule, gameOver);
  }

  /** The hint button. A disabled button changes nothing. An enabled one
      leaves the hint box closed; it closes an open box, refuses without a
      current word, and otherwise disables itself while the request is out.
      The game state, the input and the from-hint flag never change. */
  lemma HintClickEffects(p: Page)
    ensures var q := HintClick(p);
      && (!p.hintEnabled ==> q == p)
      && (p.hintEnabled ==> !q.hintsVisible)
      && (p.hintEnabled && p.hintsVisible ==> q == p.(hintsVisible := false))
      && (p.hintEnabled && !p.hintsVisible && p.currentWord == [] ==> q == p.(message := Some(NoWordForHints)))
      && (p.hintEnabled && !p.hintsVisible && p.currentWord != [] ==> q == p.(hintEnabled := false))
      && SameGame(p, q) && q.input == p.input && q.fromHint == p.fromHint
  {
  }

  /** `getHints` after the request. The game state, the input and the
      from-hint flag never change. Delivered hints are shown exactly as
      received; the hint button is enabled again unless a game-over signal
      locks the page, which happens exactly with a current word and a non-zero
      score. A failure keeps the hint box and the lock flags, re-enables the
      button and shows the reason. */
  lemma HintReplyEffects(p: Page, reply: Reply<HintReply>)
    ensures var q := AfterHintReply(p, reply);
      && SameGame(p, q) && q.input == p.input && q.fromHint == p.fromHint
      && (reply.Delivered? && reply.body.Hints? ==>
            && q.hintsVisible && q.originalHints == reply.body.originalRuleHints
            && q.modifiedHints == reply.body.modifiedRuleHints && q.message == p.message
            && (if reply.body.gameOver && p.currentWord != [] && p.score != 0 then Locked(q)
                else q.hintEnabled && q.gameOverShown == p.gameOverShown
                     && q.inputEnabled == p.inputEnabled && q.submitEnabled == p.submitEnabled))
      && (!(reply.Delivered? && reply.body.Hints?) ==>
            && SameHintBox(p, q) && q.hintEnabled && q.gameOverShown == p.gameOverShown
            && q.inputEnabled == p.inputEnabled && q.submitEnabled == p.submitEnabled
            && q.message == Some(if reply.Delivered? then ServerSaid(reply.body.message) else HintsUnavailable))
  {
  }

  // ---------------------------------------------------------------------------
  // The session

  class Session {
    var currentWord: string
    var score: int
    var usedWords: seq<string>
    /** `wordInput.value`. */
    var input: string
    /** `wordInput.dataset.fromHint === "true"`. */
    var fromHint: bool
    /** The hint box is shown, with these two lists. */
    var hintsVisible: bool
    var originalHints: seq<string>
    var modifiedHints: seq<string>
    var gameOverShown: bool
    var inputEnabled: bool
    var submitEnabled: bool
    var hintEnabled: bool
    /** The message line: one slot, a new message replaces the old one. */
    var message: Option<Notice>
    /** The history list, newest entry first. */
    var history: seq<Entry>

    /** The score is always the sum of the points in the history list. */
    ghost predicate Valid()
      reads this
    {
      Consistent(Snapshot())
    }

    /** The fields as one value. */
    function Snapshot(): Page
      reads this
    {
      Page(currentWord, score, usedWords, input, fromHint, hintsVisible, originalHints, modifiedHints,
           gameOverShown, inputEnabled, submitEnabled, hintEnabled, message, history)
    }

    /** The control fires its event: it is not disabled. */
    predicate Fires(via: Control)
      reads this
    {
      Enabled(Snapshot(), via)
    }

    /** Page load: the initial values, then `initGame`. */
    constructor (start: Reply<StartReply>)
      ensures Valid()
      ensures score == 0 && usedWords == [] && input == [] && !fromHint
      ensures !hintsVisible && !gameOverShown && inputEnabled && submitEnabled && hintEnabled
      ensures start.Delivered? && start.body.Started? ==>
        currentWord == start.body.word && history == [Entry(start.body.word, 0, false)] && message == None
      ensures !(start.Delivered? && start.body.Started?) ==>
        && currentWord == [] && history == []
        && message == Some(if start.Delivered? then StartFailure(start.body.message) else NetworkTrouble(start.reason))
    {
      currentWord, score, usedWords := [], 0, [];
      input, fromHint := [], false;
      hintsVisible, originalHints, modifiedHints := false, [], [];
      gameOverShown, inputEnabled, submitEnabled, hintEnabled := false, true, true, true;
      message, history := None, [];
      new;
      InitGame(start);
    }

    /** `initGame`: hides the overlay, enables the controls, and on a start
        word makes it the current word and the only history entry. It never
        touches `score` or `usedWords`; its two callers (page load and
        `resetGame`) run it at score 0. */
    method InitGame(start: Reply<StartReply>)
      requires Valid() && score == 0
      modifies this`currentWord, this`history, this`message, this`gameOverShown,
        this`inputEnabled, this`submitEnabled, this`hintEnabled
      ensures Valid()
      ensures !gameOverShown && inputEnabled && submitEnabled && hintEnabled
      ensures start.Delivered? && start.body.Started? ==>
        currentWord == start.body.word && history == [Entry(start.body.word, 0, false)] && message == None
      ensures start.Delivered? && start.body.StartFailed? ==>
        currentWord == old(currentWord) && history == old(history)
        && message == Some(StartFailure(start.body.message))
      ensures start.NetworkError? ==>
        currentWord == old(currentWord) && history == old(history)
        && message == Some(NetworkTrouble(start.reason))
    {
      gameOverShown := false;
      inputEnabled, submitEnabled, hintEnabled := true, true, true;
      match start
      case Delivered(Started(word)) =>
        currentWord := word;
        history := [Entry(word, 0, false)];
        message := None;
      case Delivered(StartFailed(text)) =>
        message := Some(StartFailure(text));
      case NetworkError(reason) =>
        message := Some(NetworkTrouble(reason));
    }

    /** The user types into the input box; a disabled box takes no typing. */
    method TypeWord(text: string)
      modifies this`input
      ensures input == (if inputEnabled then text else old(input))
      ensures Snapshot() == Typed(old(Snapshot()), text)
    {
      if inputEnabled {
        input := text;
      }
    }

    /** `submitWord` up to the request: normalises the input, rejects an empty
        or already used word on the spot, otherwise consumes the from-hint
        flag, announces an anagram, closes the hint box and builds the request. */
    method PrepareSubmission() returns (request: Option<WordSubmission>)
      modifies this`fromHint, this`hintsVisible, this`message
      ensures request == SubmitRequest(old(Snapshot()))
      ensures Snapshot() == Prepared(old(Snapshot()))
    {
      var w := Normalise(input);
      if w == [] {
        message := Some(EnterWord);
        request := None;
      } else if w in usedWords {
        message := Some(AlreadyUsed);
        request := None;
      } else {
        var anagram := IsAnagram(currentWord, w);
        request := Some(WordSubmission(currentWord, w, usedWords, fromHint));
        fromHint, hintsVisible := false, false;
        if anagram {
          message := Some(AnagramDetected);
        }
        assert Snapshot() == old(Snapshot()).(fromHint := false, hintsVisible := false, message := message);
      }
    }

    /** `submitWord` after the request: an accepted word is taken over by
        `AcceptWord`; on a refusal or a network error the game state stays as
        it was and the reason is shown. The input box is cleared either way. */
    method ReceiveSubmitReply(newWord: string, reply: Reply<SubmitReply>)
      requires Valid()
      modifies this`usedWords, this`currentWord, this`score, this`history, this`input, this`message,
        this`gameOverShown, this`inputEnabled, this`submitEnabled, this`hintEnabled
      ensures Valid()
      ensures Snapshot() == AfterSubmitReply(old(Snapshot()), newWord, reply)
    {
      match reply
      case Delivered(Scored(points, modifiedRule, gameOver)) =>
        AcceptWord(newWord, points, modifiedRule, gameOver);
      case Delivered(Refused(text)) =>
        message := Some(ServerSaid(text));
        input := [];
      case NetworkError(reason) =>
        message := Some(NetworkTrouble(reason));
        input := [];
    }

    /** The success branch of `submitWord`: the replaced word joins the used
        words, the new word becomes current, the points are added and logged,
        and a game-over signal is passed on to `showGameOver`. */
    method AcceptWord(newWord: string, points: int, modifiedRule: bool, gameOver: bool)
      requires Valid()
      modifies this`usedWords, this`currentWord, this`score, this`history, this`input, this`message,
        this`gameOverShown, this`inputEnabled, this`submitEnabled, this`hintEnabled
      ensures Valid()
      ensures Snapshot() == Accepted(old(Snapshot()), newWord, points, modifiedRule, gameOver)
    {
      usedWords, currentWord, score := usedWords + [currentWord], newWord, score + points;
      history := [Entry(newWord, points, modifiedRule)] + history;
      input, message := [], Some(WordScored(points, modifiedRule));
      assert Snapshot() == WordTaken(old(Snapshot()), newWord, points, modifiedRule);
      if gameOver {
        ShowGameOver();
      }
    }

    /** `showGameOver`: only with a current word and a non-zero score does it
        show the overlay and disable the input, submit and hint controls;
        otherwise nothing changes. */
    method ShowGameOver()
      modifies this`gameOverShown, this`inputEnabled, this`submitEnabled, this`hintEnabled
      ensures Snapshot() == GameOverShown(old(Snapshot()))
      ensures currentWord != [] && score != 0 ==> Locked(Snapshot())
      ensures currentWord == [] || score == 0 ==>
        gameOverShown == old(gameOverShown) && inputEnabled == old(inputEnabled)
        && submitEnabled == old(submitEnabled) && hintEnabled == old(hintEnabled)
    {
      if currentWord == [] || score == 0 {
        return;
      }
      gameOverShown := true;
      inputEnabled, submitEnabled, hintEnabled := false, false, false;
    }

    /** The hint button: a disabled button fires nothing; otherwise it hides
        an open hint box, or asks for hints. */
    method HintButtonClicked() returns (request: Option<HintRequest>)
      modifies this`hintsVisible, this`hintEnabled, this`message
      ensures Snapshot() == HintClick(old(Snapshot()))
      ensures !old(hintEnabled) ==>
        request == None && hintsVisible == old(hintsVisible) && !hintEnabled && message == old(message)
      ensures old(hintEnabled) && old(hintsVisible) ==>
        request == None && !hintsVisible && hintEnabled && message == old(message)
      ensures old(hintEnabled) ==> !hintsVisible
      ensures old(hintEnabled) && !old(hintsVisible) && currentWord == [] ==>
        request == None && hintEnabled && message == Some(NoWordForHints)
      ensures old(hintEnabled) && !old(hintsVisible) && currentWord != [] ==>
        request == Some(HintRequest(currentWord, usedWords)) && !hintEnabled && message == old(message)
    {
      if !hintEnabled {
        return None;
      }
      if hintsVisible {
        hintsVisible := false;
        return None;
      }
      request := RequestHints();
    }

    /** `getHints` up to the request: refuses without a current word,
        otherwise disables the hint button while the request is out. */
    method RequestHints() returns (request: Option<HintRequest>)
      modifies this`hintEnabled, this`message
      ensures Snapshot() == HintsRequested(old(Snapshot()))
      ensures currentWord == [] ==>
        request == None && hintEnabled == old(hintEnabled) && message == Some(NoWordForHints)
      ensures currentWord != [] ==>
        request == Some(HintRequest(currentWord, usedWords)) && !hintEnabled && message == old(message)
    {
      if currentWord == [] {
        message := Some(NoWordForHints);
        return None;
      }
      hintEnabled := false;
      request := Some(HintRequest(currentWord, usedWords));
    }

    /** `getHints` after the request: re-enables the hint button, then shows
        the hints (and honours a game-over signal) or reports the failure.
        The game state never changes. */
    method ReceiveHints(reply: Reply<HintReply>)
      modifies this`hintsVisible, this`originalHints, this`modifiedHints, this`message,
        this`gameOverShown, this`inputEnabled, this`submitEnabled, this`hintEnabled
      ensures Snapshot() == AfterHintReply(old(Snapshot()), reply)
    {
      hintEnabled := true;
      match reply
      case Delivered(Hints(original, modified, gameOver)) =>
        originalHints, modifiedHints := original, modified;
        hintsVisible := true;
        if gameOver {
          ShowGameOver();
        }
      case Delivered(NoHints(text)) =>
        message := Some(ServerSaid(text));
      case NetworkError(_) =>
        message := Some(HintsUnavailable);
    }

    /** The first half of a click on a shown hint: puts it in the input box,
        raises the from-hint flag and closes the hint box. The click goes on
        to submit the word at once, which `Game.PickHintTurn` follows. */
    method PickHint(hint: string)
      requires hintsVisible && (hint in originalHints || hint in modifiedHints)
      modifies this`input, this`fromHint, this`hintsVisible
      ensures input == hint && fromHint && !hintsVisible
      ensures Snapshot() == HintPicked(old(Snapshot()), hint)
    {
      input := hint;
      fromHint := true;
      hintsVisible := false;
    }

    /** `resetGame`: score 0, no used words, no current word, empty input,
        messages and history cleared, hint box and overlay hidden, controls
        enabled; then `initGame`. The from-hint flag is left as it was. */
    method ResetGame(start: Reply<StartReply>)
      modifies this`score, this`usedWords, this`currentWord, this`input, this`message, this`history,
        this`hintsVisible, this`gameOverShown, this`inputEnabled, this`submitEnabled, this`hintEnabled
      ensures Valid()
      ensures score == 0 && usedWords == [] && input == []
      ensures !hintsVisible && !gameOverShown && inputEnabled && submitEnabled && hintEnabled
      ensures start.Delivered? && start.body.Started? ==>
        currentWord == start.body.word && history == [Entry(start.body.word, 0, false)] && message == None
      ensures !(start.Delivered? && start.body.Started?) ==>
        && currentWord == [] && history == []
        && message == Some(if start.Delivered? then StartFailure(start.body.message) else NetworkTrouble(start.reason))
    {
      score, usedWords, currentWord, input, message, history := 0, [], [], [], None, [];
      hintsVisible, gameOverShown := false, false;
      inputEnabled, submitEnabled, hintEnabled := true, true, true;
      assert TotalPoints(history) == 0;
      InitGame(start);
    }
  }
}
