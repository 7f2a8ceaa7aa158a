/** The browser session and the server together: a submission or a hint
    request from the click to the updated page, with the network delivering
    the server's answer. */
module Game {
  import opened Wrappers
  import opened Protocol
  import opened Text
  import opened Client
  import opened Server

  /** `submitWord` end to end. The page first prepares the word: a word it
      rejects on the spot never reaches the server, and the page is then
      exactly the prepared page. Otherwise the server's verdict is the one its
      rules give for the request, an accepted word earns at least 5 points,
      and the page is the prepared page after taking in that verdict
      (`Client.PreparedEffects` and `Client.SubmitReplyEffects` say what those
      pages are). */
  method SubmitTurn(session: Session, server: GameServer, api: ApiAnswer) returns (reply: Option<SubmitReply>)
    requires session.Valid() && server.Valid()
    modifies session, server
    ensures session.Valid() && server.Valid()
    ensures reply.None? <==> SubmitRequest(old(session.Snapshot())).None?
    ensures reply.None? ==>
      && session.Snapshot() == Prepared(old(session.Snapshot()))
      && server.verified == old(server.verified) && server.nonexistent == old(server.nonexistent)
    ensures reply.Some? ==>
      var req := SubmitRequest(old(session.Snapshot())).value;
      && reply.value == SubmitReplyFor(server.wordList, req, old(server.Accepts(Lower(req.newWord), api)))
      && (reply.value.Scored? ==> reply.value.points >= 5)
      && session.Snapshot() == AfterSubmitReply(Prepared(old(session.Snapshot())), req.newWord, Delivered(reply.value))
      && server.CachesRecorded(old(server.verified), old(server.nonexistent), Lower(req.newWord), reply.value, api)
  {
    var request := session.PrepareSubmission();
    if request.None? {
      return None;
    }
    var answer := ServeSubmission(session, server, request.value, api);
    reply := Some(answer);
  }

  /** The submit button or the Enter key: a disabled control fires nothing, so
      the page and the server stay as they were; an enabled one runs
      `submitWord`. The score never drops, and the control still fires
      afterwards unless the server accepted the word and ended the game, which
      locks the page. */
  method PressSubmit(session: Session, server: GameServer, api: ApiAnswer, via: Control)
    returns (reply: Option<SubmitReply>)
    requires session.Valid() && server.Valid() && session.score >= 0
    modifies session, server
    ensures session.Valid() && server.Valid()
    ensures session.score >= old(session.score)
    ensures session.Fires(via) <==> old(session.Fires(via)) && !(reply.Some? && reply.value.Scored? && reply.value.gameOver)
    ensures !old(session.Fires(via)) ==> reply.None? && unchanged(session) && unchanged(server)
    ensures old(session.Fires(via)) ==>
      && (reply.None? <==> SubmitRequest(old(session.Snapshot())).None?)
      && (reply.None? ==> session.Snapshot() == Prepared(old(session.Snapshot())))
      && (reply.None? ==> server.verified == old(server.verified) && server.nonexistent == old(server.nonexistent))
    ensures reply.Some? ==>
      var req := SubmitRequest(old(session.Snapshot())).value;
      && reply.value == SubmitReplyFor(server.wordList, req, old(server.Accepts(Lower(req.newWord), api)))
      && session.Snapshot() == AfterSubmitReply(Prepared(old(session.Snapshot())), req.newWord, Delivered(reply.value))
      && server.CachesRecorded(old(server.verified), old(server.nonexistent), Lower(req.newWord), reply.value, api)
  {
    if !session.Fires(via) {
      return None;
    }
    ghost var before := session.Snapshot();
    reply := SubmitTurn(session, server, api);
    SubmitOutcome(before, reply, via);
  }

  /** Once `showGameOver` has locked the page, neither a submission by button
      or key nor the hint button changes anything, on the page or the server. */
  method LockedPageIgnoresControls(session: Session, server: GameServer, api: ApiAnswer, via: Control)
    returns (submitted: Option<SubmitReply>, hinted: Option<HintRequest>)
    requires session.Valid() && server.Valid() && session.score >= 0
    requires Locked(session.Snapshot())
    modifies session, server
    ensures submitted.None? && hinted.None?
    ensures unchanged(session) && unchanged(server)
  {
    submitted := PressSubmit(session, server, api, via);
    hinted := session.HintButtonClicked();
  }

  /** A click on a shown hint: the hint goes into the input box with the
      from-hint flag raised and the hint box closed, and is submitted at once,
      whatever the state of the submit controls; the page afterwards is that
      of `submitWord` from there. A hint the page refuses on the spot leaves
      the flag raised for the next word; a hint the server accepts earns half
      its rule's points, rounded down. */
  method PickHintTurn(session: Session, server: GameServer, hint: string, api: ApiAnswer)
    returns (reply: Option<SubmitReply>)
    requires session.Valid() && server.Valid()
    requires session.hintsVisible && (hint in session.originalHints || hint in session.modifiedHints)
    modifies session, server
    ensures session.Valid() && server.Valid() && !session.hintsVisible
    ensures reply.None? <==> Normalise(hint) == [] || Normalise(hint) in old(session.usedWords)
    ensures reply.None? ==> session.Snapshot() == Prepared(HintPicked(old(session.Snapshot()), hint)) && session.fromHint
    ensures reply.None? ==> server.verified == old(server.verified) && server.nonexistent == old(server.nonexistent)
    ensures reply.Some? ==>
      var req := WordSubmission(old(session.currentWord), Normalise(hint), old(session.usedWords), true);
      && reply.value == SubmitReplyFor(server.wordList, req, old(server.Accepts(Lower(Normalise(hint)), api)))
      && session.Snapshot()
         == AfterSubmitReply(Prepared(HintPicked(old(session.Snapshot()), hint)), Normalise(hint), Delivered(reply.value))
      && server.CachesRecorded(old(server.verified), old(server.nonexistent), Lower(Normalise(hint)), reply.value, api)
    ensures reply.Some? && reply.value.Scored? ==>
      var newWord, current := Lower(Normalise(hint)), Lower(old(session.currentWord));
      && RuleOf(newWord, current).Some?
      && reply.value.points == |newWord| * PerLetter(RuleOf(newWord, current).value) / 2
  {
    ghost var before := session.Snapshot();
    session.PickHint(hint);
    reply := SubmitTurn(session, server, api);
    PickedHintOutcome(before, hint, reply);
    if reply.Some? {
      HintedPoints(server.wordList, WordSubmission(old(session.currentWord), Normalise(hint), old(session.usedWords), true),
        old(server.Accepts(Lower(Normalise(hint)), api)));
    }
  }

  /** The server's half of a submission and the page taking in its verdict. */
  method ServeSubmission(session: Session, server: GameServer, req: WordSubmission, api: ApiAnswer)
    returns (answer: SubmitReply)
    requires session.Valid() && server.Valid()
    modifies session, server
    ensures session.Valid() && server.Valid()
    ensures answer == SubmitReplyFor(server.wordList, req, old(server.Accepts(Lower(req.newWord), api)))
    ensures answer.Scored? ==> answer.points >= 5
    ensures session.Snapshot() == AfterSubmitReply(old(session.Snapshot()), req.newWord, Delivered(answer))
    ensures server.CachesRecorded(old(server.verified), old(server.nonexistent), Lower(req.newWord), answer, api)
  {
    answer := server.SubmitWord(req, api);
    session.ReceiveSubmitReply(req.newWord, Delivered(answer));
  }

  /** The hint button end to end. A disabled button does nothing. An open hint
      box is closed; otherwise, with a current word, the server's hints are
      shown; the page is exactly the clicked page, or the clicked page after
      taking in the server's answer (`Client.HintClickEffects` and
      `Client.HintReplyEffects` say what those pages are). The game state
      never changes, and every hint shown is an unused dictionary word, other
      than the current word, that passes the rule of its list. */
  method HintTurn(session: Session, server: GameServer) returns (reply: Option<HintReply>)
    modifies session
    ensures session.currentWord == old(session.currentWord) && session.score == old(session.score)
    ensures session.usedWords == old(session.usedWords) && session.history == old(session.history)
    ensures session.input == old(session.input) && session.fromHint == old(session.fromHint)
    ensures reply.None? <==> !old(session.hintEnabled) || old(session.hintsVisible) || old(session.currentWord) == []
    ensures reply.None? ==> session.Snapshot() == HintClick(old(session.Snapshot()))
    ensures reply.Some? ==>
      && reply.value == GetHint(server.wordList, HintRequest(old(session.currentWord), old(session.usedWords)))
      && session.Snapshot() == AfterHintReply(HintClick(old(session.Snapshot())), Delivered(reply.value))
    ensures old(session.hintEnabled) && session.hintsVisible ==>
      SoundHints(server.wordList, Lower(old(session.currentWord)), old(session.usedWords),
                 session.originalHints, session.modifiedHints)
    ensures reply.Some? && reply.value.Hints? && reply.value.gameOver && old(session.score) != 0 ==>
      Locked(session.Snapshot())
  {
    var request := session.HintButtonClicked();
    if request.None? {
      return None;
    }
    var answer := ShowServerHints(session, server.wordList, request.value);
    reply := Some(answer);
  }

  /** The server's half of a hint request and the page showing its answer. */
  method ShowServerHints(session: Session, words: seq<string>, asked: HintRequest) returns (answer: HintReply)
    requires asked == HintRequest(session.currentWord, session.usedWords) && asked.currentWord != []
    modifies session`hintsVisible, session`originalHints, session`modifiedHints, session`message,
      session`gameOverShown, session`inputEnabled, session`submitEnabled, session`hintEnabled
    ensures answer == GetHint(words, asked)
    ensures session.Snapshot() == AfterHintReply(old(session.Snapshot()), Delivered(answer))
    ensures session.hintsVisible
    ensures SoundHints(words, Lower(asked.currentWord), asked.usedWords, session.originalHints, session.modifiedHints)
    ensures answer.gameOver && session.score != 0 ==>
      Locked(session.Snapshot())
  {
    assert Lower(asked.currentWord) != [] by {
      assert |Lower(asked.currentWord)| == |asked.currentWord|;
    }
    HintsAreUnusedPrefixes(words, asked);
    answer := GetHint(words, asked);
    ghost var before := session.Snapshot();
    session.ReceiveHints(Delivered(answer));
    HintReplyEffects(before, Delivered(answer));
  }

  /** The current word may be submitted again: typed back in, it counts as an
      anagram of itself, scores 15 per letter, and afterwards the current word
      is also the last used word. */
  method ResubmitCurrentWord(session: Session, server: GameServer)
    requires session.Valid() && server.Valid() && session.score >= 0
    requires session.currentWord != [] && Normalise(session.currentWord) == session.currentWord
    requires session.currentWord !in session.usedWords && !session.fromHint && session.inputEnabled
    requires server.Accepts(session.currentWord, Unreachable)
    modifies session, server
    ensures session.currentWord == old(session.currentWord)
    ensures session.usedWords == old(session.usedWords) + [old(session.currentWord)]
    ensures session.score == old(session.score) + 15 * |old(session.currentWord)|
  {
    var w, used := session.currentWord, session.usedWords;
    var req := WordSubmission(w, w, used, false);
    assert Lower(w) == w;
    AnagramScore(server.wordList, req);
    var expected := SubmitReplyFor(server.wordList, req, true);
    assert expected.Scored? && expected.points == 15 * |w|;
    ResubmitOutcome(session.Snapshot(), expected.points, expected.modifiedRule, expected.gameOver);
    session.TypeWord(w);
    var reply := SubmitTurn(session, server, Unreachable);
  }

  /** A fresh game whose start word is submitted again at once: the start
      word becomes the only used word while staying the current word. */
  method ResubmitStartWord(words: seq<string>, w: string) returns (used: seq<string>, current: string, score: int)
    requires w in words && Normalise(w) == w && MinWordLength <= |w| <= MaxWordLength
    ensures used == [w] && current == w && score == 15 * |w|
  {
    var session := new Session(Delivered(Started(w)));
    var server := new GameServer(words);
    ResubmitCurrentWord(session, server);
    used, current, score := session.usedWords, session.currentWord, session.score;
  }
}
