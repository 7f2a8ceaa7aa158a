/** The rule engine behind the word-chaining game: word validity with its
    caches, scoring of a submitted word, candidate enumeration, hints and the
    choice of a start word. */
module Server {
  import opened Wrappers
  import opened Protocol
  import opened Text
  import opened Letters
  import Sorting

  const MinWordLength := 2
  const MaxWordLength := 15
  /** Start words are at most this long. */
  const StartLengthCap := 8
  /** Hints offered per rule. */
  const HintsPerRule := 3

  const NotAValidWord := "Not a valid word"
  const TooFewShared := "The new word must use at least 2 letters from the current word"
  const WordRequired := "Current word is required"

  function Min(a: int, b: int): int {
    if a <= b then a else b
  }

  // ---------------------------------------------------------------------------
  // Start word

  /** `max(len(word) for word in WORD_LIST)`. */
  function MaxLength(words: seq<string>): (m: nat)
    requires words != []
    ensures forall i :: 0 <= i < |words| ==> |words[i]| <= m
    ensures exists i :: 0 <= i < |words| && |words[i]| == m
  {
    if |words| == 1 then |words[0]|
    else
      var rest := MaxLength(words[1..]);
      assert forall i :: 1 <= i < |words| ==> words[i] == words[1..][i - 1];
      if |words[0]| >= rest then |words[0]| else rest
  }

  /** `[word for word in WORD_LIST if len(word) == n]`. */
  function WithLength(words: seq<string>, n: nat): (r: seq<string>)
    ensures forall w :: w in r <==> w in words && |w| == n
  {
    if words == [] then []
    else (if |words[0]| == n then [words[0]] else []) + WithLength(words[1..], n)
  }

  /** `start_game`: a word of the largest length the dictionary has, capped at
      8; when no word has that length, a word of the largest length from the
      cap minus one down to 4. `None` stands for the server error an empty
      dictionary (`max` of nothing) or an empty choice (`random.choice([])`)
      raises. The random choice is a nondeterministic pick. */
  method StartGame(words: seq<string>) returns (start: Option<string>)
    ensures words == [] ==> start == None
    ensures start.Some? ==> start.value in words
    ensures words != [] && start.Some? ==>
      var cap := Min(StartLengthCap, MaxLength(words));
      && |start.value| <= cap
      && (|start.value| == cap || |start.value| >= 4)
      && forall w :: w in words && |w| <= cap ==> |w| <= |start.value|
    ensures words != [] && start.None? ==>
      var cap := Min(StartLengthCap, MaxLength(words));
      forall w :: w in words ==> |w| != cap && !(4 <= |w| < cap)
  {
    if words == [] {
      return None;
    }
    var maxLength := Min(StartLengthCap, MaxLength(words));
    var longest := WithLength(words, maxLength);
    if longest == [] {
      var length := maxLength - 1;
      while length > 3
        invariant length < maxLength
        invariant longest == []
        invariant forall w :: w in words && length < |w| <= maxLength ==> false
      {
        longest := WithLength(words, length);
        if longest != [] {
          break;
        }
        length := length - 1;
      }
    }
    if longest == [] {
      return None;
    }
    assert longest[0] in longest;
    var w :| w in longest;
    start := Some(w);
  }

  // ---------------------------------------------------------------------------
  // Scoring of one submission

  datatype Rule = Anagram | Original | ModifiedRule

  /** Points per letter under each rule. */
  function PerLetter(rule: Rule): nat {
    match rule
    case Anagram => 15
    case Original => 10
    case ModifiedRule => 5
  }

  /** Letter count times the rule's rate, halved (rounding down) for a hinted word. */
  function Points(rule: Rule, length: nat, fromHint: bool): nat {
    var base := length * PerLetter(rule);
    if fromHint then base / 2 else base
  }

  /** The rule a new word satisfies against the current word, tried in the
      order the engine tries them; `None` when it shares fewer than 2 letters. */
  function RuleOf(newWord: string, current: string): Option<Rule> {
    if multiset(newWord) == multiset(current) then Some(Anagram)
    else if FitsIn(newWord, current) then Some(Original)
    else if Shared(newWord, current) >= 2 then Some(ModifiedRule)
    else None
  }

  /** The game-over test after an accepted word: only once words have been
      used, and then exactly when no candidate for the new word is left outside
      the used words and the word it replaced. */
  function EndsGame(words: seq<string>, newWord: string, current: string, used: seq<string>): bool {
    if used == [] then false
    else
      var checked := used + [current];
      var candidates := Candidates(words, newWord);
      Unused(candidates.0, checked) == [] && Unused(candidates.1, checked) == []
  }

  /** The reply to a submission, given the verdict of the validity gate on the
      lower-cased new word. */
  function SubmitReplyFor(words: seq<string>, req: WordSubmission, valid: bool): SubmitReply {
    var current, newWord := Lower(req.currentWord), Lower(req.newWord);
    if !valid then Refused(NotAValidWord)
    else
      match RuleOf(newWord, current)
      case None => Refused(TooFewShared)
      case Some(rule) =>
        Scored(Points(rule, |newWord|, req.fromHint), rule == ModifiedRule,
               EndsGame(words, newWord, current, req.usedWords))
  }

  /** Equal letter counts, identical words included, score 15 per letter. */
  lemma AnagramScore(words: seq<string>, req: WordSubmission)
    requires multiset(Lower(req.newWord)) == multiset(Lower(req.currentWord))
    ensures var reply := SubmitReplyFor(words, req, true);
      var n := |Lower(req.newWord)|;
      && reply.Scored? && !reply.modifiedRule
      && reply.points == (if req.fromHint then n * 15 / 2 else n * 15)
  {
  }

  /** Letters drawn from the current word, but not all of them: 10 per letter. */
  lemma OriginalRuleScore(words: seq<string>, req: WordSubmission)
    requires FitsIn(Lower(req.newWord), Lower(req.currentWord))
    requires multiset(Lower(req.newWord)) != multiset(Lower(req.currentWord))
    ensures var reply := SubmitReplyFor(words, req, true);
      var n := |Lower(req.newWord)|;
      && reply.Scored? && !reply.modifiedRule
      && reply.points == (if req.fromHint then n * 10 / 2 else n * 10)
  {
  }

  /** Otherwise two or more shared letters earn 5 per letter under the modified rule. */
  lemma ModifiedRuleScore(words: seq<string>, req: WordSubmission)
    requires !FitsIn(Lower(req.newWord), Lower(req.currentWord))
    requires Shared(Lower(req.newWord), Lower(req.currentWord)) >= 2
    ensures var reply := SubmitReplyFor(words, req, true);
      var n := |Lower(req.newWord)|;
      && reply.Scored? && reply.modifiedRule
      && reply.points == (if req.fromHint then n * 5 / 2 else n * 5)
  {
    var current, newWord := Lower(req.currentWord), Lower(req.newWord);
    ModifiedRuleOf(newWord, current);
    assert SubmitReplyFor(words, req, true)
        == Scored(Points(ModifiedRule, |newWord|, req.fromHint), true, EndsGame(words, newWord, current, req.usedWords));
    assert PerLetter(ModifiedRule) == 5;
  }

  lemma ModifiedRuleOf(newWord: string, current: string)
    requires !FitsIn(newWord, current) && Shared(newWord, current) >= 2
    ensures RuleOf(newWord, current) == Some(ModifiedRule)
  {
    if multiset(newWord) == multiset(current) {
      AnagramFits(newWord, current);
    }
  }

  /** A submission is refused exactly when the word is not valid or shares
      fewer than 2 letters without fitting in the current word. */
  lemma RefusedSubmissions(words: seq<string>, req: WordSubmission, valid: bool)
    ensures var reply := SubmitReplyFor(words, req, valid);
      var current, newWord := Lower(req.currentWord), Lower(req.newWord);
      && (reply.Refused? <==> !valid || (!FitsIn(newWord, current) && Shared(newWord, current) < 2))
      && (!valid ==> reply.message == NotAValidWord)
      && (valid && reply.Refused? ==> reply.message == TooFewShared)
  {
  }

  /** A valid word has at least 2 letters, so every accepted word earns at
      least 2 * 5 / 2 = 5 points. */
  lemma ScoredPointsPositive(words: seq<string>, req: WordSubmission)
    requires |Lower(req.newWord)| >= MinWordLength
    ensures var reply := SubmitReplyFor(words, req, true);
      reply.Scored? ==> reply.points >= 5
  {
    var current, newWord := Lower(req.currentWord), Lower(req.newWord);
    if RuleOf(newWord, current).Some? {
      var rule := RuleOf(newWord, current).value;
      assert SubmitReplyFor(words, req, true).points == Points(rule, |newWord|, req.fromHint);
      PointsAtLeastFive(rule, |newWord|, req.fromHint);
    }
  }

  /** Two letters under the cheapest rule, halved, still earn 5. */
  lemma PointsAtLeastFive(rule: Rule, length: nat, fromHint: bool)
    requires length >= MinWordLength
    ensures Points(rule, length, fromHint) >= 5
  {
    match rule
    case Anagram =>
    case Original =>
    case ModifiedRule =>
  }

  /** A word sent from a hint earns half the points of its rule, rounded down. */
  lemma HintedPoints(words: seq<string>, req: WordSubmission, valid: bool)
    requires req.fromHint
    ensures var reply := SubmitReplyFor(words, req, valid);
      var current, newWord := Lower(req.currentWord), Lower(req.newWord);
      reply.Scored? ==>
        && RuleOf(newWord, current).Some?
        && reply.points == |newWord| * PerLetter(RuleOf(newWord, current).value) / 2
  {
  }

  /** `game_over` after an accepted word: never while no word has been used;
      otherwise exactly when no dictionary word other than the new one, and
      outside the used words and the replaced word, passes either rule against
      the new word. */
  lemma SubmitGameOverRule(words: seq<string>, newWord: string, current: string, used: seq<string>)
    ensures used == [] ==> !EndsGame(words, newWord, current, used)
    ensures used != [] ==>
      (EndsGame(words, newWord, current, used) <==>
        forall x :: x in words && x != newWord && x !in used + [current] ==>
          !FitsIn(x, newWord) && Shared(x, newWord) < 2)
  {
    if used != [] {
      var checked := used + [current];
      var candidates := Candidates(words, newWord);
      CandidatesMembers(words, newWord);
      if EndsGame(words, newWord, current, used) {
        forall x | x in words && x != newWord && x !in checked
          ensures !FitsIn(x, newWord) && Shared(x, newWord) < 2
        {
          assert x !in Unused(candidates.0, checked);
          assert x !in Unused(candidates.1, checked);
        }
      } else {
        var o, m := Unused(candidates.0, checked), Unused(candidates.1, checked);
        var x := if o != [] then o[0] else m[0];
        assert x in o || x in m;
        assert x in words && x != newWord && x !in checked && (FitsIn(x, newWord) || Shared(x, newWord) >= 2);
      }
    }
  }

  // ---------------------------------------------------------------------------
  // Candidate enumeration

  /** Dictionary words other than `w` passing the original rule, in dictionary order. */
  function OriginalMatches(words: seq<string>, w: string): seq<string> {
    OriginalAmong(words, w, |words|)
  }

  /** The original-rule matches among the first `n` dictionary words. */
  function OriginalAmong(words: seq<string>, w: string, n: nat): seq<string>
    requires n <= |words|
  {
    if n == 0 then []
    else
      var x := words[n - 1];
      OriginalAmong(words, w, n - 1) + (if x != w && FitsIn(x, w) then [x] else [])
  }

  /** Dictionary words other than `w` failing the original rule but sharing at
      least 2 letters with `w`, in dictionary order. */
  function ModifiedMatches(words: seq<string>, w: string): seq<string> {
    ModifiedAmong(words, w, |words|)
  }

  /** The modified-rule matches among the first `n` dictionary words. */
  function ModifiedAmong(words: seq<string>, w: string, n: nat): seq<string>
    requires n <= |words|
  {
    if n == 0 then []
    else
      var x := words[n - 1];
      ModifiedAmong(words, w, n - 1) + (if x != w && !FitsIn(x, w) && Shared(x, w) >= 2 then [x] else [])
  }

  /** The original-rule matches among the first `n` words are exactly those of
      them, other than `w`, that fit in its letters. */
  lemma {:induction false} OriginalAmongMembers(words: seq<string>, w: string, n: nat)
    requires n <= |words|
    ensures forall x :: x in OriginalAmong(words, w, n) <==> x in words[..n] && x != w && FitsIn(x, w)
  {
    if n > 0 {
      OriginalAmongMembers(words, w, n - 1);
      assert words[..n] == words[..n - 1] + [words[n - 1]];
    }
  }

  /** The modified-rule matches among the first `n` words are exactly those of
      them, other than `w`, that do not fit in its letters but share at least
      2 with it. */
  lemma {:induction false} ModifiedAmongMembers(words: seq<string>, w: string, n: nat)
    requires n <= |words|
    ensures forall x :: x in ModifiedAmong(words, w, n) <==>
      x in words[..n] && x != w && !FitsIn(x, w) && Shared(x, w) >= 2
  {
    if n > 0 {
      ModifiedAmongMembers(words, w, n - 1);
      assert words[..n] == words[..n - 1] + [words[n - 1]];
    }
  }

  /** Sort key of `sort(key=len, reverse=True)`. */
  function LengthDesc(x: string): int {
    -|x|
  }

  /** `find_possible_words(w)`: both match lists, longest words first. */
  function Candidates(words: seq<string>, w: string): (seq<string>, seq<string>) {
    if w == [] then ([], [])
    else (Sorting.SortBy(OriginalMatches(words, w), LengthDesc),
          Sorting.SortBy(ModifiedMatches(words, w), LengthDesc))
  }

  /** The enumeration loop: skips `w` itself, files each word under the first
      rule it passes, then sorts both lists by length, longest first. */
  method FindPossibleWords(words: seq<string>, w: string) returns (original: seq<string>, modified: seq<string>)
    ensures (original, modified) == Candidates(words, w)
  {
    if w == [] {
      return [], [];
    }
    original, modified := [], [];
    for i := 0 to |words|
      invariant original == OriginalAmong(words, w, i)
      invariant modified == ModifiedAmong(words, w, i)
    {
      var x := words[i];
      if x == w {
        continue;
      }
      var validOriginal := CheckFits(x, w);
      if validOriginal {
        original := original + [x];
        continue;
      }
      var shared := CountShared(x, w);
      if shared >= 2 {
        modified := modified + [x];
      }
    }
    original := Sorting.SortBy(original, LengthDesc);
    modified := Sorting.SortBy(modified, LengthDesc);
  }

  /** The two lists hold exactly the dictionary words, other than `w`, that
      pass the original rule, respectively only the modified rule; an empty
      `w` gets two empty lists. */
  lemma CandidatesMembers(words: seq<string>, w: string)
    ensures w == [] ==> Candidates(words, w) == ([], [])
    ensures forall x :: x in Candidates(words, w).0 <==> x in words && x != w && FitsIn(x, w)
    ensures forall x :: x in Candidates(words, w).1 <==>
      x in words && x != w && !FitsIn(x, w) && Shared(x, w) >= 2
  {
    var c := Candidates(words, w);
    if w == [] {
      forall x | x in words && x != w ensures !FitsIn(x, w) {
        assert |multiset(x)| > 0;
      }
      forall x ensures Shared(x, w) == 0 {
        assert multiset(x) * multiset(w) == multiset{};
      }
    } else {
      var o, m := OriginalMatches(words, w), ModifiedMatches(words, w);
      OriginalAmongMembers(words, w, |words|);
      ModifiedAmongMembers(words, w, |words|);
      assert words[..|words|] == words;
      forall x ensures x in c.0 <==> x in o {
        assert x in c.0 <==> x in multiset(c.0);
        assert x in o <==> x in multiset(o);
      }
      forall x ensures x in c.1 <==> x in m {
        assert x in c.1 <==> x in multiset(c.1);
        assert x in m <==> x in multiset(m);
      }
    }
  }

  /** No word is offered under both rules, and `w` itself under neither. */
  lemma CandidatesDisjoint(words: seq<string>, w: string)
    ensures forall x :: !(x in Candidates(words, w).0 && x in Candidates(words, w).1)
    ensures w !in Candidates(words, w).0 && w !in Candidates(words, w).1
  {
    CandidatesMembers(words, w);
  }

  /** A list that runs from the longest word to the shortest. */
  predicate LongestFirst(s: seq<string>) {
    forall i, j :: 0 <= i < j < |s| ==> |s[i]| >= |s[j]|
  }

  /** Both lists run from the longest word to the shortest. */
  lemma CandidatesLongestFirst(words: seq<string>, w: string)
    ensures LongestFirst(Candidates(words, w).0) && LongestFirst(Candidates(words, w).1)
  {
    if w != [] {
      Sorting.SortByIsSorted(OriginalMatches(words, w), LengthDesc);
      Sorting.SortByIsSorted(ModifiedMatches(words, w), LengthDesc);
    }
  }

  /** Original-rule words of the same length keep their dictionary order (the
      sort is stable): for each sort key `k`, that is for the words of length
      `-k`, they appear in the sorted list as in the unsorted matches. */
  lemma OriginalKeepDictionaryOrder(words: seq<string>, w: string, k: int)
    requires w != []
    ensures Sorting.WithKey(Candidates(words, w).0, LengthDesc, k)
         == Sorting.WithKey(OriginalMatches(words, w), LengthDesc, k)
  {
    Sorting.SortedWithKey(OriginalMatches(words, w), Candidates(words, w).0, LengthDesc, k);
  }

  /** The same for the modified-rule words. */
  lemma ModifiedKeepDictionaryOrder(words: seq<string>, w: string, k: int)
    requires w != []
    ensures Sorting.WithKey(Candidates(words, w).1, LengthDesc, k)
         == Sorting.WithKey(ModifiedMatches(words, w), LengthDesc, k)
  {
    Sorting.SortedWithKey(ModifiedMatches(words, w), Candidates(words, w).1, LengthDesc, k);
  }

  // ---------------------------------------------------------------------------
  // Hints

  /** `[word for word in xs if word not in used]`. */
  function Unused(xs: seq<string>, used: seq<string>): (r: seq<string>)
    ensures forall x :: x in r <==> x in xs && x !in used
    ensures |r| <= |xs|
    ensures used == [] ==> r == xs
  {
    if xs == [] then []
    else (if xs[0] in used then [] else [xs[0]]) + Unused(xs[1..], used)
  }

  /** Filtering a concatenation filters each part and keeps them in order:
      the words the filter keeps stay in the order they had. */
  lemma {:induction false} UnusedAppend(xs: seq<string>, ys: seq<string>, used: seq<string>)
    ensures Unused(xs + ys, used) == Unused(xs, used) + Unused(ys, used)
  {
    if xs != [] {
      assert (xs + ys)[0] == xs[0];
      assert (xs + ys)[1..] == xs[1..] + ys;
      UnusedAppend(xs[1..], ys, used);
    } else {
      assert xs + ys == ys;
    }
  }

  /** The filter keeps the words it keeps in their order, so a list running
      from the longest word to the shortest still does after it. */
  lemma {:induction false} UnusedKeepsLongestFirst(xs: seq<string>, used: seq<string>)
    requires LongestFirst(xs)
    ensures LongestFirst(Unused(xs, used))
  {
    if xs != [] {
      var tail := xs[1..];
      assert LongestFirst(tail) by {
        forall i, j | 0 <= i < j < |tail| ensures |tail[i]| >= |tail[j]| {
          assert tail[i] == xs[i + 1] && tail[j] == xs[j + 1];
        }
      }
      UnusedKeepsLongestFirst(tail, used);
      var rest := Unused(tail, used);
      if xs[0] !in used {
        assert Unused(xs, used) == [xs[0]] + rest;
        forall j | 0 <= j < |rest| ensures |xs[0]| >= |rest[j]| {
          assert rest[j] in rest;
          var k :| 0 <= k < |tail| && tail[k] == rest[j];
          assert xs[k + 1] == tail[k];
        }
      }
    }
  }

  /** `s[:n]`. */
  function Take(s: seq<string>, n: nat): (r: seq<string>)
    ensures r <= s && |r| == Min(n, |s|)
  {
    if n >= |s| then s else s[..n]
  }

  /** `get_hint`: up to three unused candidates per rule for the current word,
      with the rebalancing branches of the source kept as written. */
  function GetHint(words: seq<string>, req: HintRequest): HintReply {
    var current := Lower(req.currentWord);
    if current == [] then NoHints(WordRequired)
    else
      var candidates := Candidates(words, current);
      var original := if req.usedWords != [] then Unused(candidates.0, req.usedWords) else candidates.0;
      var modified := if req.usedWords != [] then Unused(candidates.1, req.usedWords) else candidates.1;
      var originalHints := Take(original, HintsPerRule);
      var modifiedHints := Take(modified, HintsPerRule);
      var hints :=
        if |originalHints| < 3 && |modifiedHints| > 3 then (originalHints, Take(modified, 6 - |originalHints|))
        else if |modifiedHints| < 3 && |originalHints| > 3 then (Take(original, 6 - |modifiedHints|), modifiedHints)
        else (originalHints, modifiedHints);
      var gameOver := if req.usedWords == [] then false else original == [] && modified == [];
      Hints(hints.0, hints.1, gameOver)
  }

  /** The rebalancing branches of `get_hint` never fire: each list is cut at 3. */
  lemma HintListsCutAtThree(words: seq<string>, req: HintRequest)
    requires Lower(req.currentWord) != []
    ensures var current := Lower(req.currentWord);
      GetHint(words, req) == Hints(
        Take(Unused(Candidates(words, current).0, req.usedWords), HintsPerRule),
        Take(Unused(Candidates(words, current).1, req.usedWords), HintsPerRule),
        GetHint(words, req).gameOver)
  {
  }

  /** Every original-rule hint is an unused dictionary word other than
      `current` that fits in its letters; every modified-rule hint is one
      that does not fit but shares at least two letters with it. */
  ghost predicate SoundHints(words: seq<string>, current: string, used: seq<string>,
                             original: seq<string>, modified: seq<string>) {
    && (forall x :: x in original ==>
          x in words && x != current && x !in used && FitsIn(x, current))
    && (forall x :: x in modified ==>
          x in words && x != current && x !in used && !FitsIn(x, current) && Shared(x, current) >= 2)
  }

  /** Each hint list is the first (at most) three of the candidates left after
      removing used words; every hint is an unused dictionary word passing its rule. */
  lemma HintsAreUnusedPrefixes(words: seq<string>, req: HintRequest)
    requires Lower(req.currentWord) != []
    ensures var reply := GetHint(words, req);
      var current := Lower(req.currentWord);
      var original := Unused(Candidates(words, current).0, req.usedWords);
      var modified := Unused(Candidates(words, current).1, req.usedWords);
      && reply.Hints?
      && reply.originalRuleHints <= original && |reply.originalRuleHints| == Min(3, |original|)
      && reply.modifiedRuleHints <= modified && |reply.modifiedRuleHints| == Min(3, |modified|)
      && SoundHints(words, current, req.usedWords, reply.originalRuleHints, reply.modifiedRuleHints)
  {
    var reply := GetHint(words, req);
    var current := Lower(req.currentWord);
    var original := Unused(Candidates(words, current).0, req.usedWords);
    var modified := Unused(Candidates(words, current).1, req.usedWords);
    HintListsCutAtThree(words, req);
    CandidatesMembers(words, current);
    PrefixMembers(reply.originalRuleHints, original);
    PrefixMembers(reply.modifiedRuleHints, modified);
  }

  /** Each hint list runs from the longest word to the shortest, and no
      unused candidate left out of it is longer than any hint in it: the
      hints are the longest unused candidates. */
  lemma HintsLongestFirst(words: seq<string>, req: HintRequest)
    requires Lower(req.currentWord) != []
    ensures var reply := GetHint(words, req);
      var current := Lower(req.currentWord);
      var original := Unused(Candidates(words, current).0, req.usedWords);
      var modified := Unused(Candidates(words, current).1, req.usedWords);
      && LongestFirst(reply.originalRuleHints) && LongestFirst(reply.modifiedRuleHints)
      && (forall i, j :: 0 <= i < |reply.originalRuleHints| <= j < |original| ==>
            |original[j]| <= |reply.originalRuleHints[i]|)
      && (forall i, j :: 0 <= i < |reply.modifiedRuleHints| <= j < |modified| ==>
            |modified[j]| <= |reply.modifiedRuleHints[i]|)
  {
    var current := Lower(req.currentWord);
    HintListsCutAtThree(words, req);
    CandidatesLongestFirst(words, current);
    UnusedKeepsLongestFirst(Candidates(words, current).0, req.usedWords);
    UnusedKeepsLongestFirst(Candidates(words, current).1, req.usedWords);
    PrefixLongestFirst(GetHint(words, req).originalRuleHints, Unused(Candidates(words, current).0, req.usedWords));
    PrefixLongestFirst(GetHint(words, req).modifiedRuleHints, Unused(Candidates(words, current).1, req.usedWords));
  }

  lemma PrefixLongestFirst(p: seq<string>, s: seq<string>)
    requires p <= s && LongestFirst(s)
    ensures LongestFirst(p)
    ensures forall i, j :: 0 <= i < |p| <= j < |s| ==> |s[j]| <= |p[i]|
  {
    assert forall i :: 0 <= i < |p| ==> p[i] == s[i];
  }

  lemma PrefixMembers(p: seq<string>, s: seq<string>)
    requires p <= s
    ensures forall x :: x in p ==> x in s
  {
  }

  /** A hint request fails exactly for an empty current word; otherwise
      `game_over` is false while no word is used, and then true exactly when
      no unused candidate is left under either rule. */
  lemma HintGameOverRule(words: seq<string>, req: HintRequest)
    ensures var reply := GetHint(words, req);
      var current := Lower(req.currentWord);
      && (reply.NoHints? <==> current == [])
      && (reply.Hints? && req.usedWords == [] ==> !reply.gameOver)
      && (reply.Hints? && req.usedWords != [] ==>
            (reply.gameOver <==>
              forall x :: x in words && x != current && x !in req.usedWords ==>
                !FitsIn(x, current) && Shared(x, current) < 2))
  {
    var reply := GetHint(words, req);
    var current := Lower(req.currentWord);
    if current != [] && req.usedWords != [] {
      CandidatesMembers(words, current);
      var original := Unused(Candidates(words, current).0, req.usedWords);
      var modified := Unused(Candidates(words, current).1, req.usedWords);
      if !reply.gameOver {
        var x := if original != [] then original[0] else modified[0];
        assert x in original || x in modified;
      } else {
        forall x | x in words && x != current && x !in req.usedWords
          ensures !FitsIn(x, current) && Shared(x, current) < 2
        {
          assert x !in original && x !in modified;
        }
      }
    }
  }

  // ---------------------------------------------------------------------------
  // The server process: the dictionary and the two validity caches

  /** How the online dictionary answered a lookup: status 200, another status,
      or an exception (timeout, no connection). */
  datatype ApiAnswer = Found | NotFound | Unreachable

  class GameServer {
    /** WORD_LIST, loaded once. */
    const wordList: seq<string>
    /** Keys of VERIFIED_WORDS. */
    var verified: set<string>
    /** NONEXISTENT_WORDS. */
    var nonexistent: set<string>

    /** The caches never disagree, hold only words of an accepted length, and a
        dictionary word is never recorded as nonexistent. */
    ghost predicate Valid()
      reads this
    {
      && verified !! nonexistent
      && (forall w :: w in nonexistent ==> w !in wordList)
      && (forall w :: w in verified ==> MinWordLength <= |w| <= MaxWordLength)
      && (forall w :: w in nonexistent ==> MinWordLength <= |w| <= MaxWordLength)
    }

    constructor (words: seq<string>)
      ensures Valid()
      ensures wordList == words && verified == {} && nonexistent == {}
    {
      wordList := words;
      verified, nonexistent := {}, {};
    }

    /** The verdict `is_valid_word` gives in the current cache state when the
        online dictionary would answer `api`. */
    function Accepts(word: string, api: ApiAnswer): (ok: bool)
      reads this
      ensures ok ==> MinWordLength <= |word| <= MaxWordLength
      ensures Valid() && word in wordList ==> (ok <==> MinWordLength <= |word| <= MaxWordLength)
    {
      if |word| < MinWordLength || |word| > MaxWordLength then false
      else if word in verified then true
      else if word in nonexistent then false
      else if word in wordList then true
      else
        match api
        case Found => true
        case NotFound => false
        case Unreachable => word in wordList
    }

    /** What one submission of `word` leaves in the caches, starting from
        `verified0` and `nonexistent0`: an accepted word is recorded as
        verified, a word the online dictionary rejected is recorded as
        nonexistent, and nothing else changes. */
    ghost predicate CachesRecorded(verified0: set<string>, nonexistent0: set<string>,
                                   word: string, reply: SubmitReply, api: ApiAnswer)
      reads this
    {
      && verified == verified0 + (if reply != Refused(NotAValidWord) then {word} else {})
      && nonexistent == nonexistent0
           + (if reply == Refused(NotAValidWord) && api == NotFound
                   && MinWordLength <= |word| <= MaxWordLength
              then {word} else {})
    }

    /** `is_valid_word`: the length bound first, then the caches, the
        dictionary and the online lookup, recording what the lookup settles. */
    method IsValidWord(word: string, api: ApiAnswer) returns (ok: bool)
      requires Valid()
      modifies this
      ensures Valid()
      ensures ok == old(Accepts(word, api))
      ensures (|word| < MinWordLength || |word| > MaxWordLength) ==> !ok && unchanged(this)
      ensures verified == old(verified) + (if ok then {word} else {})
      ensures nonexistent == old(nonexistent)
        + (if !ok && api == NotFound && MinWordLength <= |word| <= MaxWordLength then {word} else {})
      ensures api != Unreachable ==> forall a :: Accepts(word, a) == ok
    {
      if |word| < MinWordLength || |word| > MaxWordLength {
        return false;
      }
      if word in verified {
        return true;
      }
      if word in nonexistent {
        return false;
      }
      if word in wordList {
        verified := verified + {word};
        return true;
      }
      match api
      case Found =>
        verified := verified + {word};
        ok := true;
      case NotFound =>
        nonexistent := nonexistent + {word};
        ok := false;
      case Unreachable =>
        ok := word in wordList;
    }

    /** `submit_word`: validity gate, rule classification, points and the
        game-over test, on the lower-cased words. */
    method SubmitWord(req: WordSubmission, api: ApiAnswer) returns (reply: SubmitReply)
      requires Valid()
      modifies this
      ensures Valid()
      ensures reply == SubmitReplyFor(wordList, req, old(Accepts(Lower(req.newWord), api)))
      ensures reply.Scored? ==> reply.points >= 5
      ensures CachesRecorded(old(verified), old(nonexistent), Lower(req.newWord), reply, api)
    {
      var current, newWord := Lower(req.currentWord), Lower(req.newWord);
      var valid := IsValidWord(newWord, api);
      if !valid {
        return Refused(NotAValidWord);
      }
      var rule: Rule;
      if multiset(current) == multiset(newWord) {
        rule := Anagram;
      } else {
        var fits := CheckFits(newWord, current);
        if fits {
          rule := Original;
        } else {
          var shared := CountShared(newWord, current);
          if shared < 2 {
            assert RuleOf(newWord, current) == None;
            return Refused(TooFewShared);
          }
          rule := ModifiedRule;
        }
      }
      assert RuleOf(newWord, current) == Some(rule);
      var points := Points(rule, |newWord|, req.fromHint);
      var gameOver := false;
      if req.usedWords != [] {
        var checked := req.usedWords + [current];
        var original, modified := FindPossibleWords(wordList, newWord);
        original := Unused(original, checked);
        modified := Unused(modified, checked);
        gameOver := original == [] && modified == [];
      }
      assert gameOver == EndsGame(wordList, newWord, current, req.usedWords);
      reply := Scored(points, rule == ModifiedRule, gameOver);
      assert reply == SubmitReplyFor(wordList, req, valid);
      ScoredPointsPositive(wordList, req);
    }
  }
}
