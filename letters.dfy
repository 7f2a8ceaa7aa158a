/** The letter-count tests of the rule engine. A Python `Counter` of a word is
    the multiset of its characters. */
module Letters {

  /** Original rule: every letter of `w`, with its count, is available in `cur`. */
  predicate FitsIn(w: string, cur: string) {
    multiset(w) <= multiset(cur)
  }

  /** Size of the multiset intersection: letters `w` shares with `cur`, with counts. */
  function Shared(w: string, cur: string): nat {
    |multiset(w) * multiset(cur)|
  }

  /** An anagram passes the original rule and shares every one of its letters,
      so testing for anagrams first only picks out a special case of it. */
  lemma AnagramFits(w: string, cur: string)
    requires multiset(w) == multiset(cur)
    ensures FitsIn(w, cur) && Shared(w, cur) == |w|
  {
    assert multiset(w) * multiset(cur) == multiset(w);
  }

  /** The `valid_original` loop: walks the distinct letters of `w` and stops at
      the first one `cur` cannot supply often enough. */
  method CheckFits(w: string, cur: string) returns (valid: bool)
    ensures valid <==> FitsIn(w, cur)
  {
    var need, have := multiset(w), multiset(cur);
    var letters := set c | c in need;
    valid := true;
    while letters != {}
      invariant letters <= set c | c in need
      invariant forall c :: c in need && c !in letters ==> need[c] <= have[c]
      decreases letters
    {
      var c :| c in letters;
      if c !in have || have[c] < need[c] {
        valid := false;
        break;
      }
      letters := letters - {c};
    }
    assert valid ==> forall c :: need[c] <= have[c];
  }

  /** The `shared_letters` loop: for each distinct letter of `w` that `cur`
      also has, adds the smaller of the two counts. */
  method CountShared(w: string, cur: string) returns (shared: nat)
    ensures shared == Shared(w, cur)
  {
    var need, have := multiset(w), multiset(cur);
    var letters := set c | c in need;
    ghost var counted: multiset<char> := multiset{};
    shared := 0;
    while letters != {}
      invariant letters <= set c | c in need
      invariant forall c :: counted[c] == if c in need && c !in letters then (need * have)[c] else 0
      invariant shared == |counted|
      decreases letters
    {
      var c :| c in letters;
      if c in have {
        var m := if need[c] < have[c] then need[c] else have[c];
        ghost var copies := multiset{}[c := m];
        assert |copies| == m;
        counted := counted + copies;
        shared := shared + m;
      }
      letters := letters - {c};
    }
    assert counted == need * have;
  }
}
