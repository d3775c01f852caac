/** Chain.IPSetIDs: the IP sets a chain's rules refer to, found by scanning
    every match string word by word for the `--match-set` flag. */
module IPSets {
  import opened GoText
  import opened Rules

  const MatchSetFlag := "--match-set"

  /** The words that follow a `--match-set` among the first `k` words, in
      order: what the inner loop has collected after `k` steps. */
  function FlagArgsUpTo(words: seq<string>, k: nat): seq<string>
    requires k <= |words|
  {
    if k == 0 then []
    else FlagArgsUpTo(words, k - 1) + (if words[k - 1] == MatchSetFlag && k < |words| then [words[k]] else [])
  }

  function FlagArgs(words: seq<string>): seq<string>
  {
    FlagArgsUpTo(words, |words|)
  }

  /** The set references of a match string: the flag arguments among its
      space-separated words. */
  function StringRefs(matchString: string): seq<string>
  {
    FlagArgs(SplitSpaces(matchString))
  }

  /** The references of a list of match strings, string by string. */
  function StringsRefs(matchStrings: seq<string>): seq<string>
  {
    if matchStrings == [] then []
    else StringsRefs(matchStrings[..|matchStrings| - 1]) + StringRefs(matchStrings[|matchStrings| - 1])
  }

  /** The references of a list of rules, rule by rule. */
  function RulesRefs<A>(rules: seq<Rule<A>>): seq<string>
  {
    if rules == [] then []
    else RulesRefs(rules[..|rules| - 1]) + StringsRefs(rules[|rules| - 1].criteria)
  }

  function ChainRefs<A>(c: Option<Chain<A>>): seq<string>
  {
    if c.None? then [] else RulesRefs(c.value.rules)
  }

  /** IPSetIDs: for a nil chain nothing; otherwise, in rule order, then match
      string order, then word order, every word right after a `--match-set`. */
  method IPSetIDs<A>(c: Option<Chain<A>>) returns (ipSetIDs: seq<string>)
    ensures ipSetIDs == ChainRefs(c)
  {
    ipSetIDs := [];
    if c.None? {
      return;
    }
    var rules := c.value.rules;
    for r := 0 to |rules|
      invariant ipSetIDs == RulesRefs(rules[..r])
    {
      var matchStrings := rules[r].criteria;
      ghost var before := ipSetIDs;
      for j := 0 to |matchStrings|
        invariant ipSetIDs == before + StringsRefs(matchStrings[..j])
      {
        var words := SplitSpaces(matchStrings[j]);
        ghost var upToString := ipSetIDs;
        for i := 0 to |words|
          invariant ipSetIDs == upToString + FlagArgsUpTo(words, i)
        {
          if words[i] == MatchSetFlag && i + 1 < |words| {
            RefsAssoc(upToString, FlagArgsUpTo(words, i), [words[i + 1]]);
            ipSetIDs := ipSetIDs + [words[i + 1]];
          }
        }
        StringsRefsSnoc(matchStrings, j);
        RefsAssoc(before, StringsRefs(matchStrings[..j]), StringRefs(matchStrings[j]));
      }
      assert matchStrings[..|matchStrings|] == matchStrings;
      RulesRefsSnoc(rules, r);
    }
    assert rules[..|rules|] == rules;
  }

  // ---- Properties of the scan ----

  /** A word is collected exactly when some `--match-set` among the first `k`
      words is directly followed by it. */
  lemma {:induction false} FlagArgsUpToMembers(words: seq<string>, k: nat, w: string)
    requires k <= |words|
    ensures w in FlagArgsUpTo(words, k) <==>
      exists i :: 0 <= i < k && i + 1 < |words| && words[i] == MatchSetFlag && words[i + 1] == w
  {
    if k > 0 {
      FlagArgsUpToMembers(words, k - 1, w);
    }
  }

  /** The references of a batch of words are exactly the words right after a
      `--match-set`; a `--match-set` in last position contributes nothing. */
  lemma FlagArgsMembers(words: seq<string>, w: string)
    ensures w in FlagArgs(words) <==>
      exists i :: 0 <= i < |words| - 1 && words[i] == MatchSetFlag && words[i + 1] == w
  {
    FlagArgsUpToMembers(words, |words|, w);
  }

  /** The word scan, written front to back as an independent definition. */
  function FlagArgsForward(words: seq<string>): seq<string>
  {
    if |words| < 2 then []
    else (if words[0] == MatchSetFlag then [words[1]] else []) + FlagArgsForward(words[1..])
  }

  /** The loop's back-to-front accumulation agrees with the front-to-back scan,
      so the references come out in word order, duplicates included. */
  lemma {:induction false} FlagArgsInWordOrder(words: seq<string>)
    ensures FlagArgs(words) == FlagArgsForward(words)
  {
    if |words| >= 2 {
      FlagArgsInWordOrder(words[1..]);
      FlagArgsUpToShift(words, |words|);
    } else if |words| == 1 {
      assert FlagArgsUpTo(words, 1) == FlagArgsUpTo(words, 0) + [];
    }
  }

  /** Dropping the first word: how the accumulation over the rest relates to
      the accumulation over all words. */
  lemma {:induction false} FlagArgsUpToShift(words: seq<string>, k: nat)
    requires 1 <= k <= |words|
    ensures FlagArgsUpTo(words, k) ==
      (if words[0] == MatchSetFlag && 1 < |words| then [words[1]] else []) + FlagArgsUpTo(words[1..], k - 1)
  {
    if k > 1 {
      FlagArgsUpToShift(words, k - 1);
      assert words[1..][k - 2] == words[k - 1];
      if k < |words| {
        assert words[1..][k - 1] == words[k];
      }
    }
  }

  /** A `--match-set` added as the last word has no word after it and adds
      no reference of its own; it is itself collected only as the argument of
      a `--match-set` right before it. */
  lemma TrailingFlagIgnored(words: seq<string>)
    ensures FlagArgs(words + [MatchSetFlag]) ==
      FlagArgs(words) + (if words != [] && words[|words| - 1] == MatchSetFlag then [MatchSetFlag] else [])
  {
    var longer := words + [MatchSetFlag];
    assert FlagArgsUpTo(longer, |longer|) == FlagArgsUpTo(longer, |words|);
    FlagArgsUpToStable(words, [MatchSetFlag], |words|);
  }

  /** Words added at the end do not change what the first `k` words
      contributed, except for the argument of a flag in last position. */
  lemma {:induction false} FlagArgsUpToStable(words: seq<string>, more: seq<string>, k: nat)
    requires k <= |words|
    ensures FlagArgsUpTo(words + more, k) ==
      if k == |words| && k > 0 && words[k - 1] == MatchSetFlag && more != []
      then FlagArgsUpTo(words, k) + [more[0]]
      else FlagArgsUpTo(words, k)
  {
    if k > 0 {
      FlagArgsUpToStable(words, more, k - 1);
      assert (words + more)[k - 1] == words[k - 1];
      if k < |words| {
        assert (words + more)[k] == words[k];
      }
    }
  }

  /** The scan of a chain is the concatenation of the scans of its rules: a
      rule's references come after those of the rules before it. */
  lemma {:induction false} RulesRefsConcat<A>(rules1: seq<Rule<A>>, rules2: seq<Rule<A>>)
    ensures RulesRefs(rules1 + rules2) == RulesRefs(rules1) + RulesRefs(rules2)
    decreases |rules2|
  {
    if rules2 == [] {
      assert rules1 + rules2 == rules1;
    } else {
      var n := |rules2| - 1;
      var all := rules1 + rules2;
      var r1, x, last := RulesRefs(rules1), RulesRefs(rules2[..n]), StringsRefs(rules2[n].criteria);
      RulesRefsConcat(rules1, rules2[..n]);
      assert all[..|all| - 1] == rules1 + rules2[..n];
      assert all[|all| - 1] == rules2[n];
      RulesRefsLast(all);
      RulesRefsLast(rules2);
      assert RulesRefs(all) == (r1 + x) + last;
      assert RulesRefs(rules2) == x + last;
      RefsAssoc(r1, x, last);
    }
  }

  /** The last rule's references come last. */
  lemma RulesRefsLast<A>(rules: seq<Rule<A>>)
    requires rules != []
    ensures RulesRefs(rules) == RulesRefs(rules[..|rules| - 1]) + StringsRefs(rules[|rules| - 1].criteria)
  {
  }

  /** Regrouping a concatenation; a separate step only to keep the loop
      proofs of IPSetIDs and the proof of RulesRefsConcat small and stable. */
  lemma RefsAssoc(a: seq<string>, b: seq<string>, c: seq<string>)
    ensures (a + b) + c == a + (b + c)
  {
  }

  /** One more rule adds its references at the end. */
  lemma RulesRefsSnoc<A>(rules: seq<Rule<A>>, r: nat)
    requires r < |rules|
    ensures RulesRefs(rules[..r + 1]) == RulesRefs(rules[..r]) + StringsRefs(rules[r].criteria)
  {
    assert rules[..r + 1][..r] == rules[..r];
  }

  /** One more match string adds its references at the end. */
  lemma StringsRefsSnoc(matchStrings: seq<string>, j: nat)
    requires j < |matchStrings|
    ensures StringsRefs(matchStrings[..j + 1]) == StringsRefs(matchStrings[..j]) + StringRefs(matchStrings[j])
  {
    assert matchStrings[..j + 1][..j] == matchStrings[..j];
  }

  /** The words of a match string naming the sets setA then setB. */
  const TwoSetsWords := ["-m", "set", "--match-set", "setA", "src", "-m", "set", "--match-set", "setB", "dst"]

  /** A chain with one rule whose match string is those words joined by
      spaces refers to setA then setB. */
  lemma TwoSetsExample<A>(name: string, action: A)
    ensures ChainRefs(Some(Chain(name, [Rule([Join(TwoSetsWords, " ")], action, [])]))) == ["setA", "setB"]
  {
    TwoSetsSplit();
    TwoSetsScan();
    OneStringChain(name, Join(TwoSetsWords, " "), action);
  }

  lemma TwoSetsSplit()
    ensures SplitSpaces(Join(TwoSetsWords, " ")) == TwoSetsWords
  {
    var words := TwoSetsWords;
    assert forall i :: 0 <= i < |words| ==> SpaceFree(words[i]);
    SplitJoin(words);
  }

  lemma TwoSetsScan()
    ensures FlagArgs(TwoSetsWords) == ["setA", "setB"]
  {
    var words := TwoSetsWords;
    assert FlagArgsUpTo(words, 1) == [];
    assert FlagArgsUpTo(words, 2) == [];
    assert FlagArgsUpTo(words, 3) == ["setA"];
    assert FlagArgsUpTo(words, 4) == ["setA"];
    assert FlagArgsUpTo(words, 5) == ["setA"];
    assert FlagArgsUpTo(words, 6) == ["setA"];
    assert FlagArgsUpTo(words, 7) == ["setA"];
    assert FlagArgsUpTo(words, 8) == ["setA", "setB"];
    assert FlagArgsUpTo(words, 9) == ["setA", "setB"];
    assert FlagArgsUpTo(words, 10) == ["setA", "setB"];
  }

  /** A match string none of whose words is `--match-set` refers to no set. */
  lemma NoFlagNoRefs(matchString: string)
    requires forall i :: 0 <= i < |SplitSpaces(matchString)| ==> SplitSpaces(matchString)[i] != MatchSetFlag
    ensures StringRefs(matchString) == []
  {
    var refs := StringRefs(matchString);
    if refs != [] {
      FlagArgsMembers(SplitSpaces(matchString), refs[0]);
      assert false;
    }
  }

  /** A chain of one rule with one match string refers to that string's sets. */
  lemma OneStringChain<A>(name: string, matchString: string, action: A)
    ensures ChainRefs(Some(Chain(name, [Rule([matchString], action, [])]))) == StringRefs(matchString)
  {
    var rules := [Rule([matchString], action, [])];
    assert rules[..0] == [];
    assert [matchString][..0] == [];
    assert RulesRefs(rules) == RulesRefs(rules[..0]) + StringsRefs(rules[0].criteria);
    assert StringsRefs([matchString]) == StringsRefs([matchString][..0]) + StringRefs(matchString);
  }
}
