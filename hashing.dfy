/** Chain.RuleHashes: one short identity string per rule, made by folding a
    running SHA-224 digest along the chain. The digest and its URL-safe
    base64 encoding are parameters of the model (`Hasher`); all that is
    assumed of them is the shape of their results. */
module ChainHash {
  import opened GoText
  import opened Rules

  newtype Byte = b: int | 0 <= b < 256

  /** Size in bytes of a SHA-224 sum. */
  const DigestSize := 28

  type Sum224 = s: seq<Byte> | |s| == DigestSize witness seq(28, _ => 0 as Byte)

  /** The URL-safe base64 alphabet. */
  predicate IsHashChar(ch: char)
  {
    ('A' <= ch <= 'Z') || ('a' <= ch <= 'z') || ('0' <= ch <= '9') || ch == '-' || ch == '_'
  }

  /** An unpadded URL-safe base64 text long enough to take HashLength
      characters from (a 28-byte sum encodes to 38). */
  type Encoding = s: string | |s| >= HashLength && forall i :: 0 <= i < |s| ==> IsHashChar(s[i])
    witness "AAAAAAAAAAAAAAAA"

  /** sha256.Sum224 of a byte string, and base64.RawURLEncoding of a sum. */
  datatype Hasher = Hasher(digest: seq<Byte> -> Sum224, encode: Sum224 -> Encoding)

  /** []byte(s) for a string whose characters stand for bytes. */
  function StringBytes(s: string): (b: seq<Byte>)
    ensures |b| == |s|
  {
    seq(|s|, i requires 0 <= i < |s| => (s[i] as int % 256) as Byte)
  }

  /** The fixed prefix every rule is rendered with for hashing. */
  const HashPrefix := "HASH"

  /** The text hashed for one rule: its append line with the fixed prefix. */
  function HashedLine<A, F>(name: string, rule: Rule<A>, env: Renderers<A, F>, features: F): string
  {
    RenderedLine(Append, name, rule, HashPrefix, env, features)
  }

  /** The hashed line is the rule's append line with the token HASH where a
      caller's prefix would go; no caller-supplied prefix enters the hash. */
  lemma HashedLineShape<A, F>(name: string, rule: Rule<A>, env: Renderers<A, F>, features: F)
    ensures HashedLine(name, rule, env, features) ==
      "-A " + name + " " + HashPrefix + Rest(TailFragments(rule, "", env, features))
  {
    TailWithPrefix(rule, HashPrefix, env, features);
    RestCons(HashPrefix, TailFragments(rule, "", env, features));
    LeadingTokens(Append, name, rule, HashPrefix, env, features);
  }

  /** The running digest after the first `k` rules: the digest of the chain
      name, then, rule by rule, the digest of the previous digest followed
      by the rule's hashed line. */
  function DigestAfter<A, F>(name: string, rules: seq<Rule<A>>, k: nat, env: Renderers<A, F>, features: F, h: Hasher): Sum224
    requires k <= |rules|
  {
    if k == 0 then h.digest(StringBytes(name))
    else h.digest(DigestAfter(name, rules, k - 1, env, features, h) + StringBytes(HashedLine(name, rules[k - 1], env, features)))
  }

  /** The hash of the rule at position `i`: the first HashLength characters
      of the encoding of the digest that includes it. */
  function HashAt<A, F>(name: string, rules: seq<Rule<A>>, i: nat, env: Renderers<A, F>, features: F, h: Hasher): string
    requires i < |rules|
  {
    h.encode(DigestAfter(name, rules, i + 1, env, features, h))[..HashLength]
  }

  function ChainHashes<A, F>(chain: Chain<A>, env: Renderers<A, F>, features: F, h: Hasher): seq<string>
  {
    seq(|chain.rules|, i requires 0 <= i < |chain.rules| => HashAt(chain.name, chain.rules, i, env, features, h))
  }

  /** RuleHashes: nothing for a nil chain; otherwise one hash per rule, each
      HashLength characters of the URL-safe base64 alphabet, in rule order. */
  method RuleHashes<A, F>(c: Option<Chain<A>>, env: Renderers<A, F>, features: F, h: Hasher) returns (hashes: seq<string>)
    ensures c.None? ==> hashes == []
    ensures c.Some? ==> hashes == ChainHashes(c.value, env, features, h)
    ensures c.Some? ==> |hashes| == |c.value.rules|
    ensures forall i :: 0 <= i < |hashes| ==> IsHash(hashes[i])
  {
    if c.None? {
      return [];
    }
    var chain := c.value;
    var out := new string[|chain.rules|];
    var hash := h.digest(StringBytes(chain.name));
    for ii := 0 to |chain.rules|
      invariant hash == DigestAfter(chain.name, chain.rules, ii, env, features, h)
      invariant forall k :: 0 <= k < ii ==> out[k] == HashAt(chain.name, chain.rules, k, env, features, h)
    {
      var ruleForHashing := RenderAppend(chain.rules[ii], chain.name, HashPrefix, env, features);
      DigestStep(chain.name, chain.rules, ii, env, features, h);
      hash := h.digest(hash + StringBytes(ruleForHashing));
      out[ii] := h.encode(hash)[..HashLength];
      assert out[ii] == HashAt(chain.name, chain.rules, ii, env, features, h);
    }
    hashes := out[..];
    ChainHashesShape(chain, env, features, h);
  }

  /** One step of the running digest: the digest of the previous digest
      followed by the rule's hashed line. */
  lemma DigestStep<A, F>(name: string, rules: seq<Rule<A>>, i: nat, env: Renderers<A, F>, features: F, h: Hasher)
    requires i < |rules|
    ensures DigestAfter(name, rules, i + 1, env, features, h)
      == h.digest(DigestAfter(name, rules, i, env, features, h) + StringBytes(RenderedLine(Append, name, rules[i], HashPrefix, env, features)))
  {
  }

  /** A rule hash: HashLength characters of the URL-safe base64 alphabet. */
  predicate IsHash(s: string)
  {
    |s| == HashLength && forall j :: 0 <= j < |s| ==> IsHashChar(s[j])
  }

  lemma ChainHashesShape<A, F>(chain: Chain<A>, env: Renderers<A, F>, features: F, h: Hasher)
    ensures |ChainHashes(chain, env, features, h)| == |chain.rules|
    ensures forall i :: 0 <= i < |chain.rules| ==> IsHash(ChainHashes(chain, env, features, h)[i])
  {
    forall i | 0 <= i < |chain.rules|
      ensures IsHash(ChainHashes(chain, env, features, h)[i])
    {
      var e := h.encode(DigestAfter(chain.name, chain.rules, i + 1, env, features, h));
      assert ChainHashes(chain, env, features, h)[i] == e[..HashLength];
    }
  }

  // ---- Prefix stability ----

  /** The digest after `k` rules looks at the first `k` rules only. */
  lemma {:induction false} DigestAfterPrefix<A, F>(name: string, rules: seq<Rule<A>>, k: nat, env: Renderers<A, F>, features: F, h: Hasher)
    requires k <= |rules|
    ensures DigestAfter(name, rules, k, env, features, h) == DigestAfter(name, rules[..k], k, env, features, h)
    decreases k
  {
    if k > 0 {
      DigestAfterPrefix(name, rules, k - 1, env, features, h);
      DigestAfterPrefix(name, rules[..k], k - 1, env, features, h);
      assert rules[..k][..k - 1] == rules[..k - 1];
      assert rules[..k][k - 1] == rules[k - 1];
    }
  }

  /** Two chains with the same name that agree on their first `j` rules have
      the same hashes before position `j`, whatever follows. */
  lemma HashesPrefixStable<A, F>(name: string, rules1: seq<Rule<A>>, rules2: seq<Rule<A>>, j: nat,
                                 env: Renderers<A, F>, features: F, h: Hasher)
    requires j <= |rules1| && j <= |rules2| && rules1[..j] == rules2[..j]
    ensures forall i :: 0 <= i < j ==>
      ChainHashes(Chain(name, rules1), env, features, h)[i] == ChainHashes(Chain(name, rules2), env, features, h)[i]
  {
    forall i | 0 <= i < j
      ensures HashAt(name, rules1, i, env, features, h) == HashAt(name, rules2, i, env, features, h)
    {
      DigestAfterPrefix(name, rules1, i + 1, env, features, h);
      DigestAfterPrefix(name, rules2, i + 1, env, features, h);
      assert rules1[..i + 1] == rules1[..j][..i + 1];
      assert rules2[..i + 1] == rules2[..j][..i + 1];
    }
  }

  /** Appending rules to a chain leaves the hashes of its existing rules as
      they were. */
  lemma HashesExtend<A, F>(chain: Chain<A>, more: seq<Rule<A>>, env: Renderers<A, F>, features: F, h: Hasher)
    ensures var longer := ChainHashes(Chain(chain.name, chain.rules + more), env, features, h);
      |longer| == |chain.rules| + |more| && longer[..|chain.rules|] == ChainHashes(chain, env, features, h)
  {
    var n := |chain.rules|;
    assert (chain.rules + more)[..n] == chain.rules[..n];
    HashesPrefixStable(chain.name, chain.rules + more, chain.rules, n, env, features, h);
  }

  // ---- Chaining: a changed history changes the digest, or the digest collides ----

  /** The bytes written into the digest for step `k`: the chain name at step
      0, then the previous digest followed by the `k`-th rule's hashed line. */
  function DigestInput<A, F>(name: string, rules: seq<Rule<A>>, k: nat, env: Renderers<A, F>, features: F, h: Hasher): (input: seq<Byte>)
    requires k <= |rules|
    ensures h.digest(input) == DigestAfter(name, rules, k, env, features, h)
  {
    if k == 0 then StringBytes(name)
    else DigestAfter(name, rules, k - 1, env, features, h) + StringBytes(HashedLine(name, rules[k - 1], env, features))
  }

  /** At step `i` two chains feed the digest different bytes and still get
      the same sum: a SHA-224 collision between two concrete byte strings. */
  predicate Collides<A, F>(name1: string, rules1: seq<Rule<A>>, name2: string, rules2: seq<Rule<A>>,
                           i: nat, env: Renderers<A, F>, features: F, h: Hasher)
    requires i <= |rules1| && i <= |rules2|
  {
    && DigestInput(name1, rules1, i, env, features, h) != DigestInput(name2, rules2, i, env, features, h)
    && h.digest(DigestInput(name1, rules1, i, env, features, h)) == h.digest(DigestInput(name2, rules2, i, env, features, h))
  }

  /** Equal running digests after `k` rules mean the same chain-name bytes
      and the same hashed text for each of the first `k` rules, unless the
      digest collides on the inputs of one of the steps 0..k. */
  lemma {:induction false} EqualDigestsAgreeOnHistory<A, F>(name1: string, rules1: seq<Rule<A>>, name2: string, rules2: seq<Rule<A>>,
                                                           k: nat, env: Renderers<A, F>, features: F, h: Hasher)
    requires k <= |rules1| && k <= |rules2|
    requires DigestAfter(name1, rules1, k, env, features, h) == DigestAfter(name2, rules2, k, env, features, h)
    ensures || (&& StringBytes(name1) == StringBytes(name2)
                && forall i :: 0 <= i < k ==>
                     StringBytes(HashedLine(name1, rules1[i], env, features)) == StringBytes(HashedLine(name2, rules2[i], env, features)))
            || exists i :: 0 <= i <= k && Collides(name1, rules1, name2, rules2, i, env, features, h)
  {
    if DigestInput(name1, rules1, k, env, features, h) != DigestInput(name2, rules2, k, env, features, h) {
      assert Collides(name1, rules1, name2, rules2, k, env, features, h);
    } else if k > 0 {
      var d1: seq<Byte> := DigestAfter(name1, rules1, k - 1, env, features, h);
      var d2: seq<Byte> := DigestAfter(name2, rules2, k - 1, env, features, h);
      var t1: seq<Byte> := StringBytes(HashedLine(name1, rules1[k - 1], env, features));
      var t2: seq<Byte> := StringBytes(HashedLine(name2, rules2[k - 1], env, features));
      SplitAfterDigest(d1, t1, d2, t2);
      EqualDigestsAgreeOnHistory(name1, rules1, name2, rules2, k - 1, env, features, h);
    }
  }

  /** Two byte strings that each start with a digest-sized block and are
      equal have equal blocks and equal remainders. */
  lemma SplitAfterDigest(d1: seq<Byte>, t1: seq<Byte>, d2: seq<Byte>, t2: seq<Byte>)
    requires |d1| == DigestSize && |d2| == DigestSize && d1 + t1 == d2 + t2
    ensures d1 == d2 && t1 == t2
  {
    assert d1 == (d1 + t1)[..DigestSize];
    assert d2 == (d2 + t2)[..DigestSize];
    assert t1 == (d1 + t1)[DigestSize..];
    assert t2 == (d2 + t2)[DigestSize..];
  }

  /** Once two chains' running digests differ, they differ at every later
      position unless the digest collides at a step in between: changing,
      inserting or removing a rule changes the digest of that rule and of
      every rule after it. */
  lemma {:induction false} DivergencePropagates<A, F>(name1: string, rules1: seq<Rule<A>>, name2: string, rules2: seq<Rule<A>>,
                                                     k: nat, j: nat, env: Renderers<A, F>, features: F, h: Hasher)
    requires k <= j <= |rules1| && j <= |rules2|
    requires DigestAfter(name1, rules1, k, env, features, h) != DigestAfter(name2, rules2, k, env, features, h)
    ensures || DigestAfter(name1, rules1, j, env, features, h) != DigestAfter(name2, rules2, j, env, features, h)
            || exists i :: k < i <= j && Collides(name1, rules1, name2, rules2, i, env, features, h)
    decreases j
  {
    if j > k {
      DivergencePropagates(name1, rules1, name2, rules2, k, j - 1, env, features, h);
      if DigestAfter(name1, rules1, j - 1, env, features, h) != DigestAfter(name2, rules2, j - 1, env, features, h)
         && DigestAfter(name1, rules1, j, env, features, h) == DigestAfter(name2, rules2, j, env, features, h) {
        StepCollides(name1, rules1, name2, rules2, j, env, features, h);
      }
    }
  }

  /** Different digests before step `j` but equal digests after it: the
      inputs of step `j` collide. */
  lemma StepCollides<A, F>(name1: string, rules1: seq<Rule<A>>, name2: string, rules2: seq<Rule<A>>,
                           j: nat, env: Renderers<A, F>, features: F, h: Hasher)
    requires 0 < j <= |rules1| && j <= |rules2|
    requires DigestAfter(name1, rules1, j - 1, env, features, h) != DigestAfter(name2, rules2, j - 1, env, features, h)
    requires DigestAfter(name1, rules1, j, env, features, h) == DigestAfter(name2, rules2, j, env, features, h)
    ensures Collides(name1, rules1, name2, rules2, j, env, features, h)
  {
    var d1: seq<Byte> := DigestAfter(name1, rules1, j - 1, env, features, h);
    var d2: seq<Byte> := DigestAfter(name2, rules2, j - 1, env, features, h);
    var t1: seq<Byte> := StringBytes(HashedLine(name1, rules1[j - 1], env, features));
    var t2: seq<Byte> := StringBytes(HashedLine(name2, rules2[j - 1], env, features));
    assert d1 + t1 != d2 + t2 by {
      if d1 + t1 == d2 + t2 {
        SplitAfterDigest(d1, t1, d2, t2);
      }
    }
    assert DigestInput(name1, rules1, j, env, features, h) == d1 + t1;
    assert DigestInput(name2, rules2, j, env, features, h) == d2 + t2;
  }

  /** The converse direction: the same name bytes and the same hashed text for
      each of the first `k` rules give the same digest after `k` rules. */
  lemma {:induction false} SameHistorySameDigest<A, F>(name1: string, rules1: seq<Rule<A>>, name2: string, rules2: seq<Rule<A>>,
                                                      k: nat, env: Renderers<A, F>, features: F, h: Hasher)
    requires k <= |rules1| && k <= |rules2|
    requires StringBytes(name1) == StringBytes(name2)
    requires forall i :: 0 <= i < k ==>
      StringBytes(HashedLine(name1, rules1[i], env, features)) == StringBytes(HashedLine(name2, rules2[i], env, features))
    ensures DigestAfter(name1, rules1, k, env, features, h) == DigestAfter(name2, rules2, k, env, features, h)
  {
    if k > 0 {
      SameHistorySameDigest(name1, rules1, name2, rules2, k - 1, env, features, h);
    }
  }

  /** Chains whose names differ as bytes have different running digests at
      every position, whatever their rules, unless the digest collides at
      one of the steps 0..k. */
  lemma NameSensitivity<A, F>(name1: string, rules1: seq<Rule<A>>, name2: string, rules2: seq<Rule<A>>,
                              k: nat, env: Renderers<A, F>, features: F, h: Hasher)
    requires StringBytes(name1) != StringBytes(name2)
    requires k <= |rules1| && k <= |rules2|
    ensures || DigestAfter(name1, rules1, k, env, features, h) != DigestAfter(name2, rules2, k, env, features, h)
            || exists i :: 0 <= i <= k && Collides(name1, rules1, name2, rules2, i, env, features, h)
  {
    if DigestAfter(name1, rules1, 0, env, features, h) == DigestAfter(name2, rules2, 0, env, features, h) {
      assert Collides(name1, rules1, name2, rules2, 0, env, features, h);
    } else {
      DivergencePropagates(name1, rules1, name2, rules2, 0, k, env, features, h);
    }
  }

  /** A rule hash is already made of comment-safe characters, so it passes
      through the comment escaper unchanged and can be embedded as a prefix
      or in a comment as it is. */
  lemma HashesAreCommentSafe<A, F>(chain: Chain<A>, env: Renderers<A, F>, features: F, h: Hasher, i: nat)
    requires i < |chain.rules|
    ensures EscapeComment(ChainHashes(chain, env, features, h)[i]) == ChainHashes(chain, env, features, h)[i]
  {
    var s := ChainHashes(chain, env, features, h)[i];
    var e := h.encode(DigestAfter(chain.name, chain.rules, i + 1, env, features, h));
    assert forall j :: 0 <= j < |s| ==> s[j] == e[j] && IsHashChar(e[j]);
    assert AllSafe(s);
    EscapeFixpoints(s);
  }
}
