/** Rules and chains, and the rendering of one rule into the line that the
    rule-loading tool reads for an append, insert, numbered insert or replace.

    A character of a `string` here stands for one byte of the Go string. */
module Rules {
  import opened GoText

  /** Number of characters kept from each rule's digest encoding. */
  const HashLength := 16

  /** Number of bytes a comment is cut to after escaping. */
  const MaxCommentLen := 256

  /** Match criteria are a list of already-rendered match strings. */
  type MatchCriteria = seq<string>

  /** A rule: its match criteria, its action (of the opaque type `A`) and its
      comments. */
  datatype Rule<A> = Rule(criteria: MatchCriteria, action: A, comments: seq<string>)

  /** A named chain of rules. */
  datatype Chain<A> = Chain(name: string, rules: seq<Rule<A>>)

  /** A `*Chain` that may be nil. */
  datatype Option<T> = None | Some(value: T)

  /** The two rendering capabilities the rule relies on but does not define:
      MatchCriteria.Render and Action.ToFragment, the latter given the
      platform's `Features` (of the opaque type `F`). */
  datatype Renderers<-A, -F> = Renderers(matchText: MatchCriteria -> string, actionText: (A, F) -> string)

  // ---- Comments ----

  /** The characters the comment escaper keeps: Go's \w (ASCII letters,
      digits, underscore), the space and @ % + = : , . / - */
  predicate IsSafe(ch: char)
  {
    ('a' <= ch <= 'z') || ('A' <= ch <= 'Z') || ('0' <= ch <= '9') || ch == '_' || ch in " @%+=:,./-"
  }

  predicate AllSafe(s: string)
  {
    forall i :: 0 <= i < |s| ==> IsSafe(s[i])
  }

  function EscapeChar(ch: char): char
  {
    if IsSafe(ch) then ch else '_'
  }

  /** escapeComment: every unsafe character becomes an underscore, every safe
      one stays where it is. */
  function EscapeComment(s: string): (r: string)
    ensures |r| == |s|
    ensures forall i :: 0 <= i < |s| ==> (IsSafe(s[i]) ==> r[i] == s[i]) && (!IsSafe(s[i]) ==> r[i] == '_')
  {
    if s == [] then [] else [EscapeChar(s[0])] + EscapeComment(s[1..])
  }

  /** Escaped text is made only of safe characters; in particular it holds
      no double quote and no backtick. */
  lemma EscapedIsSafe(s: string)
    ensures AllSafe(EscapeComment(s))
    ensures '"' !in EscapeComment(s) && '`' !in EscapeComment(s)
  {
    var r := EscapeComment(s);
    assert forall i :: 0 <= i < |r| ==> IsSafe(r[i]);
    assert !IsSafe('"') && !IsSafe('`');
  }

  /** Escaping leaves a string alone exactly when it is already safe; hence
      escaping twice is escaping once. */
  lemma EscapeFixpoints(s: string)
    ensures EscapeComment(s) == s <==> AllSafe(s)
    ensures EscapeComment(EscapeComment(s)) == EscapeComment(s)
  {
    if AllSafe(s) {
      assert forall i :: 0 <= i < |s| ==> EscapeComment(s)[i] == s[i];
    }
    EscapedIsSafe(s);
    var r := EscapeComment(s);
    assert forall i :: 0 <= i < |r| ==> EscapeComment(r)[i] == r[i];
  }

  /** truncateComment: at most MaxCommentLen bytes, cut from the end. */
  function TruncateComment(s: string): (r: string)
    ensures |r| == if |s| > MaxCommentLen then MaxCommentLen else |s|
    ensures r <= s
  {
    if |s| > MaxCommentLen then s[0..MaxCommentLen] else s
  }

  /** Truncation is the identity exactly on short strings, so it is idempotent. */
  lemma TruncateFixpoints(s: string)
    ensures TruncateComment(s) == s <==> |s| <= MaxCommentLen
    ensures TruncateComment(TruncateComment(s)) == TruncateComment(s)
  {
  }

  /** Escaping and truncating, in either order, give the same text, because
      escaping works character by character. */
  lemma EscapeTruncateCommute(s: string)
    ensures TruncateComment(EscapeComment(s)) == EscapeComment(TruncateComment(s))
  {
    var a, b := TruncateComment(EscapeComment(s)), EscapeComment(TruncateComment(s));
    assert |a| == |b|;
    assert forall i :: 0 <= i < |a| ==> a[i] == b[i];
  }

  const CommentOpen := "-m comment --comment \""

  /** The comment-match fragment around an already escaped and truncated
      comment. */
  function CommentMatch(c: string): string
  {
    CommentOpen + c + "\""
  }

  /** The comment-match fragment is the opening text, the comment itself and
      a closing quote. */
  lemma CommentMatchShape(c: string)
    ensures var fragment := CommentMatch(c);
      && |fragment| == |CommentOpen| + |c| + 1
      && fragment[..|CommentOpen|] == CommentOpen
      && fragment[|CommentOpen|..|fragment| - 1] == c
      && fragment[|fragment| - 1] == '"'
  {
  }

  /** The fragment one comment renders to. */
  function CommentFragment(c: string): string
  {
    CommentMatch(TruncateComment(EscapeComment(c)))
  }

  /** A comment's fragment quotes a safe text of min(|c|, MaxCommentLen)
      characters that is the escaped comment's prefix, and its only double
      quotes are the two delimiters. */
  lemma CommentFragmentQuoting(c: string)
    ensures var body := TruncateComment(EscapeComment(c));
      && CommentFragment(c) == CommentOpen + body + "\""
      && |body| == (if |c| > MaxCommentLen then MaxCommentLen else |c|)
      && body <= EscapeComment(c)
      && AllSafe(body)
    ensures forall i :: 0 <= i < |CommentFragment(c)| && CommentFragment(c)[i] == '"' ==>
      i == |CommentOpen| - 1 || i == |CommentFragment(c)| - 1
  {
    var body := TruncateComment(EscapeComment(c));
    EscapedIsSafe(c);
    assert AllSafe(body) by {
      forall i | 0 <= i < |body| ensures IsSafe(body[i]) {
        assert body[i] == EscapeComment(c)[i];
      }
    }
    var f := CommentFragment(c);
    forall i | 0 <= i < |f| && i != |CommentOpen| - 1 && i != |f| - 1
      ensures f[i] != '"'
    {
      if |CommentOpen| <= i {
        assert f[i] == body[i - |CommentOpen|];
        assert IsSafe(body[i - |CommentOpen|]);
      } else {
        assert f[i] == CommentOpen[i];
      }
    }
  }

  /** One fragment per comment, in the comments' order. */
  function CommentFragments(comments: seq<string>): seq<string>
  {
    MapStrings(CommentFragment, comments)
  }

  /** `f` applied to each string, in order. */
  function MapStrings(f: string -> string, xs: seq<string>): seq<string>
  {
    seq(|xs|, i requires 0 <= i < |xs| => f(xs[i]))
  }

  /** Mapping one more string adds its image at the end. */
  lemma MapStringsSnoc(f: string -> string, xs: seq<string>, i: nat)
    requires i < |xs|
    ensures MapStrings(f, xs[..i + 1]) == MapStrings(f, xs[..i]) + [f(xs[i])]
  {
    var a := MapStrings(f, xs[..i + 1]);
    var b := MapStrings(f, xs[..i]) + [f(xs[i])];
    forall k | 0 <= k < |a| ensures a[k] == b[k] {
      assert xs[..i + 1][k] == xs[k];
      if k < i {
        assert xs[..i][k] == xs[k];
      }
    }
  }

  // ---- Lines ----

  /** The four directives and the leading tokens each renders to. */
  datatype Directive = Append | Insert | InsertAt(ruleNum: int) | Replace(ruleNum: int)

  function DirectiveTokens(d: Directive, chainName: string): seq<string>
  {
    match d
    case Append => ["-A", chainName]
    case Insert => ["-I", chainName]
    case InsertAt(n) => ["-I", chainName, Decimal(n)]
    case Replace(n) => ["-R", chainName, Decimal(n)]
  }

  /** A fragment that is present only when it is not empty. */
  function Optional(fragment: string): seq<string>
  {
    if fragment != "" then [fragment] else []
  }

  /** Everything after the directive tokens: the prefix if any, the comment
      fragments, then the match text and the action text if not empty. */
  function TailFragments<A, F>(rule: Rule<A>, prefixFragment: string, env: Renderers<A, F>, features: F): seq<string>
  {
    Optional(prefixFragment)
      + CommentFragments(rule.comments)
      + Optional(env.matchText(rule.criteria))
      + Optional(env.actionText(rule.action, features))
  }

  /** The rendered line: the directive tokens and the tail fragments, joined
      with single spaces. */
  function RenderedLine<A, F>(d: Directive, chainName: string, rule: Rule<A>, prefixFragment: string,
                              env: Renderers<A, F>, features: F): string
  {
    Join(DirectiveTokens(d, chainName) + TailFragments(rule, prefixFragment, env, features), " ")
  }

  /** What follows the directive tokens on the line: nothing, or a space and
      the joined tail. */
  function Rest(tail: seq<string>): (r: string)
    ensures r == "" || r[0] == ' '
  {
    if tail == [] then "" else " " + Join(tail, " ")
  }

  /** renderInner: extend the directive tokens with the tail fragments and
      join them with single spaces. */
  method RenderInner<A, F>(rule: Rule<A>, fragments: seq<string>, prefixFragment: string,
                           env: Renderers<A, F>, features: F) returns (line: string)
    ensures line == Join(fragments + TailFragments(rule, prefixFragment, env, features), " ")
  {
    var parts := fragments;
    if prefixFragment != "" {
      parts := parts + [prefixFragment];
    }
    ghost var lead := parts;
    assert lead == fragments + Optional(prefixFragment);
    for i := 0 to |rule.comments|
      invariant parts == lead + CommentFragments(rule.comments[..i])
    {
      var c := EscapeComment(rule.comments[i]);
      c := TruncateComment(c);
      var commentFragment := CommentMatch(c);
      CommentFragmentsSnoc(rule.comments, i);
      parts := parts + [commentFragment];
    }
    assert rule.comments[..|rule.comments|] == rule.comments;
    ghost var withComments := parts;
    var matchFragment := env.matchText(rule.criteria);
    if matchFragment != "" {
      parts := parts + [matchFragment];
    }
    assert parts == withComments + Optional(matchFragment);
    ghost var withMatch := parts;
    var actionFragment := env.actionText(rule.action, features);
    if actionFragment != "" {
      parts := parts + [actionFragment];
    }
    assert parts == withMatch + Optional(actionFragment);
    ghost var tail := TailFragments(rule, prefixFragment, env, features);
    assert tail == Optional(prefixFragment) + CommentFragments(rule.comments) + Optional(matchFragment) + Optional(actionFragment);
    SeqConcatAssoc(fragments, Optional(prefixFragment), CommentFragments(rule.comments), Optional(matchFragment), Optional(actionFragment));
    line := Join(parts, " ");
  }

  /** Regrouping a concatenation; a separate step only to keep the proof of
      RenderInner small and stable. */
  lemma SeqConcatAssoc(x: seq<string>, a: seq<string>, b: seq<string>, c: seq<string>, d: seq<string>)
    ensures x + (a + b + c + d) == x + a + b + c + d
  {
  }

  lemma CommentFragmentsSnoc(comments: seq<string>, i: nat)
    requires i < |comments|
    ensures CommentFragments(comments[..i + 1]) == CommentFragments(comments[..i]) + [CommentFragment(comments[i])]
  {
    MapStringsSnoc(CommentFragment, comments, i);
  }

  method RenderAppend<A, F>(rule: Rule<A>, chainName: string, prefixFragment: string,
                            env: Renderers<A, F>, features: F) returns (line: string)
    ensures line == RenderedLine(Append, chainName, rule, prefixFragment, env, features)
  {
    var fragments := ["-A", chainName];
    line := RenderInner(rule, fragments, prefixFragment, env, features);
  }

  method RenderInsert<A, F>(rule: Rule<A>, chainName: string, prefixFragment: string,
                            env: Renderers<A, F>, features: F) returns (line: string)
    ensures line == RenderedLine(Insert, chainName, rule, prefixFragment, env, features)
  {
    var fragments := ["-I", chainName];
    line := RenderInner(rule, fragments, prefixFragment, env, features);
  }

  method RenderInsertAtRuleNumber<A, F>(rule: Rule<A>, chainName: string, ruleNum: int, prefixFragment: string,
                                        env: Renderers<A, F>, features: F) returns (line: string)
    ensures line == RenderedLine(InsertAt(ruleNum), chainName, rule, prefixFragment, env, features)
  {
    var fragments := ["-I", chainName, Decimal(ruleNum)];
    line := RenderInner(rule, fragments, prefixFragment, env, features);
  }

  method RenderReplace<A, F>(rule: Rule<A>, chainName: string, ruleNum: int, prefixFragment: string,
                             env: Renderers<A, F>, features: F) returns (line: string)
    ensures line == RenderedLine(Replace(ruleNum), chainName, rule, prefixFragment, env, features)
  {
    var fragments := ["-R", chainName, Decimal(ruleNum)];
    line := RenderInner(rule, fragments, prefixFragment, env, features);
  }

  // ---- Properties of rendered lines ----

  /** Every line starts with its verb and the chain name, and the numbered
      directives, only they, add the rule number as a third token; what
      follows does not depend on the directive. */
  lemma LeadingTokens<A, F>(d: Directive, chainName: string, rule: Rule<A>, prefixFragment: string,
                            env: Renderers<A, F>, features: F)
    ensures var rest := Rest(TailFragments(rule, prefixFragment, env, features));
      && var line := RenderedLine(d, chainName, rule, prefixFragment, env, features);
      && (d == Append ==> line == "-A " + chainName + rest)
      && (d == Insert ==> line == "-I " + chainName + rest)
      && (d.InsertAt? ==> line == "-I " + chainName + " " + Decimal(d.ruleNum) + rest)
      && (d.Replace? ==> line == "-R " + chainName + " " + Decimal(d.ruleNum) + rest)
  {
    DirectiveThenTail(d, chainName, TailFragments(rule, prefixFragment, env, features));
  }

  /** The directive tokens joined, then the rest of the line. */
  lemma DirectiveThenTail(d: Directive, chainName: string, tail: seq<string>)
    ensures var line := Join(DirectiveTokens(d, chainName) + tail, " ");
      && (d == Append ==> line == "-A " + chainName + Rest(tail))
      && (d == Insert ==> line == "-I " + chainName + Rest(tail))
      && (d.InsertAt? ==> line == "-I " + chainName + " " + Decimal(d.ruleNum) + Rest(tail))
      && (d.Replace? ==> line == "-R " + chainName + " " + Decimal(d.ruleNum) + Rest(tail))
  {
    var head := DirectiveTokens(d, chainName);
    JoinHead(head, tail);
    var r := Rest(tail);
    match d
    case Append =>
      JoinShort("-A", chainName, "", " ");
      assert "-A" + " " == "-A ";
    case Insert =>
      JoinShort("-I", chainName, "", " ");
      assert "-I" + " " == "-I ";
    case InsertAt(n) =>
      JoinShort("-I", chainName, Decimal(n), " ");
      assert "-I" + " " == "-I ";
    case Replace(n) =>
      JoinShort("-R", chainName, Decimal(n), " ");
      assert "-R" + " " == "-R ";
  }

  /** The directive tokens and the rest of the line meet at one space. */
  lemma JoinHead(head: seq<string>, tail: seq<string>)
    requires head != []
    ensures Join(head + tail, " ") == Join(head, " ") + Rest(tail)
  {
    JoinConcat(head, tail, " ");
  }

  /** A non-empty prefix is the first tail fragment, before the tail the
      rule has without a prefix. */
  lemma TailWithPrefix<A, F>(rule: Rule<A>, prefixFragment: string, env: Renderers<A, F>, features: F)
    requires prefixFragment != ""
    ensures TailFragments(rule, prefixFragment, env, features) == [prefixFragment] + TailFragments(rule, "", env, features)
  {
    var cs, m, a := CommentFragments(rule.comments), Optional(env.matchText(rule.criteria)), Optional(env.actionText(rule.action, features));
    assert Optional("") == [];
    assert [] + cs == cs;
    assert TailFragments(rule, "", env, features) == cs + m + a;
    ConsConcatAssoc(prefixFragment, cs, m, a);
  }

  /** Regrouping a concatenation; a separate step only to keep the proof of
      TailWithPrefix small and stable. */
  lemma ConsConcatAssoc(x: string, b: seq<string>, c: seq<string>, d: seq<string>)
    ensures [x] + (b + c + d) == [x] + b + c + d
  {
  }

  lemma RestCons(x: string, tail: seq<string>)
    ensures Rest([x] + tail) == " " + x + Rest(tail)
  {
    JoinCons(x, tail, " ");
  }

  /** Every fragment after the directive tokens is non-empty. */
  lemma TailFragmentsNonEmpty<A, F>(rule: Rule<A>, prefixFragment: string, env: Renderers<A, F>, features: F)
    ensures forall i :: 0 <= i < |TailFragments(rule, prefixFragment, env, features)| ==>
      TailFragments(rule, prefixFragment, env, features)[i] != ""
  {
    var cs := CommentFragments(rule.comments);
    forall i | 0 <= i < |cs| ensures |cs[i]| > 0 {
      assert cs[i] == CommentFragment(rule.comments[i]);
      assert |CommentFragment(rule.comments[i])| >= |CommentOpen|;
    }
  }

  /** The prefix is the token right after the directive tokens exactly when
      it is non-empty; an empty prefix leaves no trace on the line. */
  lemma PrefixPlacement<A, F>(d: Directive, chainName: string, rule: Rule<A>, prefixFragment: string,
                              env: Renderers<A, F>, features: F)
    ensures var fs := DirectiveTokens(d, chainName) + TailFragments(rule, prefixFragment, env, features);
      var k := |DirectiveTokens(d, chainName)|;
      (|fs| > k && fs[k] == prefixFragment) <==> prefixFragment != ""
    ensures prefixFragment == "" ==>
      TailFragments(rule, prefixFragment, env, features)
      == CommentFragments(rule.comments) + Optional(env.matchText(rule.criteria))
         + Optional(env.actionText(rule.action, features))
  {
    var head := DirectiveTokens(d, chainName);
    var tail := TailFragments(rule, prefixFragment, env, features);
    if prefixFragment != "" {
      TailWithPrefix(rule, prefixFragment, env, features);
      assert (head + tail)[|head|] == tail[0] == prefixFragment;
    } else {
      TailFragmentsNonEmpty(rule, prefixFragment, env, features);
      assert [] + CommentFragments(rule.comments) == CommentFragments(rule.comments);
      if |tail| > 0 {
        assert (head + tail)[|head|] == tail[0] != "";
      }
    }
  }

  /** An appended rule without comments or match text renders as the verb,
      the chain name and the action. */
  lemma AppendActionOnly<A, F>(chainName: string, rule: Rule<A>, env: Renderers<A, F>, features: F)
    requires rule.comments == [] && env.matchText(rule.criteria) == ""
    requires env.actionText(rule.action, features) == "-j ACCEPT"
    ensures RenderedLine(Append, chainName, rule, "", env, features) == "-A " + chainName + " -j ACCEPT"
  {
    assert TailFragments(rule, "", env, features) == ["-j ACCEPT"];
    LeadingTokens(Append, chainName, rule, "", env, features);
  }
}
