# iptables rule rendering and chain hashing, in Dafny

This project models the core of Calico's `iptables/rules.go`, which has three parts:

- **Rule renderer.** `Rule.RenderAppend`, `RenderInsert`, `RenderInsertAtRuleNumber` and `RenderReplace` turn a rule into the one line that `iptables-restore` reads.
  - The line holds a verb (`-A`, `-I` or `-R`), the chain name, an optional rule number, an optional prefix fragment, one `-m comment --comment "…"` fragment per comment, the match text and the action text.
  - An empty prefix, match text or action is dropped. The verb and the chain name are always kept, even when the chain name is empty. The fragments are joined with single spaces.
  - Each comment is first escaped (`escapeComment`) and then cut to 256 bytes (`truncateComment`).
- **Chain hasher.** `Chain.RuleHashes` gives every rule a 16-character identity hash.
  - It starts from SHA-224 of the chain name.
  - For each rule, it digests the previous digest followed by the rule's append line, rendered with the fixed prefix `HASH`.
  - It keeps the first 16 characters of the URL-safe base64 encoding of each digest.
- **IP-set scan.** `Chain.IPSetIDs` splits every match string on single spaces. It collects, in order and with duplicates, each word that follows a `--match-set`.

Files and modules:

- `text.dfy` (module `GoText`) writes out the library functions the core relies on: `strings.Join`, `strings.Split(s, " ")` and `fmt.Sprintf("%d", n)`. Each has its inverse proved: splitting undoes joining, and parsing undoes `%d`.
- `rules.dfy` (module `Rules`) holds:
  - the data model: `Rule`, `Chain`, a nil-able chain as `Option`, and the opaque renderers;
  - the escaping and truncation functions;
  - the renderer specification functions `TailFragments` and `RenderedLine`;
  - the renderer methods, which loop as the source does;
  - lemmas about the lines they produce.
- `hashing.dfy` (module `ChainHash`) holds the running digest `DigestAfter`, the `RuleHashes` method, and lemmas on prefix stability and chaining.
- `ipsets.dfy` (module `IPSets`) holds the nested-loop `IPSetIDs` method, its specification functions, and lemmas on what the scan collects and in what order.

How the surroundings are modelled:

- A character of a Dafny `string` stands for one byte of the Go string. `[]byte(s)` is `StringBytes`, which takes each character code modulo 256.
- `MatchCriteria` is a list of match strings, as the conversion at `iptables/rules.go:175` shows.
- `MatchCriteria.Render` and `Action.ToFragment(features)` are defined outside this file. They are the two function fields of `Renderers`. The action and `Features` types are type parameters.
- SHA-224 and `base64.RawURLEncoding` are the two function fields of `Hasher`. Only the shape of their results is assumed:
  - a sum is exactly 28 bytes;
  - an encoding is at least 16 characters, all from the URL-safe base64 alphabet.
  Nothing is assumed about collisions. The chaining lemmas conclude "the histories agree, or the digest maps two different concrete inputs of this chain pair to the same sum" (`Collides`).

Two details of the code that the model follows:

- The IP-set scan splits on the single space character (`strings.Split(matchString, " ")`), not on any whitespace. Consecutive spaces give empty words.
- An empty comment list, empty match text and empty action are all modelled as the code handles them: they are simply skipped.

## Model

| member | source | states |
|---|---|---|
| `GoText.JoinLength` | iptables/rules.go:82 | a join is as long as its parts plus one separator between each two consecutive parts, and it starts with the first part |
| `GoText.JoinConcat` | iptables/rules.go:82 | joining a concatenation puts exactly one separator at the seam, and none when either side is empty |
| `GoText.SplitSpaces` | iptables/rules.go:176 | splitting on a space always yields at least one piece |
| `GoText.SplitPiecesSpaceFree` | iptables/rules.go:176 | no piece of a split contains a space |
| `GoText.JoinSplit` | iptables/rules.go:176 | joining the pieces of a split with single spaces gives back the original string |
| `GoText.SplitJoin` | iptables/rules.go:176 | splitting a single-space join of at least one space-free word gives back exactly those words |
| `GoText.Decimal` | iptables/rules.go:52-62 | `%d` of an int is non-empty, starts with `-` exactly for negative numbers, and has only digits after the first character |
| `GoText.NatDecimal` | iptables/rules.go:54 | the decimal digits of a natural number are non-empty, all digits, and have no leading zero |
| `GoText.DecimalRoundTrip` | iptables/rules.go:54 | `%d` of an int is one non-empty, space-free token that starts with `-` exactly for negative numbers and parses back to the number |
| `Rules.EscapeComment` | iptables/rules.go:85-98 | escaping keeps the length; every safe character (ASCII letters, digits, `_`, space, `@%+=:,./-`) stays in place; every other character becomes `_` |
| `Rules.EscapedIsSafe` | iptables/rules.go:85-98 | every character of an escaped comment is safe, so it has no `"` and no backtick |
| `Rules.EscapeFixpoints` | iptables/rules.go:85-98 | escaping leaves a string unchanged exactly when it is already all safe, and escaping is idempotent |
| `Rules.TruncateComment` | iptables/rules.go:100-107 | the cut comment has length min(len, 256) and is a prefix of the input |
| `Rules.TruncateFixpoints` | iptables/rules.go:100-107 | truncation is the identity exactly when len <= 256, and it is idempotent |
| `Rules.EscapeTruncateCommute` | iptables/rules.go:69-70 | escaping then cutting gives the same text as cutting then escaping |
| `Rules.CommentMatchShape` | iptables/rules.go:71 | the comment fragment is `-m comment --comment "`, the comment text itself, and a closing `"` |
| `Rules.CommentFragmentQuoting` | iptables/rules.go:68-72 | a comment's fragment wraps a safe text that is a prefix of the escaped comment, of length min(len, 256), and the fragment's only `"` characters are the two delimiters |
| `Rules.RenderInner` | iptables/rules.go:64-83 | the line is the space-join of the given directive tokens, then the prefix if non-empty, one comment fragment per comment in order, the match text if non-empty and the action text if non-empty |
| `Rules.RenderAppend` | iptables/rules.go:40-44 | the line is the rendered line for the append directive (`-A`, chain) |
| `Rules.RenderInsert` | iptables/rules.go:46-50 | the line is the rendered line for the insert directive (`-I`, chain) |
| `Rules.RenderInsertAtRuleNumber` | iptables/rules.go:52-56 | the line is the rendered line for a numbered insert (`-I`, chain, decimal rule number) |
| `Rules.RenderReplace` | iptables/rules.go:58-62 | the line is the rendered line for a replace (`-R`, chain, decimal rule number) |
| `Rules.LeadingTokens` | iptables/rules.go:40-62 | each line begins with its verb and the chain name, and the numbered insert and replace alone add the decimal rule number; everything after the leading tokens is the same text for every directive, either empty or starting with a space |
| `Rules.TailFragmentsNonEmpty` | iptables/rules.go:65-81 | no fragment after the directive tokens is empty |
| `Rules.PrefixPlacement` | iptables/rules.go:65-67 | the prefix is the token right after the directive tokens exactly when it is non-empty; an empty prefix gives the same fragments as having no prefix |
| `Rules.TailWithPrefix` | iptables/rules.go:65-67 | a non-empty prefix comes right before the fragments the rule has without a prefix |
| `Rules.AppendActionOnly` | iptables/rules.go:40-83 | a rule with no comments, empty match text and action `-j ACCEPT` renders as `-A <chain> -j ACCEPT` |
| `ChainHash.HashedLineShape` | iptables/rules.go:143 | the text hashed for a rule is its append line with the fixed token `HASH` in the prefix position; the caller's prefix never enters it |
| `ChainHash.RuleHashes` | iptables/rules.go:114-168 | a nil chain gives no hashes; otherwise there is one hash per rule, in order, each the first 16 characters of the encoding of the running digest (seeded with the digest of the chain name, then the digest of the previous digest followed by the rule's hashed line), made of URL-safe base64 characters |
| `ChainHash.StringBytes` | iptables/rules.go:122 | the byte string of a text (the chain name here, each hashed line at line 144) has one byte per character |
| `ChainHash.DigestInput` | iptables/rules.go:121-153 | the bytes written into the digest at a step (the chain name at step 0, otherwise the previous sum followed by the rule's hashed line) digest to the running digest `DigestAfter` at that step |
| `ChainHash.DigestAfterPrefix` | iptables/rules.go:130-153 | the running digest after k rules depends only on the chain name and the first k rules |
| `ChainHash.HashesPrefixStable` | iptables/rules.go:130-156 | two chains with the same name that agree on their first j rules have equal hashes before position j |
| `ChainHash.HashesExtend` | iptables/rules.go:130-156 | appending rules to a chain leaves the hashes of its existing rules unchanged |
| `ChainHash.EqualDigestsAgreeOnHistory` | iptables/rules.go:121-153 | equal running digests after k rules imply the same chain-name bytes and the same hashed text for each of the first k rules, unless the digest collides on the two chains' inputs at one of the steps 0..k |
| `ChainHash.SameHistorySameDigest` | iptables/rules.go:121-153 | conversely, the same chain-name bytes and hashed texts give the same running digest |
| `ChainHash.DivergencePropagates` | iptables/rules.go:130-153 | once two chains' running digests differ at a position, they differ at every later position, unless the digest collides on the two chains' inputs at a step in between |
| `ChainHash.NameSensitivity` | iptables/rules.go:119-122 | chains whose names differ as bytes have different running digests at every position, unless the digest collides on the two chains' inputs at one of the steps up to that position |
| `ChainHash.HashesAreCommentSafe` | iptables/rules.go:154-156 | a rule hash passes through the comment escaper unchanged |
| `IPSets.IPSetIDs` | iptables/rules.go:170-185 | a nil chain gives nothing; otherwise the result is the words after each `--match-set`, collected in rule order, then match-string order, then word order |
| `IPSets.FlagArgsUpToMembers` | iptables/rules.go:177-181 | after k steps of the word loop, a word has been collected exactly when some `--match-set` at an index below k is directly followed by it |
| `IPSets.FlagArgsMembers` | iptables/rules.go:177-181 | a word is collected from a word list exactly when some `--match-set` is directly followed by it; a `--match-set` in last position collects nothing |
| `IPSets.FlagArgsInWordOrder` | iptables/rules.go:177-181 | the loop's accumulation equals the front-to-back scan, so references come out in word order with duplicates kept |
| `IPSets.TrailingFlagIgnored` | iptables/rules.go:178 | a `--match-set` appended as the last word adds nothing of its own; it is collected only as the argument of a `--match-set` just before it |
| `IPSets.FlagArgsUpToStable` | iptables/rules.go:177-181 | words added at the end leave the earlier collection unchanged, except that they can supply the argument of a trailing flag |
| `IPSets.RulesRefsConcat` | iptables/rules.go:174-183 | the references of a concatenation of rule lists are the references of the first list followed by those of the second |
| `IPSets.TwoSetsExample` | iptables/rules.go:170-185 | a rule whose match string is `-m set --match-set setA src -m set --match-set setB dst` (the words joined by spaces) yields `["setA", "setB"]` |
| `IPSets.NoFlagNoRefs` | iptables/rules.go:176-181 | a match string none of whose words is `--match-set` yields nothing |
| `IPSets.OneStringChain` | iptables/rules.go:170-185 | a chain of one rule with one match string refers to exactly that string's sets |

## Left out

- SHA-224 (`sha256.New224`) and `base64.RawURLEncoding` are foreign library code. They are the parameters of `Hasher`, with only the length of their results and the alphabet of the encoding assumed.
- The error paths are not modelled. These are the `log…Panic` calls after each hash write (iptables/rules.go:123-127, 136-151). In-memory hash writes cannot fail, so the writes are total.
- The debug logging at iptables/rules.go:157-165 is output only and is not modelled.
- `MatchCriteria.Render`, `Action.ToFragment` and `Features` are defined outside this file. The two renderers are the fields of `Renderers`, and `Features` is a type parameter.
- The regular-expression engine and Go's UTF-8 handling are not modelled.
  - A character stands for one byte.
  - `escapeComment` works per character, while Go replaces a whole multi-byte rune with one `_`.
  - Truncation counts characters as bytes.
  - `StringBytes` maps a character above 255 to its code modulo 256.
- Go's `int` for rule numbers is an unbounded `int` here. `%d` is written out as `Decimal`.
- ChainHash.NameSensitivity: weaker than "different chain names give different hashes". It allows the alternative that SHA-224 collides on one of the chains' digest inputs, and it is about the 28-byte running digests. Inequality of the 16-character hashes would also need the cut-down encoding to be free of collisions.
- ChainHash.DivergencePropagates: weaker than "a changed rule changes its hash and all later hashes", for the same two reasons: a collision at a later step is allowed, and it speaks of digests, not of the cut-down hashes.
- ChainHash.EqualDigestsAgreeOnHistory: allows the alternative of a collision at one of the steps, since no function from byte strings to 28-byte sums is free of collisions.
- Determinism of rendering and hashing is not stated as a separate property: every specification function is a mathematical function of its inputs.
