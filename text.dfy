/** The three pieces of Go's standard library that the rule renderer and the
    IP-set scan rely on, written out: strings.Join, strings.Split on a single
    space, and fmt's "%d" rendering of an int. Each comes with the partner
    that pins it down (Split undoes Join, parsing undoes "%d"). */
module GoText {

  /** strings.Join: the parts with `sep` between consecutive ones, and no
      separator before the first or after the last. */
  function Join(parts: seq<string>, sep: string): string
  {
    if |parts| == 0 then ""
    else if |parts| == 1 then parts[0]
    else parts[0] + sep + Join(parts[1..], sep)
  }

  /** The summed lengths of the parts. */
  function TotalLength(parts: seq<string>): nat
  {
    if parts == [] then 0 else |parts[0]| + TotalLength(parts[1..])
  }

  /** A join is as long as its parts plus one separator between each two
      consecutive parts, and starts with the first part. */
  lemma {:induction false} JoinLength(parts: seq<string>, sep: string)
    ensures |Join(parts, sep)| == TotalLength(parts) + (if parts == [] then 0 else (|parts| - 1) * |sep|)
    ensures parts != [] ==> parts[0] <= Join(parts, sep)
  {
    if |parts| > 1 {
      JoinLength(parts[1..], sep);
    }
  }

  /** Joining a concatenation puts exactly one separator at the seam, and
      none when either side is empty. */
  lemma {:induction false} JoinConcat(a: seq<string>, b: seq<string>, sep: string)
    ensures Join(a + b, sep) ==
      if a == [] then Join(b, sep)
      else if b == [] then Join(a, sep)
      else Join(a, sep) + sep + Join(b, sep)
  {
    if a == [] {
      assert a + b == b;
    } else if b == [] {
      assert a + b == a;
    } else if |a| == 1 {
      assert (a + b)[1..] == b;
    } else {
      assert (a + b)[1..] == a[1..] + b;
      JoinConcat(a[1..], b, sep);
    }
  }

  /** Joining two or three parts. */
  lemma JoinShort(a: string, b: string, c: string, sep: string)
    ensures Join([a, b], sep) == a + sep + b
    ensures Join([a, b, c], sep) == a + sep + b + sep + c
  {
    assert [a, b][1..] == [b];
    assert [a, b, c][1..] == [b, c];
    assert [b, c][1..] == [c];
    assert Join([b, c], sep) == b + sep + c;
  }

  /** strings.Split(s, " "): the pieces of `s` between its spaces, in order
      (empty pieces included, so there is always one more piece than spaces). */
  function SplitSpaces(s: string): (words: seq<string>)
    ensures |words| >= 1
  {
    if s == [] then [""]
    else
      var rest := SplitSpaces(s[1..]);
      if s[0] == ' ' then [""] + rest
      else [[s[0]] + rest[0]] + rest[1..]
  }

  predicate SpaceFree(s: string)
  {
    ' ' !in s
  }

  /** No piece of a split holds a space. */
  lemma {:induction false} SplitPiecesSpaceFree(s: string)
    ensures forall i :: 0 <= i < |SplitSpaces(s)| ==> SpaceFree(SplitSpaces(s)[i])
  {
    if s != [] {
      SplitPiecesSpaceFree(s[1..]);
      var rest := SplitSpaces(s[1..]);
      if s[0] != ' ' {
        assert SpaceFree(rest[0]);
        assert SpaceFree([s[0]] + rest[0]);
      }
    }
  }

  /** Joining a first part and the rest. */
  lemma JoinCons(x: string, xs: seq<string>, sep: string)
    ensures Join([x] + xs, sep) == if xs == [] then x else x + sep + Join(xs, sep)
  {
    if xs != [] {
      assert ([x] + xs)[1..] == xs;
    }
  }

  /** Joining the pieces of a split with single spaces gives back the string. */
  lemma {:induction false} JoinSplit(s: string)
    ensures Join(SplitSpaces(s), " ") == s
  {
    if s != [] {
      JoinSplit(s[1..]);
      var rest := SplitSpaces(s[1..]);
      assert s == [s[0]] + s[1..];
      if s[0] == ' ' {
        JoinCons("", rest, " ");
      } else {
        var tail := rest[1..];
        assert rest == [rest[0]] + tail;
        JoinCons(rest[0], tail, " ");
        JoinCons([s[0]] + rest[0], tail, " ");
      }
    }
  }

  /** Splitting a single-space join of space-free words gives back the words. */
  lemma {:induction false} SplitJoin(words: seq<string>)
    requires |words| >= 1
    requires forall i :: 0 <= i < |words| ==> SpaceFree(words[i])
    ensures SplitSpaces(Join(words, " ")) == words
  {
    if |words| == 1 {
      SplitSpaceFree(words[0]);
    } else {
      SplitJoin(words[1..]);
      JoinConcat([words[0]], words[1..], " ");
      assert words == [words[0]] + words[1..];
      SplitAfterWord(words[0], Join(words[1..], " "));
    }
  }

  /** A space-free string splits into itself. */
  lemma {:induction false} SplitSpaceFree(w: string)
    requires SpaceFree(w)
    ensures SplitSpaces(w) == [w]
  {
    if w != [] {
      assert SpaceFree(w[1..]) by { assert forall k :: 0 <= k < |w[1..]| ==> w[1..][k] == w[k + 1]; }
      SplitSpaceFree(w[1..]);
      assert w == [w[0]] + w[1..];
    }
  }

  /** A space-free word then a space: the word is the first piece. */
  lemma {:induction false} SplitAfterWord(w: string, t: string)
    requires SpaceFree(w)
    ensures SplitSpaces(w + " " + t) == [w] + SplitSpaces(t)
  {
    if w == [] {
      assert w + " " + t == [' '] + t;
      assert (w + " " + t)[1..] == t;
    } else {
      assert SpaceFree(w[1..]) by { assert forall k :: 0 <= k < |w[1..]| ==> w[1..][k] == w[k + 1]; }
      SplitAfterWord(w[1..], t);
      assert (w + " " + t)[1..] == w[1..] + " " + t;
      assert w == [w[0]] + w[1..];
    }
  }

  // ---- fmt.Sprintf("%d", n) ----

  function DigitChar(d: nat): char
    requires d < 10
  {
    "0123456789"[d]
  }

  predicate IsDigit(ch: char)
  {
    '0' <= ch <= '9'
  }

  function DigitValue(ch: char): nat
    requires IsDigit(ch)
  {
    ch as int - '0' as int
  }

  predicate AllDigits(s: string)
  {
    forall i :: 0 <= i < |s| ==> IsDigit(s[i])
  }

  /** The decimal digits of a natural number, most significant first, with no
      leading zero. */
  function NatDecimal(n: nat): (s: string)
    ensures |s| >= 1 && AllDigits(s)
    ensures n >= 10 ==> s[0] != '0'
  {
    if n < 10 then [DigitChar(n)] else NatDecimal(n / 10) + [DigitChar(n % 10)]
  }

  /** "%d": a minus sign for negative numbers, then the digits of the magnitude. */
  function Decimal(n: int): (s: string)
    ensures |s| >= 1 && (s[0] == '-' <==> n < 0)
    ensures forall i :: 0 < i < |s| ==> IsDigit(s[i])
  {
    if n < 0 then "-" + NatDecimal(-n) else NatDecimal(n)
  }

  /** The number a string of digits denotes. */
  function ParseNat(s: string): nat
    requires AllDigits(s)
  {
    if s == [] then 0 else ParseNat(s[..|s| - 1]) * 10 + DigitValue(s[|s| - 1])
  }

  /** The number a "%d" text denotes: optional minus sign, then digits. */
  function ParseDecimal(s: string): int
    requires |s| >= 1
    requires if s[0] == '-' then AllDigits(s[1..]) else AllDigits(s)
  {
    if s[0] == '-' then -(ParseNat(s[1..]) as int) else ParseNat(s)
  }

  lemma {:induction false} ParseNatDecimal(n: nat)
    ensures ParseNat(NatDecimal(n)) == n
  {
    if n >= 10 {
      ParseNatDecimal(n / 10);
      var s := NatDecimal(n);
      assert s[..|s| - 1] == NatDecimal(n / 10);
    }
  }

  /** "%d" is one token (non-empty, no space) that starts with a minus sign
      exactly for negative numbers, and reads back as the number it renders,
      so distinct rule numbers render distinctly. */
  lemma DecimalRoundTrip(n: int)
    ensures |Decimal(n)| >= 1 && SpaceFree(Decimal(n))
    ensures Decimal(n)[0] == '-' <==> n < 0
    ensures ParseDecimal(Decimal(n)) == n
  {
    var m: nat := if n < 0 then -n else n;
    var digits := NatDecimal(m);
    DigitsSpaceFree(digits);
    ParseNatDecimal(m);
    if n < 0 {
      var s := Decimal(n);
      assert s == "-" + digits;
      assert s[1..] == digits;
      assert s[0] == '-';
      assert forall k :: 1 <= k < |s| ==> s[k] == digits[k - 1];
    } else {
      assert Decimal(n) == digits && IsDigit(digits[0]);
    }
  }

  lemma DigitsSpaceFree(s: string)
    requires AllDigits(s)
    ensures SpaceFree(s) && SpaceFree("-" + s)
  {
    assert forall k :: 0 <= k < |s| ==> s[k] != ' ';
    assert forall k :: 1 <= k < |"-" + s| ==> ("-" + s)[k] == s[k - 1];
  }
}
