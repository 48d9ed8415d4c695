/**
 * The token layer under the P3 reader and writer: `java.util.Scanner`'s
 * whitespace-delimited tokens with `#` comments skipped to the end of their
 * line, `Integer.parseInt`, and `String.valueOf(int)`.
 */
module Text {
  import opened Results
  import opened JavaInt
  import opened Seqs

  /** The ASCII characters `Character.isWhitespace` accepts, which are the
      delimiters of a default `Scanner`. */
  predicate IsWhitespace(c: char) {
    c == ' ' || c == '\t' || c == '\n' || c == '\U{000B}' || c == '\U{000C}' || c == '\r'
    || ('\U{001C}' <= c <= '\U{001F}')
  }

  /** The characters that end a line for `Scanner.nextLine`. */
  predicate IsLineEnd(c: char) {
    c == '\n' || c == '\r'
  }

  predicate AllWhitespace(s: string) {
    forall i :: 0 <= i < |s| ==> IsWhitespace(s[i])
  }

  predicate NoWhitespace(s: string) {
    forall i :: 0 <= i < |s| ==> !IsWhitespace(s[i])
  }

  predicate NoLineEnd(s: string) {
    forall i :: 0 <= i < |s| ==> !IsLineEnd(s[i])
  }

  /** A string that reads back as exactly one token. */
  predicate IsWord(w: string) {
    |w| > 0 && NoWhitespace(w) && w[0] != '#'
  }

  /** `t` is empty or starts with a delimiter, so a token before it ends there. */
  predicate Separated(t: string) {
    t == [] || IsWhitespace(t[0])
  }

  /** The delimiter run skipped before a token. */
  function SkipWhitespace(s: string): (t: string)
    ensures |t| <= |s|
    ensures t == [] || !IsWhitespace(t[0])
  {
    if |s| > 0 && IsWhitespace(s[0]) then SkipWhitespace(s[1..]) else s
  }

  /** `Scanner.nextLine`: the input after the first line end, or nothing if
      there is none. */
  function SkipLine(s: string): (t: string)
    ensures |t| <= |s|
    ensures |s| > 0 ==> |t| < |s|
  {
    if |s| == 0 then s
    else if IsLineEnd(s[0]) then s[1..]
    else SkipLine(s[1..])
  }

  /** The longest delimiter-free prefix: `Scanner.next` once delimiters
      are skipped. */
  function Word(s: string): (w: string)
    ensures |w| <= |s|
    ensures |s| > 0 && !IsWhitespace(s[0]) ==> |w| > 0
  {
    if |s| > 0 && !IsWhitespace(s[0]) then [s[0]] + Word(s[1..]) else []
  }

  /** `readNextToken`: the next token that does not start with `#`, with the
      rest of the input. A token that starts with `#` is discarded with the
      rest of its line; running out of input is an I/O failure. */
  function NextToken(s: string): (r: Result<(string, string)>)
    ensures r.Err? ==> r.error == EndOfInput
    ensures r.Ok? ==> |r.value.1| < |s|
    decreases |s|
  {
    var t := SkipWhitespace(s);
    if |t| == 0 then Err(EndOfInput)
    else if t[0] == '#' then NextToken(SkipLine(t))
    else
      var w := Word(t);
      Ok((w, t[|w|..]))
  }

  /** Every token returned is a word: non-empty, delimiter-free, and not
      a comment. */
  lemma {:induction false} NextTokenIsWord(s: string)
    requires NextToken(s).Ok?
    ensures IsWord(NextToken(s).value.0)
    decreases |s|
  {
    var t := SkipWhitespace(s);
    if t[0] == '#' {
      NextTokenIsWord(SkipLine(t));
    } else {
      WordIsDelimiterFree(t);
    }
  }

  /** `Word` keeps the first character and takes no delimiter. */
  lemma {:induction false} WordIsDelimiterFree(s: string)
    ensures NoWhitespace(Word(s))
    ensures |Word(s)| > 0 ==> Word(s)[0] == s[0]
  {
    if |s| > 0 && !IsWhitespace(s[0]) {
      WordIsDelimiterFree(s[1..]);
      var w := Word(s);
      assert forall i :: 1 <= i < |w| ==> w[i] == Word(s[1..])[i - 1];
    }
  }

  predicate IsDigit(c: char) {
    '0' <= c <= '9'
  }

  predicate AllDigits(s: string) {
    forall i :: 0 <= i < |s| ==> IsDigit(s[i])
  }

  /** The number a string of decimal digits denotes. */
  function DigitsValue(s: string): nat
    requires AllDigits(s)
  {
    if |s| == 0 then 0
    else DigitsValue(s[..|s| - 1]) * 10 + (s[|s| - 1] as int - '0' as int)
  }

  function CheckInt32(v: int): (r: Result<int>)
    ensures r.Ok? <==> IsInt32(v)
    ensures r.Ok? ==> r.value == v
    ensures r.Err? ==> r.error == NotANumber
  {
    if IsInt32(v) then Ok(v) else Err(NotANumber)
  }

  /** `Integer.parseInt`: an optional sign, then at least one decimal digit,
      denoting a value in the `int` range; anything else is a
      NumberFormatException (an IllegalArgumentException). */
  function ParseInt(t: string): (r: Result<int>)
    ensures r.Ok? ==> IsInt32(r.value)
    ensures r.Err? ==> r.error == NotANumber && r.error.Kind() == IllegalArgument
  {
    if |t| > 1 && t[0] == '-' && AllDigits(t[1..]) then CheckInt32(-(DigitsValue(t[1..]) as int))
    else if |t| > 1 && t[0] == '+' && AllDigits(t[1..]) then CheckInt32(DigitsValue(t[1..]))
    else if |t| > 0 && AllDigits(t) then CheckInt32(DigitsValue(t))
    else Err(NotANumber)
  }

  function DigitChar(d: int): (c: char)
    requires 0 <= d < 10
    ensures IsDigit(c) && c as int - '0' as int == d
  {
    ('0' as int + d) as char
  }

  /** The decimal digits of `n`, without leading zeros. */
  function NatText(n: nat): (s: string)
    ensures |s| > 0 && AllDigits(s)
  {
    if n < 10 then [DigitChar(n)] else NatText(n / 10) + [DigitChar(n % 10)]
  }

  /** `String.valueOf(int)`. */
  function IntText(n: int): (s: string)
    ensures IsWord(s)
  {
    if n < 0 then "-" + NatText(-n) else NatText(n)
  }

  lemma {:induction false} DigitsOfNatText(n: nat)
    ensures DigitsValue(NatText(n)) == n
  {
    if n >= 10 {
      var s := NatText(n);
      assert s[..|s| - 1] == NatText(n / 10);
      DigitsOfNatText(n / 10);
    }
  }

  /** `Integer.parseInt` reads back what `String.valueOf` writes. */
  lemma ParseIntText(n: int)
    requires IsInt32(n)
    ensures ParseInt(IntText(n)) == Ok(n)
  {
    var t := IntText(n);
    if n < 0 {
      var digits := NatText(-n);
      assert t[1..] == digits by {
        DropFront("-", digits);
      }
      assert t[0] == '-' && |t| > 1 && AllDigits(t[1..]);
      DigitsOfNatText(-n);
      assert ParseInt(t) == CheckInt32(-(DigitsValue(digits) as int));
    } else {
      assert IsDigit(t[0]) && AllDigits(t);
      DigitsOfNatText(n);
      assert ParseInt(t) == CheckInt32(DigitsValue(t));
    }
  }

  lemma {:induction false} SkipWhitespacePrefix(sp: string, s: string)
    requires AllWhitespace(sp)
    ensures SkipWhitespace(sp + s) == SkipWhitespace(s)
  {
    if |sp| > 0 {
      assert (sp + s)[0] == sp[0];
      assert IsWhitespace((sp + s)[0]);
      assert (sp + s)[1..] == sp[1..] + s;
      SkipWhitespacePrefix(sp[1..], s);
    } else {
      assert sp + s == s;
    }
  }

  lemma {:induction false} WordPrefix(w: string, t: string)
    requires NoWhitespace(w) && Separated(t)
    ensures Word(w + t) == w
  {
    if |w| > 0 {
      assert (w + t)[1..] == w[1..] + t;
      WordPrefix(w[1..], t);
    }
  }

  /** A word between delimiters is read as the next token. */
  lemma NextTokenOfWord(sp: string, w: string, t: string)
    requires AllWhitespace(sp) && IsWord(w) && Separated(t)
    ensures NextToken(sp + w + t) == Ok((w, t))
  {
    assert sp + w + t == sp + (w + t);
    SkipWhitespacePrefix(sp, w + t);
    assert SkipWhitespace(w + t) == w + t;
    WordPrefix(w, t);
  }

  lemma {:induction false} SkipLineOfComment(c: string, e: char, s: string)
    requires NoLineEnd(c) && IsLineEnd(e)
    ensures SkipLine(c + [e] + s) == s
  {
    if |c| > 0 {
      assert (c + [e] + s)[1..] == c[1..] + [e] + s;
      SkipLineOfComment(c[1..], e, s);
    }
  }

  /** Only what follows the leading delimiters matters to `NextToken`. */
  lemma NextTokenSkipped(s: string)
    ensures NextToken(SkipWhitespace(s)) == NextToken(s)
  {
    var t := SkipWhitespace(s);
    assert SkipWhitespace(t) == t;
  }

  lemma NextTokenWhitespace(sp: string, x: string)
    requires AllWhitespace(sp)
    ensures NextToken(sp + x) == NextToken(x)
  {
    SkipWhitespacePrefix(sp, x);
    NextTokenSkipped(sp + x);
    NextTokenSkipped(x);
  }

  lemma NextTokenComment(t: string)
    requires |t| > 0 && t[0] == '#'
    ensures NextToken(t) == NextToken(SkipLine(t[1..]))
  {
    assert SkipWhitespace(t) == t;
    assert SkipLine(t) == SkipLine(t[1..]);
  }

  /** A comment, from `#` to the end of its line, is invisible to the reader
      wherever a token is expected. */
  lemma NextTokenSkipsComment(sp: string, c: string, e: char, s: string)
    requires AllWhitespace(sp) && NoLineEnd(c) && IsLineEnd(e)
    ensures NextToken(sp + "#" + c + [e] + s) == NextToken(s)
  {
    var rest := c + [e] + s;
    var x := ['#'] + rest;
    assert sp + "#" + c + [e] + s == sp + x by {
      assert "#" + c + [e] + s == x;
    }
    NextTokenWhitespace(sp, x);
    assert x[0] == '#' && x[1..] == rest;
    NextTokenComment(x);
    SkipLineOfComment(c, e, s);
  }

  /** The tokens a `Scanner` hands out one by one, in order, until input
      runs out. Reading is deterministic, so the lazy scanner and this
      eager list agree token for token. */
  function Tokens(s: string): seq<string>
    decreases |s|
  {
    match NextToken(s)
    case Err(_) => []
    case Ok((w, rest)) => [w] + Tokens(rest)
  }

  /** Only what follows the leading delimiters matters to the token list. */
  lemma TokensAfterWhitespace(sp: string, x: string)
    requires AllWhitespace(sp)
    ensures Tokens(sp + x) == Tokens(x)
  {
    NextTokenWhitespace(sp, x);
  }

  /** A word between delimiters is the next token; the list then goes on
      with what follows it. */
  lemma TokensOfWord(sp: string, w: string, t: string)
    requires AllWhitespace(sp) && IsWord(w) && Separated(t)
    ensures Tokens(sp + w + t) == [w] + Tokens(t)
  {
    NextTokenOfWord(sp, w, t);
  }

  /** A comment line contributes no token. */
  lemma TokensSkipComment(sp: string, c: string, e: char, s: string)
    requires AllWhitespace(sp) && NoLineEnd(c) && IsLineEnd(e)
    ensures Tokens(sp + "#" + c + [e] + s) == Tokens(s)
  {
    NextTokenSkipsComment(sp, c, e, s);
  }

  /** Delimiters alone hold no token. */
  lemma TokensOfWhitespace(sp: string)
    requires AllWhitespace(sp)
    ensures Tokens(sp) == []
  {
    assert sp + [] == sp;
    TokensAfterWhitespace(sp, []);
  }

  /** One scanner step on the token list: the first token, then the list
      of what follows it; no token, no list. */
  lemma TokensStep(s: string)
    ensures NextToken(s).Err? ==> Tokens(s) == []
    ensures NextToken(s).Ok? ==> Tokens(s) == [NextToken(s).value.0] + Tokens(NextToken(s).value.1)
  {
  }

  /** Words laid out each after its delimiter run. */
  function Interleave(gaps: seq<string>, words: seq<string>): string
    requires |gaps| == |words|
    decreases |words|
  {
    if |words| == 0 then "" else gaps[0] + words[0] + Interleave(gaps[1..], words[1..])
  }

  /** Every run is delimiters only and every run but the first separates
      two words; every word reads as one token. */
  predicate Delimited(gaps: seq<string>, words: seq<string>) {
    && |gaps| == |words|
    && (forall i :: 0 <= i < |gaps| ==> AllWhitespace(gaps[i]))
    && (forall i :: 0 < i < |gaps| ==> |gaps[i]| > 0)
    && (forall i :: 0 <= i < |words| ==> IsWord(words[i]))
  }

  lemma {:induction false} InterleaveAppend(g1: seq<string>, w1: seq<string>, g2: seq<string>, w2: seq<string>)
    requires |g1| == |w1| && |g2| == |w2|
    ensures Interleave(g1 + g2, w1 + w2) == Interleave(g1, w1) + Interleave(g2, w2)
    decreases |w1|
  {
    if |w1| == 0 {
      assert g1 + g2 == g2 && w1 + w2 == w2;
    } else {
      assert (g1 + g2)[1..] == g1[1..] + g2;
      assert (w1 + w2)[1..] == w1[1..] + w2;
      InterleaveAppend(g1[1..], w1[1..], g2, w2);
    }
  }

  /** Three words after three runs, spelled out. */
  lemma Interleave3(a: string, b: string, c: string, x: string, y: string, z: string)
    ensures Interleave([a, b, c], [x, y, z]) == a + (x + b + y + c + z)
  {
    var g, w := [a, b, c], [x, y, z];
    assert Interleave(g[2..], w[2..]) == c + z + "";
    assert Interleave(g[1..], w[1..]) == b + y + (c + z + "");
  }

  lemma Regroup(a: string, b: string, c: string)
    ensures a + (b + c) == (a + b) + c
  {
  }

  lemma Regroup4(a: string, b: string, c: string, d: string)
    ensures a + (b + c + d) == a + b + c + d
  {
  }

  lemma EmptyFirst(a: string, b: string)
    ensures "" + a + b == a + b
  {
  }

  /** A line followed by more text, regrouped around the line end. */
  lemma LineRegroup(lead: string, b: string, r: string, i: string)
    requires "\n" + r == i + "\n"
    ensures lead + ((" " + b + "\n") + r) == ((lead + " " + b) + i) + "\n"
  {
    assert lead + ((" " + b + "\n") + r) == (lead + " " + b) + ("\n" + r);
  }

  /** Two laid-out blocks, each closed by a line end, then more text. */
  lemma BlocksRegroup(h: string, i1: string, r: string, i2: string, t: string)
    requires h == i1 + "\n" && "\n" + r == i2 + "\n"
    ensures (h + r) + t == (i1 + i2) + ("\n" + t)
  {
    assert (h + r) + t == i1 + ("\n" + r) + t;
  }

  /** Laying out one block after another keeps the layout delimited when
      the second block's first run is not empty. */
  lemma DelimitedAppend(g1: seq<string>, w1: seq<string>, g2: seq<string>, w2: seq<string>)
    requires Delimited(g1, w1) && Delimited(g2, w2)
    requires |g2| > 0 ==> |g2[0]| > 0
    ensures Delimited(g1 + g2, w1 + w2)
  {
    forall i | 0 <= i < |g1 + g2|
      ensures AllWhitespace((g1 + g2)[i]) && (i > 0 ==> |(g1 + g2)[i]| > 0) && IsWord((w1 + w2)[i])
    {
      if i >= |g1| {
        assert (g1 + g2)[i] == g2[i - |g1|] && (w1 + w2)[i] == w2[i - |g1|];
      }
    }
  }

  lemma DelimitedTail(gaps: seq<string>, words: seq<string>)
    requires Delimited(gaps, words) && |words| > 0
    ensures Delimited(gaps[1..], words[1..])
  {
    forall i | 0 <= i < |gaps| - 1 ensures AllWhitespace(gaps[1..][i]) && IsWord(words[1..][i]) {
      assert gaps[1..][i] == gaps[i + 1];
      assert words[1..][i] == words[i + 1];
    }
  }

  /** The first laid-out word is the first token. */
  lemma InterleaveStep(gaps: seq<string>, words: seq<string>, t: string)
    requires Delimited(gaps, words) && Separated(t) && |words| > 0
    ensures Tokens(Interleave(gaps, words) + t)
              == [words[0]] + Tokens(Interleave(gaps[1..], words[1..]) + t)
  {
    var rest := Interleave(gaps[1..], words[1..]) + t;
    assert Interleave(gaps, words) + t == gaps[0] + words[0] + rest;
    if |words| > 1 {
      assert rest[0] == gaps[1][0];
    }
    TokensOfWord(gaps[0], words[0], rest);
  }

  lemma ConsAppend(w: seq<string>, u: seq<string>)
    requires |w| > 0
    ensures [w[0]] + (w[1..] + u) == w + u
  {
    assert [w[0]] + w[1..] == w;
  }

  /** Laid-out words are scanned back as exactly those words. */
  lemma {:induction false} TokensOfInterleave(gaps: seq<string>, words: seq<string>, t: string)
    requires Delimited(gaps, words) && Separated(t)
    ensures Tokens(Interleave(gaps, words) + t) == words + Tokens(t)
    decreases |words|
  {
    if |words| == 0 {
      assert Interleave(gaps, words) + t == t;
    } else {
      InterleaveStep(gaps, words, t);
      DelimitedTail(gaps, words);
      TokensOfInterleave(gaps[1..], words[1..], t);
      ConsAppend(words, Tokens(t));
    }
  }
}
