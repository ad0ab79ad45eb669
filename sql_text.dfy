/**
 * The text operations that `process_transcription` applies to a segment's
 * text: Python's `str.replace("'", "''")` (quote doubling) and `str.strip()`
 * (removal of leading and trailing whitespace), together with a reader for the
 * body of a single-quoted SQL string literal, which is what the doubling is for.
 */
module SqlText {
  import opened Wrappers

  const Quote: char := '\''

  /** Python's `str.isspace` for one code point: the characters `str.strip()` with no argument removes. */
  predicate IsSpace(c: char) {
    var n := c as int;
    (0x09 <= n <= 0x0D) || (0x1C <= n <= 0x20) || n == 0x85 || n == 0xA0 || n == 0x1680
    || (0x2000 <= n <= 0x200A) || n == 0x2028 || n == 0x2029 || n == 0x202F || n == 0x205F || n == 0x3000
  }

  predicate AllSpace(s: string) {
    forall k :: 0 <= k < |s| ==> IsSpace(s[k])
  }

  /** Neither end of `s` is whitespace (the empty string included). */
  predicate Trimmed(s: string) {
    s == [] || (!IsSpace(s[0]) && !IsSpace(s[|s| - 1]))
  }

  /** Number of occurrences of `c` in `s`. */
  function Occurrences(s: string, c: char): nat
    decreases |s|
  {
    if s == [] then 0 else (if s[0] == c then 1 else 0) + Occurrences(s[1..], c)
  }

  lemma {:induction false} OccurrencesAppend(a: string, b: string, c: char)
    ensures Occurrences(a + b, c) == Occurrences(a, c) + Occurrences(b, c)
    decreases |a|
  {
    if a != [] {
      assert (a + b)[0] == a[0];
      assert (a + b)[1..] == a[1..] + b;
      OccurrencesAppend(a[1..], b, c);
    } else {
      assert a + b == b;
    }
  }

  lemma {:induction false} OccurrencesAllSpace(s: string)
    requires AllSpace(s)
    ensures Occurrences(s, Quote) == 0
    decreases |s|
  {
    if s != [] {
      assert s[0] != Quote;
      assert AllSpace(s[1..]) by {
        forall k | 0 <= k < |s| - 1 ensures IsSpace(s[1..][k]) { assert s[1..][k] == s[k + 1]; }
      }
      OccurrencesAllSpace(s[1..]);
    }
  }

  // ---------------------------------------------------------------------------
  // Quote doubling: text.replace("'", "''")
  // ---------------------------------------------------------------------------

  /** Every single quote becomes two; every other character is kept, in order (see LiteralRoundTrip). */
  function EscapeQuotes(s: string): (r: string)
    ensures |r| == |s| + Occurrences(s, Quote)
    ensures Occurrences(r, Quote) == 2 * Occurrences(s, Quote)
    decreases |s|
  {
    if s == [] then []
    else
      var head := if s[0] == Quote then [Quote, Quote] else [s[0]];
      var tail := EscapeQuotes(s[1..]);
      OccurrencesAppend(head, tail, Quote);
      head + tail
  }

  lemma {:induction false} EscapeAppend(a: string, b: string)
    ensures EscapeQuotes(a + b) == EscapeQuotes(a) + EscapeQuotes(b)
    decreases |a|
  {
    if a != [] {
      assert (a + b)[0] == a[0];
      assert (a + b)[1..] == a[1..] + b;
      EscapeAppend(a[1..], b);
      var head := if a[0] == Quote then [Quote, Quote] else [a[0]];
      assert EscapeQuotes(a + b) == head + EscapeQuotes(a[1..] + b);
      assert EscapeQuotes(a) == head + EscapeQuotes(a[1..]);
    } else {
      assert a + b == b;
    }
  }

  /** A string without quotes is left as it is. */
  lemma {:induction false} EscapeWithoutQuotes(s: string)
    requires Occurrences(s, Quote) == 0
    ensures EscapeQuotes(s) == s
    decreases |s|
  {
    if s != [] {
      assert s[0] != Quote;
      EscapeWithoutQuotes(s[1..]);
      assert [s[0]] + s[1..] == s;
    }
  }

  /**
   * Every quote of an escaped string belongs to an adjacent pair, read from
   * the left: no lone quote is left that could close a literal.
   */
  predicate QuotesPaired(t: string)
    decreases |t|
  {
    if t == [] then true
    else if t[0] == Quote then |t| >= 2 && t[1] == Quote && QuotesPaired(t[2..])
    else QuotesPaired(t[1..])
  }

  lemma {:induction false} EscapedQuotesPaired(s: string)
    ensures QuotesPaired(EscapeQuotes(s))
    decreases |s|
  {
    if s != [] {
      EscapedQuotesPaired(s[1..]);
      var t := EscapeQuotes(s);
      if s[0] == Quote {
        assert t[2..] == EscapeQuotes(s[1..]);
      } else {
        assert t[1..] == EscapeQuotes(s[1..]);
      }
    }
  }

  // ---------------------------------------------------------------------------
  // Whitespace stripping: str.strip()
  // ---------------------------------------------------------------------------

  /** Length of the longest all-whitespace prefix. */
  function LeadingSpaces(s: string): (n: nat)
    ensures n <= |s|
    ensures forall k :: 0 <= k < n ==> IsSpace(s[k])
    ensures n < |s| ==> !IsSpace(s[n])
    decreases |s|
  {
    if s != [] && IsSpace(s[0]) then 1 + LeadingSpaces(s[1..]) else 0
  }

  /** Length of the longest all-whitespace suffix. */
  function TrailingSpaces(s: string): (n: nat)
    ensures n <= |s|
    ensures forall k :: |s| - n <= k < |s| ==> IsSpace(s[k])
    ensures n < |s| ==> !IsSpace(s[|s| - 1 - n])
    decreases |s|
  {
    if s != [] && IsSpace(s[|s| - 1]) then 1 + TrailingSpaces(s[..|s| - 1]) else 0
  }

  /**
   * Python's `str.strip()`: skip whitespace from the left, then from the right.
   * The result is never longer and neither of its ends is whitespace.
   */
  function Strip(s: string): (r: string)
    ensures |r| <= |s|
    ensures Trimmed(r)
  {
    var t := s[LeadingSpaces(s)..];
    t[..|t| - TrailingSpaces(t)]
  }

  /** A string is the concatenation of its three slices at two cut points. */
  lemma SplitThree(s: string, i: nat, j: nat)
    requires i <= j <= |s|
    ensures s == s[..i] + s[i..j] + s[j..]
  {
  }

  /** Slices of the suffix of `s` that starts at `a` are slices of `s`. */
  lemma SuffixSlices(s: string, a: nat, b: nat)
    requires a + b <= |s|
    ensures s[a..][..b] == s[a..a + b]
    ensures s[a..][b..] == s[a + b..]
  {
  }

  /** A stretch of whitespace characters, taken out as a string, is all whitespace. */
  lemma SpacesBetween(s: string, lo: nat, hi: nat)
    requires lo <= hi <= |s|
    requires forall k :: lo <= k < hi ==> IsSpace(s[k])
    ensures AllSpace(s[lo..hi])
  {
    forall k | 0 <= k < hi - lo ensures IsSpace(s[lo..hi][k]) {
      assert s[lo..hi][k] == s[lo + k];
    }
  }

  /** What stripping leaves is the piece of `s` between its whitespace ends. */
  lemma StripIsSlice(s: string)
    ensures LeadingSpaces(s) + |Strip(s)| <= |s|
    ensures Strip(s) == s[LeadingSpaces(s)..LeadingSpaces(s) + |Strip(s)|]
  {
    var a := LeadingSpaces(s);
    SuffixSlices(s, a, |s[a..]| - TrailingSpaces(s[a..]));
  }

  /** What stripping removes in front is whitespace. */
  lemma StripFrontIsSpace(s: string)
    ensures AllSpace(s[..LeadingSpaces(s)])
  {
    SpacesBetween(s, 0, LeadingSpaces(s));
    assert s[..LeadingSpaces(s)] == s[0..LeadingSpaces(s)];
  }

  /** What stripping removes behind is whitespace. */
  lemma StripBackIsSpace(s: string)
    ensures LeadingSpaces(s) + |Strip(s)| <= |s|
    ensures AllSpace(s[LeadingSpaces(s) + |Strip(s)|..])
  {
    var a := LeadingSpaces(s);
    var t := s[a..];
    var b := |t| - TrailingSpaces(t);
    SuffixSlices(s, a, b);
    SpacesBetween(t, b, |t|);
    assert t[b..] == t[b..|t|];
  }

  /** Stripping leaves nothing exactly when the whole string is whitespace. */
  lemma StripEmpty(s: string)
    ensures Strip(s) == [] <==> AllSpace(s)
  {
    StripLaw(s);
    if Strip(s) == [] {
      var a := LeadingSpaces(s);
      SplitThree(s, a, a);
      assert s == s[..a] + s[a..];
    }
  }

  /**
   * Stripping cuts `s` into an all-whitespace prefix, the result and an
   * all-whitespace suffix; the result is a contiguous piece of `s`, so every
   * interior character, whitespace included, is kept, and neither of its ends
   * is whitespace.
   */
  lemma StripLaw(s: string)
    ensures LeadingSpaces(s) + |Strip(s)| <= |s|
    ensures Strip(s) == s[LeadingSpaces(s)..LeadingSpaces(s) + |Strip(s)|]
    ensures AllSpace(s[..LeadingSpaces(s)])
    ensures AllSpace(s[LeadingSpaces(s) + |Strip(s)|..])
    ensures Trimmed(Strip(s))
  {
    StripIsSlice(s);
    StripFrontIsSpace(s);
    StripBackIsSpace(s);
  }

  /** Whitespace in front adds to the leading count and nothing else. */
  lemma {:induction false} LeadingSpacesAfterSpace(pre: string, t: string)
    requires AllSpace(pre)
    ensures LeadingSpaces(pre + t) == |pre| + LeadingSpaces(t)
    decreases |pre|
  {
    if pre != [] {
      assert (pre + t)[0] == pre[0];
      assert (pre + t)[1..] == pre[1..] + t;
      LeadingSpacesAfterSpace(pre[1..], t);
    } else {
      assert pre + t == t;
    }
  }

  /** Whitespace behind adds to the trailing count and nothing else. */
  lemma {:induction false} TrailingSpacesBeforeSpace(t: string, suf: string)
    requires AllSpace(suf)
    ensures TrailingSpaces(t + suf) == TrailingSpaces(t) + |suf|
    decreases |suf|
  {
    if suf != [] {
      var n := |suf| - 1;
      assert (t + suf)[|t + suf| - 1] == suf[n];
      assert (t + suf)[..|t + suf| - 1] == t + suf[..n];
      TrailingSpacesBeforeSpace(t, suf[..n]);
    } else {
      assert t + suf == t;
    }
  }

  /**
   * The reference definition of stripping: whatever whitespace-only pieces
   * surround a trimmed middle, stripping returns exactly that middle.
   */
  lemma StripUnique(pre: string, mid: string, suf: string)
    requires AllSpace(pre) && AllSpace(suf) && Trimmed(mid)
    ensures Strip(pre + mid + suf) == mid
  {
    var s := pre + mid + suf;
    assert s == pre + (mid + suf);
    LeadingSpacesAfterSpace(pre, mid + suf);
    if mid == [] {
      assert mid + suf == suf;
      assert LeadingSpaces(suf) == |suf|;
      assert s[|s|..] == [];
    } else {
      assert (mid + suf)[0] == mid[0];
      assert LeadingSpaces(s) == |pre|;
      var t := s[|pre|..];
      assert t == mid + suf;
      TrailingSpacesBeforeSpace(mid, suf);
      assert TrailingSpaces(mid) == 0;
      assert t[..|t| - TrailingSpaces(t)] == mid;
    }
  }

  /** Doubling quotes keeps a string trimmed: a quote is not whitespace. */
  lemma EscapeKeepsTrimmed(m: string)
    requires Trimmed(m)
    ensures Trimmed(EscapeQuotes(m))
  {
    if m != [] {
      var n := |m| - 1;
      var em := EscapeQuotes(m);
      var first := if m[0] == Quote then [Quote, Quote] else [m[0]];
      assert em == first + EscapeQuotes(m[1..]);
      var last := if m[n] == Quote then [Quote, Quote] else [m[n]];
      assert em == EscapeQuotes(m[..n]) + last by {
        assert m[..n] + [m[n]] == m;
        EscapeAppend(m[..n], [m[n]]);
        assert EscapeQuotes([m[n]]) == last;
      }
      assert em[0] == first[0];
      assert em[|em| - 1] == last[|last| - 1];
    }
  }

  /** Stripping removes whitespace only, so no quote is lost. */
  lemma StripKeepsQuotes(s: string)
    ensures Occurrences(Strip(s), Quote) == Occurrences(s, Quote)
  {
    StripLaw(s);
    var a := LeadingSpaces(s);
    var e := a + |Strip(s)|;
    SplitThree(s, a, e);
    OccurrencesAppend(s[..a] + Strip(s), s[e..], Quote);
    OccurrencesAppend(s[..a], Strip(s), Quote);
    OccurrencesAllSpace(s[..a]);
    OccurrencesAllSpace(s[e..]);
  }

  /**
   * Doubling quotes and stripping commute: a quote is never whitespace, so
   * the whitespace the source strips after escaping is the whitespace of the
   * raw text.
   */
  lemma EscapeStripCommute(s: string)
    ensures Strip(EscapeQuotes(s)) == EscapeQuotes(Strip(s))
  {
    StripLaw(s);
    var a := LeadingSpaces(s);
    var m := Strip(s);
    var e := a + |m|;
    var pre, suf := s[..a], s[e..];
    SplitThree(s, a, e);
    OccurrencesAllSpace(pre);
    OccurrencesAllSpace(suf);
    EscapeWithoutQuotes(pre);
    EscapeWithoutQuotes(suf);
    EscapeAppend(pre + m, suf);
    EscapeAppend(pre, m);
    var em := EscapeQuotes(m);
    EscapeKeepsTrimmed(m);
    StripUnique(pre, em, suf);
  }

  // ---------------------------------------------------------------------------
  // Reading a single-quoted SQL string literal back
  // ---------------------------------------------------------------------------

  /**
   * Reads the body of a single-quoted standard SQL string literal whose
   * opening quote has been consumed: `''` stands for one quote and a lone quote
   * closes the literal; a backslash is an ordinary character (no backslash
   * escapes, unlike MySQL's default mode). Gives the literal's value and the text after the closing quote,
   * or None when the literal is never closed.
   */
  function ReadLiteral(t: string): (r: Option<(string, string)>)
    ensures r.Some? ==> |r.value.1| < |t|
    decreases |t|
  {
    if t == [] then None
    else if t[0] == Quote then
      if |t| >= 2 && t[1] == Quote then
        match ReadLiteral(t[2..])
        case None => None
        case Some((v, rest)) => Some(([Quote] + v, rest))
      else Some(([], t[1..]))
    else
      match ReadLiteral(t[1..])
      case None => None
      case Some((v, rest)) => Some(([t[0]] + v, rest))
  }

  lemma ConcatAssoc(a: string, b: string, c: string, d: string)
    ensures a + b + c + d == a + (b + c + d)
  {
  }

  /** Reading past one ordinary character keeps it in the value. */
  lemma ReadPlainChar(c: char, u: string)
    requires c != Quote
    ensures ReadLiteral([c] + u) == match ReadLiteral(u) case None => None case Some((v, rest)) => Some(([c] + v, rest))
  {
    assert ([c] + u)[0] == c && ([c] + u)[1..] == u;
  }

  /** Reading past a doubled quote puts one quote in the value. */
  lemma ReadDoubledQuote(u: string)
    ensures ReadLiteral([Quote, Quote] + u) == match ReadLiteral(u) case None => None case Some((v, rest)) => Some(([Quote] + v, rest))
  {
    var t := [Quote, Quote] + u;
    assert t[0] == Quote && t[1] == Quote && t[2..] == u;
  }

  /** A quote not followed by another quote closes the literal. */
  lemma ReadClosingQuote(rest: string)
    requires rest == [] || rest[0] != Quote
    ensures ReadLiteral([Quote] + rest) == Some(([], rest))
  {
    assert ([Quote] + rest)[1..] == rest;
  }

  /**
   * Round trip: a literal written as quote, escaped text, quote reads back as
   * the original text, and reading stops at the closing quote, provided what
   * follows does not itself begin with a quote.
   */
  lemma {:induction false} LiteralRoundTrip(x: string, rest: string)
    requires rest == [] || rest[0] != Quote
    ensures ReadLiteral(EscapeQuotes(x) + [Quote] + rest) == Some((x, rest))
    decreases |x|
  {
    if x == [] {
      assert EscapeQuotes(x) + [Quote] + rest == [Quote] + rest;
      ReadClosingQuote(rest);
    } else {
      var e := EscapeQuotes(x[1..]);
      var u := e + [Quote] + rest;
      LiteralRoundTrip(x[1..], rest);
      var head := if x[0] == Quote then [Quote, Quote] else [x[0]];
      assert EscapeQuotes(x) + [Quote] + rest == head + u by {
        assert EscapeQuotes(x) == head + e;
        ConcatAssoc(head, e, [Quote], rest);
      }
      assert [x[0]] + x[1..] == x;
      if x[0] == Quote {
        ReadDoubledQuote(u);
      } else {
        ReadPlainChar(x[0], u);
      }
    }
  }
}
