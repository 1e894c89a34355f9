/** Quoting SQL identifiers and texts by doubling the quote. */
module Quoting {

  /** The text with every quote doubled. */
  function Doubled(s: string, quote: char): string {
    if s == "" then "" else (if s[0] == quote then [quote, quote] else [s[0]]) + Doubled(s[1..], quote)
  }

  function QuoteIdent(s: string): string {
    "\"" + Doubled(s, '"') + "\""
  }

  /** Texts inside one frame are equal exactly when the framed texts are. */
  lemma FrameInjective(lead: string, a: string, b: string, trail: string)
    ensures lead + a + trail == lead + b + trail <==> a == b
  {
    var x, y := lead + a + trail, lead + b + trail;
    assert x[|lead|..|lead| + |a|] == a;
    if x == y {
      assert |a| == |b|;
      assert y[|lead|..|lead| + |b|] == b;
    }
  }

  lemma {:induction false} DoubledInjective(a: string, b: string, quote: char)
    requires Doubled(a, quote) == Doubled(b, quote)
    ensures a == b
  {
    if a != "" && b != "" {
      var x, y := Doubled(a, quote), Doubled(b, quote);
      assert x[0] == a[0] && y[0] == b[0];
      if a[0] == quote {
        assert x[2..] == Doubled(a[1..], quote) && y[2..] == Doubled(b[1..], quote);
      } else {
        assert x[1..] == Doubled(a[1..], quote) && y[1..] == Doubled(b[1..], quote);
      }
      DoubledInjective(a[1..], b[1..], quote);
      assert a == [a[0]] + a[1..] && b == [b[0]] + b[1..];
    }
  }

  lemma QuoteIdentInjective(a: string, b: string)
    ensures QuoteIdent(a) == QuoteIdent(b) <==> a == b
  {
    FrameInjective("\"", Doubled(a, '"'), Doubled(b, '"'), "\"");
    if Doubled(a, '"') == Doubled(b, '"') {
      DoubledInjective(a, b, '"');
    }
  }

  /** A text without quotes is its own doubling. */
  lemma {:induction false} DoubledPlain(s: string, quote: char)
    requires forall i :: 0 <= i < |s| ==> s[i] != quote
    ensures Doubled(s, quote) == s
  {
    if s != "" {
      DoubledPlain(s[1..], quote);
      assert s == [s[0]] + s[1..];
    }
  }

  lemma DoubledStep(s: string, quote: char)
    ensures Doubled("", quote) == ""
    ensures s != "" ==>
              Doubled(s, quote) == (if s[0] == quote then [quote, quote] else [s[0]]) + Doubled(s[1..], quote)
  {
  }

  /** Doubling goes character by character. */
  lemma {:induction false} DoubledConcat(a: string, b: string, quote: char)
    ensures Doubled(a + b, quote) == Doubled(a, quote) + Doubled(b, quote)
    decreases |a|
  {
    DoubledStep(a, quote);
    DoubledStep(a + b, quote);
    hide *;
    if a == "" {
      assert a + b == b;
    } else {
      DoubledConcat(a[1..], b, quote);
      assert (a + b)[0] == a[0] && (a + b)[1..] == a[1..] + b;
    }
  }

  /** The text up to a first quote, doubled, is that text, two quotes and the doubled remainder. */
  lemma DoubledAtQuote(a: string, b: string, quote: char)
    requires forall i :: 0 <= i < |a| ==> a[i] != quote
    ensures Doubled(a + ([quote] + b), quote) == a + ([quote, quote] + Doubled(b, quote))
  {
    DoubledConcat(a, [quote] + b, quote);
    DoubledPlain(a, quote);
    DoubledStep([quote] + b, quote);
    hide *;
    assert ([quote] + b)[0] == quote && ([quote] + b)[1..] == b;
  }

  /** A quoted identifier never starts with the identifier itself: its leading quotes outnumber it. */
  lemma {:induction false} LeadingQuotes(s: string, k: nat)
    requires k <= |s| && forall i :: 0 <= i < k ==> s[i] == '"'
    ensures |Doubled(s, '"')| >= 2 * k && forall i :: 0 <= i < 2 * k ==> Doubled(s, '"')[i] == '"'
  {
    if k > 0 {
      LeadingQuotes(s[1..], k - 1);
      var more := Doubled(s[1..], '"');
      assert Doubled(s, '"') == ['"', '"'] + more;
    }
  }
}
