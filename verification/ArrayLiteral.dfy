/** Scanning a PostgreSQL text-array literal into its elements. */
module ArrayLiteral {
  import opened Text
  import opened Writing

  datatype Source = NullSource | TextSource(text: string)

  datatype Scanned = Malformed | Elements(items: seq<string>)

  /** The scanner's variables. */
  datatype Scanner = Scanner(out: seq<string>, cur: string, inQuotes: bool, escaped: bool)

  const START := Scanner([], "", false, false)

  function Feed(st: Scanner, c: char): Scanner {
    if st.escaped then st.(cur := st.cur + [c], escaped := false)
    else if c == '\\' then st.(escaped := true)
    else if c == '"' then st.(inQuotes := !st.inQuotes)
    else if c == ',' && !st.inQuotes then st.(out := st.out + [st.cur], cur := "")
    else st.(cur := st.cur + [c])
  }

  /** The scanner after the first n characters. */
  function Run(st: Scanner, s: string, n: nat): Scanner
    requires n <= |s|
  {
    if n == 0 then st else Feed(Run(st, s, n - 1), s[n - 1])
  }

  function RunAll(st: Scanner, s: string): Scanner {
    Run(st, s, |s|)
  }

  /** What an array literal stands for. */
  function Parse(source: Source): Scanned {
    match source
    case NullSource => Elements([])
    case TextSource(text) =>
      var s := Trim(text);
      if |s| < 2 || s[0] != '{' || s[|s| - 1] != '}' then Malformed
      else if |s| == 2 then Elements([])
      else
        var st := RunAll(START, s[1..|s| - 1]);
        Elements(st.out + [st.cur])
  }

  method Scan(source: Source) returns (r: Scanned)
    ensures r == Parse(source)
  {
    if source.NullSource? {
      return Elements([]);
    }
    var s := Trim(source.text);
    if |s| < 2 || s[0] != '{' || s[|s| - 1] != '}' {
      return Malformed;
    }
    var inner := s[1..|s| - 1];
    if inner == "" {
      return Elements([]);
    }
    var out, cur, inQuotes, escaped := [], "", false, false;
    var i := 0;
    while i < |inner|
      invariant 0 <= i <= |inner|
      invariant Scanner(out, cur, inQuotes, escaped) == Run(START, inner, i)
    {
      var r := inner[i];
      if escaped {
        cur := cur + [r];
        escaped := false;
      } else if r == '\\' {
        escaped := true;
      } else if r == '"' {
        inQuotes := !inQuotes;
      } else if r == ',' && !inQuotes {
        out := out + [cur];
        cur := "";
      } else {
        cur := cur + [r];
      }
      i := i + 1;
    }
    return Elements(out + [cur]);
  }

  // ----- printing

  /** An element as the server may print it: bare, or quoted with escapes. */
  datatype Item = Bare(value: string) | Quoted(value: string)

  predicate IsSpecial(c: char) {
    c == '"' || c == '\\' || c == ','
  }

  /** Bare text is not empty and holds nothing the scanner treats specially. */
  predicate ItemOk(item: Item) {
    item.Bare? ==> item.value != "" && forall i :: 0 <= i < |item.value| ==> !IsSpecial(item.value[i])
  }

  /** A backslash in front of every quote and backslash of value[..n]. */
  function Escape(value: string, n: nat): string
    requires n <= |value|
  {
    if n == 0 then ""
    else Escape(value, n - 1)
         + if value[n - 1] == '"' || value[n - 1] == '\\' then ['\\', value[n - 1]] else [value[n - 1]]
  }

  function ItemText(item: Item): string {
    match item
    case Bare(value) => value
    case Quoted(value) => "\"" + (Escape(value, |value|) + "\"")
  }

  /** The first n items, comma-separated. */
  function ListText(items: seq<Item>, n: nat): string
    requires 0 < n <= |items|
  {
    if n == 1 then ItemText(items[0]) else ListText(items, n - 1) + ("," + ItemText(items[n - 1]))
  }

  function Print(items: seq<Item>): string {
    if items == [] then "{}" else "{" + ListText(items, |items|) + "}"
  }

  function Values(items: seq<Item>, n: nat): (r: seq<string>)
    requires n <= |items|
    ensures |r| == n && forall i :: 0 <= i < n ==> r[i] == items[i].value
  {
    if n == 0 then [] else Values(items, n - 1) + [items[n - 1].value]
  }

  // ----- scanning printed text

  lemma {:induction false} RunConcat(st: Scanner, a: string, b: string, n: nat)
    requires n <= |b|
    ensures Run(st, a + b, |a| + n) == Run(RunAll(st, a), b, n)
  {
    if n == 0 {
      RunPrefix(st, a, b, |a|);
    } else {
      RunConcat(st, a, b, n - 1);
    }
  }

  lemma {:induction false} RunPrefix(st: Scanner, a: string, b: string, n: nat)
    requires n <= |a|
    ensures Run(st, a + b, n) == Run(st, a, n)
  {
    if n > 0 {
      RunPrefix(st, a, b, n - 1);
    }
  }

  lemma RunAllConcat(st: Scanner, a: string, b: string)
    ensures RunAll(st, a + b) == RunAll(RunAll(st, a), b)
  {
    RunConcat(st, a, b, |b|);
  }

  lemma RunOne(st: Scanner, c: char)
    ensures RunAll(st, [c]) == Feed(st, c)
  {
    assert Run(st, [c], 0) == st;
  }

  lemma {:induction false} RunBare(st: Scanner, value: string, n: nat)
    requires n <= |value| && !st.inQuotes && !st.escaped
    requires forall i :: 0 <= i < |value| ==> !IsSpecial(value[i])
    ensures Run(st, value, n) == st.(cur := st.cur + value[..n])
  {
    if n == 0 {
      assert st.cur + value[..0] == st.cur;
    } else {
      RunBare(st, value, n - 1);
      assert (st.cur + value[..n - 1]) + [value[n - 1]] == st.cur + value[..n];
    }
  }

  lemma {:induction false} RunEscaped(st: Scanner, value: string, n: nat)
    requires n <= |value| && st.inQuotes && !st.escaped
    ensures RunAll(st, Escape(value, n)) == st.(cur := st.cur + value[..n])
  {
    if n == 0 {
      assert st.cur + value[..0] == st.cur;
    } else {
      var c := value[n - 1];
      var last := if c == '"' || c == '\\' then ['\\', c] else [c];
      var mid := st.(cur := st.cur + value[..n - 1]);
      RunEscaped(st, value, n - 1);
      RunAllConcat(st, Escape(value, n - 1), last);
      RunLast(mid, c);
      assert (st.cur + value[..n - 1]) + [c] == st.cur + value[..n];
    }
  }

  lemma RunLast(st: Scanner, c: char)
    requires st.inQuotes && !st.escaped
    ensures RunAll(st, if c == '"' || c == '\\' then ['\\', c] else [c]) == st.(cur := st.cur + [c])
  {
    if c == '"' || c == '\\' {
      RunOne(st, '\\');
      RunOne(st.(escaped := true), c);
      RunAllConcat(st, ['\\'], [c]);
      assert ['\\'] + [c] == ['\\', c];
    } else {
      RunOne(st, c);
    }
  }

  /** Scanning one printed element adds exactly its value to the current text. */
  lemma RunItem(st: Scanner, item: Item)
    requires ItemOk(item) && !st.inQuotes && !st.escaped
    ensures RunAll(st, ItemText(item)) == st.(cur := st.cur + item.value)
  {
    match item
    case Bare(value) =>
      RunBare(st, value, |value|);
      assert value[..|value|] == value;
    case Quoted(value) =>
      var quoted := st.(inQuotes := true);
      var escaped := Escape(value, |value|);
      RunEscaped(quoted, value, |value|);
      assert value[..|value|] == value;
      RunOne(st, '"');
      RunOne(quoted.(cur := st.cur + value), '"');
      RunAllConcat(st, "\"", escaped + "\"");
      RunAllConcat(quoted, escaped, "\"");
  }

  lemma {:induction false} RunList(items: seq<Item>, n: nat)
    requires 0 < n <= |items| && forall i :: 0 <= i < |items| ==> ItemOk(items[i])
    ensures RunAll(START, ListText(items, n)) == Scanner(Values(items, n - 1), items[n - 1].value, false, false)
  {
    var last := items[n - 1];
    assert ItemOk(last);
    if n == 1 {
      RunItem(START, last);
      assert "" + last.value == last.value;
    } else {
      RunList(items, n - 1);
      var before := Scanner(Values(items, n - 2), items[n - 2].value, false, false);
      var cut := Scanner(Values(items, n - 1), "", false, false);
      RunOne(before, ',');
      RunItem(cut, last);
      assert "" + last.value == last.value;
      RunAllConcat(before, ",", ItemText(last));
      hide ListText, ItemText, RunAll, Run;
      ListStep(items, n);
      RunAllConcat(START, ListText(items, n - 1), "," + ItemText(last));
    }
  }

  lemma ListStep(items: seq<Item>, n: nat)
    requires 1 < n <= |items|
    ensures ListText(items, n) == ListText(items, n - 1) + ("," + ItemText(items[n - 1]))
  {
  }

  /** Scanning inverts printing: for every list of strings and every choice of which elements
      are quoted, the elements come back in order. */
  lemma ScanInvertsPrint(items: seq<Item>, padLeft: string, padRight: string)
    requires forall i :: 0 <= i < |items| ==> ItemOk(items[i])
    requires AllWhite(padLeft) && AllWhite(padRight)
    ensures Parse(TextSource(padLeft + Print(items) + padRight)) == Elements(Values(items, |items|))
  {
    if items == [] {
      WhiteSpace(padLeft);
      WhiteSpace(padRight);
      TrimPadded(padLeft, "{}", padRight);
    } else {
      RunList(items, |items|);
      ListNonempty(items, |items|);
      assert Print(items) == "{" + ListText(items, |items|) + "}";
      hide ListText, Parse, Run, RunAll;
      ParseBraces(padLeft, ListText(items, |items|), padRight);
    }
  }

  /** A text is refused exactly when, white space around it aside, it is not something between two braces; a
      missing source is an empty list. */
  lemma MalformedExact(padLeft: string, s: string, padRight: string)
    requires AllWhite(padLeft) && AllWhite(padRight) && Bordered(s)
    ensures Parse(NullSource) == Elements([])
    ensures Parse(TextSource(padLeft + s + padRight)) == Malformed
            <==> !(|s| >= 2 && s[0] == '{' && s[|s| - 1] == '}')
  {
    WhiteSpace(padLeft);
    WhiteSpace(padRight);
    WhiteSpace(s);
    TrimPadded(padLeft, s, padRight);
    hide Trim, RunAll;
  }

  lemma ParseBraces(padLeft: string, inner: string, padRight: string)
    requires AllWhite(padLeft) && AllWhite(padRight) && inner != ""
    ensures var st := RunAll(START, inner);
            Parse(TextSource(padLeft + ("{" + inner + "}") + padRight)) == Elements(st.out + [st.cur])
  {
    var s := "{" + inner + "}";
    WhiteSpace(padLeft);
    WhiteSpace(padRight);
    TrimPadded(padLeft, s, padRight);
    assert s[1..|s| - 1] == inner;
  }

  lemma {:induction false} ListNonempty(items: seq<Item>, n: nat)
    requires 0 < n <= |items| && forall i :: 0 <= i < |items| ==> ItemOk(items[i])
    ensures ListText(items, n) != ""
  {
    assert ItemOk(items[0]);
    if n > 1 {
      ListNonempty(items, n - 1);
    }
  }
}
