/** The parenthesis and comma scanners behind INSERT extraction and WITH walking. */
module Parens {
  import opened Text

  /** How one character moves the nesting depth. */
  function Step(c: char): int {
    if c == '(' then 1 else if c == ')' then -1 else 0
  }

  /** Opening minus closing parentheses. */
  function NetDepth(s: string): int {
    if s == "" then 0 else Step(s[0]) + NetDepth(s[1..])
  }

  lemma {:induction false} NetDepthConcat(a: string, b: string)
    ensures NetDepth(a + b) == NetDepth(a) + NetDepth(b)
  {
    if a == "" {
      assert a + b == b;
    } else {
      assert (a + b)[1..] == a[1..] + b;
      NetDepthConcat(a[1..], b);
    }
  }

  /** Index of the first ')' that brings the depth, counted from `depth`, to zero. */
  function CloseIndex(s: string, depth: int): (r: Option<nat>)
    ensures r.Some? ==> r.value < |s| && s[r.value] == ')'
  {
    if s == "" then None
    else if s[0] == ')' && depth == 1 then Some(0)
    else match CloseIndex(s[1..], depth + Step(s[0]))
      case None => None
      case Some(k) => Some(k + 1)
  }

  /** The prefix s[..k] stays strictly above depth zero throughout. */
  predicate StaysOpen(s: string, depth: int, k: nat)
    requires k <= |s|
  {
    forall j :: 0 <= j <= k ==> depth + NetDepth(s[..j]) > 0
  }

  lemma NetDepthStep(s: string, j: nat)
    requires 0 < j <= |s|
    ensures NetDepth(s[..j]) == Step(s[0]) + NetDepth(s[1..][..j - 1])
  {
    assert s[..j][1..] == s[1..][..j - 1];
  }

  lemma StaysOpenStep(s: string, depth: int, k: nat)
    requires k < |s| && depth > 0
    ensures StaysOpen(s, depth, k + 1) <==> StaysOpen(s[1..], depth + Step(s[0]), k)
  {
    var d := depth + Step(s[0]);
    if StaysOpen(s, depth, k + 1) {
      forall j | 0 <= j <= k
        ensures d + NetDepth(s[1..][..j]) > 0
      {
        NetDepthStep(s, j + 1);
        assert depth + NetDepth(s[..j + 1]) > 0;
      }
    }
    if StaysOpen(s[1..], d, k) {
      forall j | 0 <= j <= k + 1
        ensures depth + NetDepth(s[..j]) > 0
      {
        if j > 0 {
          NetDepthStep(s, j);
        }
      }
    }
  }

  /** From a positive depth the scan stops where the depth first reaches zero,
      and fails only when it never does. */
  lemma {:induction false} CloseIndexSound(s: string, depth: int)
    requires depth > 0
    ensures match CloseIndex(s, depth)
            case Some(k) => StaysOpen(s, depth, k) && depth + NetDepth(s[..k + 1]) == 0
            case None => StaysOpen(s, depth, |s|)
  {
    if s == "" {
    } else if s[0] == ')' && depth == 1 {
      NetDepthStep(s, 1);
    } else {
      CloseIndexSound(s[1..], depth + Step(s[0]));
      match CloseIndex(s[1..], depth + Step(s[0]))
      case Some(k) =>
        StaysOpenStep(s, depth, k);
        NetDepthStep(s, k + 2);
      case None =>
        StaysOpenStep(s, depth, |s| - 1);
    }
  }

  /** The stopping place is unique: any place where the depth first reaches zero is it. */
  lemma CloseIndexExact(s: string, depth: int, k: nat)
    requires depth > 0
    ensures CloseIndex(s, depth) == Some(k) <==>
              k < |s| && StaysOpen(s, depth, k) && depth + NetDepth(s[..k + 1]) == 0
    ensures CloseIndex(s, depth) == None <==> StaysOpen(s, depth, |s|)
  {
    CloseIndexSound(s, depth);
    if k < |s| && StaysOpen(s, depth, k) && depth + NetDepth(s[..k + 1]) == 0 {
      var stop := if CloseIndex(s, depth).Some? then CloseIndex(s, depth).value else |s|;
      ZeroEndsOpen(s, depth, k, stop);
    }
  }

  lemma ZeroEndsOpen(s: string, depth: int, k: nat, m: nat)
    requires k < |s| && m <= |s| && StaysOpen(s, depth, m)
    requires depth + NetDepth(s[..k + 1]) == 0
    ensures m <= k
  {
    if k < m {
      assert false;
    }
  }

  /** Text whose parentheses match within it. */
  predicate Balanced(s: string) {
    NetDepth(s) == 0 && forall j :: 0 <= j <= |s| ==> NetDepth(s[..j]) >= 0
  }

  /** A balanced text between parentheses is what the scan cuts out. */
  lemma CloseIndexBalanced(content: string, rest: string)
    requires Balanced(content)
    ensures CloseIndex(content + ")" + rest, 1) == Some(|content|)
  {
    var inner := content + ")" + rest;
    var k := |content|;
    forall j | 0 <= j <= k
      ensures 1 + NetDepth(inner[..j]) > 0
    {
      assert inner[..j] == content[..j];
    }
    assert inner[..k + 1] == content + ")";
    NetDepthConcat(content, ")");
    assert NetDepth(")") == -1;
    CloseIndexExact(inner, 1, k);
    assert CloseIndex(inner, 1) == Some(k);
  }

  /** The same scan by absolute position. */
  function CloseFrom(s: string, i: nat, depth: int): (r: int)
    requires i <= |s|
    ensures r == -1 || i <= r < |s|
    decreases |s| - i
  {
    if i == |s| then -1
    else if s[i] == ')' && depth == 1 then i
    else CloseFrom(s, i + 1, depth + Step(s[i]))
  }

  lemma {:induction false} CloseFromSuffix(s: string, i: nat, depth: int)
    requires i <= |s|
    ensures CloseIndex(s[i..], depth) == if CloseFrom(s, i, depth) == -1 then None else Some(CloseFrom(s, i, depth) - i)
    decreases |s| - i
  {
    if i < |s| {
      assert s[i..][0] == s[i] && s[i..][1..] == s[i + 1..];
      CloseFromSuffix(s, i + 1, depth + Step(s[i]));
    }
  }

  /** Cuts the text between s[openIdx] and its matching ')'. */
  method BalancedParenSpan(s: string, openIdx: int) returns (content: string, afterClose: int, ok: bool)
    ensures ok <==> 0 <= openIdx < |s| && s[openIdx] == '(' && CloseIndex(s[openIdx + 1..], 1).Some?
    ensures ok ==> openIdx + 2 <= afterClose <= |s|
                   && CloseIndex(s[openIdx + 1..], 1) == Some(afterClose - openIdx - 2)
                   && content == s[openIdx + 1..afterClose - 1]
  {
    if openIdx < 0 || openIdx >= |s| || s[openIdx] != '(' {
      return "", 0, false;
    }
    CloseFromSuffix(s, openIdx + 1, 1);
    var depth := 0;
    var i := openIdx;
    while i < |s|
      invariant openIdx <= i <= |s|
      invariant if i == openIdx then depth == 0 else depth > 0
      invariant i > openIdx ==> CloseFrom(s, i, depth) == CloseFrom(s, openIdx + 1, 1)
    {
      if s[i] == '(' {
        depth := depth + 1;
      } else if s[i] == ')' {
        depth := depth - 1;
        if depth == 0 {
          return s[openIdx + 1..i], i + 1, true;
        }
      }
      i := i + 1;
    }
    return "", 0, false;
  }

  /** The pieces of a comma-separated list, cut at the commas met at depth zero. */
  function Split(s: string, depth: int): (r: seq<string>)
    ensures |r| >= 1
  {
    if s == "" then [""]
    else if s[0] == ',' && depth == 0 then [""] + Split(s[1..], 0)
    else
      var r := Split(s[1..], depth + Step(s[0]));
      [[s[0]] + r[0]] + r[1..]
  }

  function Join(parts: seq<string>): string
    requires |parts| >= 1
  {
    if |parts| == 1 then parts[0] else parts[0] + ("," + Join(parts[1..]))
  }

  lemma JoinCons(head: string, tail: seq<string>)
    ensures Join([head] + tail) == if tail == [] then head else head + ("," + Join(tail))
  {
    assert ([head] + tail)[1..] == tail;
  }

  lemma JoinLonger(c: char, head: string, tail: seq<string>)
    ensures Join([[c] + head] + tail) == [c] + Join([head] + tail)
  {
    JoinCons(head, tail);
    JoinCons([c] + head, tail);
    hide Join;
    if tail != [] {
      var more := "," + Join(tail);
      assert ([c] + head) + more == [c] + (head + more);
    }
  }

  /** Joining undoes splitting, whatever the text. */
  lemma {:induction false} JoinSplit(s: string, depth: int)
    ensures Join(Split(s, depth)) == s
  {
    if s != "" {
      var d := depth + Step(s[0]);
      if s[0] == ',' && depth == 0 {
        var r := Split(s[1..], 0);
        JoinSplit(s[1..], 0);
        JoinCons("", r);
        assert "" + ("," + s[1..]) == s;
      } else {
        var r := Split(s[1..], d);
        JoinSplit(s[1..], d);
        JoinLonger(s[0], r[0], r[1..]);
        assert [r[0]] + r[1..] == r;
      }
    }
  }

  /** A list entry: parentheses cancel out and every comma is nested. */
  predicate Piece(p: string) {
    NetDepth(p) == 0 && forall j :: 0 <= j < |p| && p[j] == ',' ==> NetDepth(p[..j]) != 0
  }

  /** The scan passes through `p` without cutting when none of its commas is at depth zero. */
  lemma {:induction false} SplitThrough(p: string, rest: string, depth: int)
    requires forall j :: 0 <= j < |p| && p[j] == ',' ==> depth + NetDepth(p[..j]) != 0
    ensures var r := Split(rest, depth + NetDepth(p));
            Split(p + rest, depth) == [p + r[0]] + r[1..]
  {
    if p == "" {
      assert p + rest == rest;
      var r := Split(rest, depth);
      assert p + r[0] == r[0];
      assert [r[0]] + r[1..] == r;
    } else {
      var d := depth + Step(p[0]);
      assert (p + rest)[1..] == p[1..] + rest;
      assert p[0] == ',' ==> NetDepth(p[..0]) == 0;
      forall j | 0 <= j < |p[1..]| && p[1..][j] == ','
        ensures d + NetDepth(p[1..][..j]) != 0
      {
        assert p[..j + 1][1..] == p[1..][..j];
        assert p[j + 1] == ',';
      }
      SplitThrough(p[1..], rest, d);
      var r := Split(rest, depth + NetDepth(p));
      assert [p[0]] + (p[1..] + r[0]) == p + r[0];
    }
  }

  /** Splitting undoes joining on lists of pieces. */
  lemma {:induction false} SplitJoin(parts: seq<string>)
    requires |parts| >= 1
    requires forall i :: 0 <= i < |parts| ==> Piece(parts[i])
    ensures Split(Join(parts), 0) == parts
  {
    var p := parts[0];
    assert Piece(p);
    if |parts| == 1 {
      SplitThrough(p, "", 0);
      assert p + "" == p && parts == [p];
    } else {
      SplitJoin(parts[1..]);
      var rest := "," + Join(parts[1..]);
      assert rest[1..] == Join(parts[1..]);
      assert Join(parts) == p + rest;
      SplitThrough(p, rest, 0);
      assert Split(rest, 0) == [""] + parts[1..];
      assert p + "" == p;
    }
  }

  /** The same split by absolute position, with the current piece starting at `start`. */
  function SplitFrom(s: string, start: nat, i: nat, depth: int): seq<string>
    requires start <= i <= |s|
    decreases |s| - i
  {
    if i == |s| then [s[start..]]
    else if s[i] == ',' && depth == 0 then [s[start..i]] + SplitFrom(s, i + 1, i + 1, 0)
    else SplitFrom(s, start, i + 1, depth + Step(s[i]))
  }

  lemma EmptyFirst(s: string, start: nat, i: nat, r: seq<string>)
    requires start <= i < |s| && r != []
    ensures [s[i + 1..i + 1] + r[0]] + r[1..] == r && s[start..i] + "" == s[start..i]
  {
    assert s[i + 1..i + 1] + r[0] == r[0];
  }

  lemma GrownFirst(s: string, start: nat, i: nat, r: seq<string>)
    requires start <= i < |s| && r != []
    ensures s[start..i + 1] + r[0] == s[start..i] + ([s[i]] + r[0])
  {
  }

  lemma {:induction false} SplitFromSuffix(s: string, start: nat, i: nat, depth: int)
    requires start <= i <= |s|
    ensures var r := Split(s[i..], depth);
            SplitFrom(s, start, i, depth) == [s[start..i] + r[0]] + r[1..]
    decreases |s| - i
  {
    if i == |s| {
      assert s[start..i] + "" == s[start..];
    } else {
      hide Step;
      assert s[i..][0] == s[i] && s[i..][1..] == s[i + 1..];
      if s[i] == ',' && depth == 0 {
        SplitFromSuffix(s, i + 1, i + 1, 0);
        EmptyFirst(s, start, i, Split(s[i + 1..], 0));
      } else {
        SplitFromSuffix(s, start, i + 1, depth + Step(s[i]));
        GrownFirst(s, start, i, Split(s[i + 1..], depth + Step(s[i])));
      }
    }
  }

  /** Splits on the commas that are not nested inside parentheses. */
  method SplitTopLevel(s: string) returns (out: seq<string>)
    ensures out == Split(s, 0)
  {
    out := [];
    var depth, start, i := 0, 0, 0;
    while i < |s|
      invariant 0 <= start <= i <= |s|
      invariant out + SplitFrom(s, start, i, depth) == SplitFrom(s, 0, 0, 0)
    {
      if s[i] == '(' {
        depth := depth + 1;
      } else if s[i] == ')' {
        depth := depth - 1;
      } else if s[i] == ',' {
        if depth == 0 {
          out := out + [s[start..i]];
          start := i + 1;
        }
      }
      i := i + 1;
    }
    out := out + [s[start..]];
    SplitFromSuffix(s, 0, 0, 0);
    var r := Split(s, 0);
    assert s[0..] == s && s[0..0] + r[0] == r[0] && [r[0]] + r[1..] == r;
  }
}
