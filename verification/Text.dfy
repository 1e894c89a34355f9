/** Text helpers shared by the scanners: blank trimming and ASCII case mapping. */
module Text {

  datatype Option<+T> = None | Some(value: T)

  /** The white space that trimming removes. */
  predicate IsSpace(c: char) {
    c == ' ' || '\t' <= c <= '\r'
  }

  predicate AllSpace(s: string) {
    forall i :: 0 <= i < |s| ==> IsSpace(s[i])
  }

  function TrimLeft(s: string): (r: string)
    ensures |r| <= |s|
    ensures r == "" || !IsSpace(r[0])
  {
    if s != "" && IsSpace(s[0]) then TrimLeft(s[1..]) else s
  }

  function TrimRight(s: string): (r: string)
    ensures r <= s
    ensures r == "" || !IsSpace(r[|r| - 1])
  {
    if s != "" && IsSpace(s[|s| - 1]) then TrimRight(s[..|s| - 1]) else s
  }

  function Trim(s: string): (r: string)
    ensures |r| <= |s|
  {
    TrimRight(TrimLeft(s))
  }

  /** Text that neither starts nor ends with white space. */
  predicate Tight(s: string) {
    s != "" ==> !IsSpace(s[0]) && !IsSpace(s[|s| - 1])
  }

  lemma {:induction false} TrimLeftPad(a: string, s: string)
    requires AllSpace(a)
    ensures TrimLeft(a + s) == TrimLeft(s)
  {
    if a == "" {
      assert a + s == s;
    } else {
      assert (a + s)[1..] == a[1..] + s;
      TrimLeftPad(a[1..], s);
    }
  }

  lemma {:induction false} TrimRightPad(s: string, b: string)
    requires AllSpace(b)
    ensures TrimRight(s + b) == TrimRight(s)
  {
    if b == "" {
      assert s + b == s;
    } else {
      assert (s + b)[..|s + b| - 1] == s + b[..|b| - 1];
      TrimRightPad(s, b[..|b| - 1]);
    }
  }

  /** Trimming removes exactly the blanks around a tight text. */
  lemma TrimPadded(a: string, s: string, b: string)
    requires AllSpace(a) && AllSpace(b) && Tight(s)
    ensures Trim(a + s + b) == s
  {
    assert a + s + b == a + (s + b);
    TrimLeftPad(a, s + b);
    if s == "" {
      TrimLeftPad(b, "");
      assert b + "" == b == s + b;
    } else {
      TrimRightPad(s, b);
    }
  }

  lemma {:induction false} TrimPadRight(s: string, b: string)
    requires AllSpace(b)
    ensures Trim(s + b) == Trim(s)
  {
    if s == "" {
      TrimLeftPad(b, "");
      assert b + "" == b == s + b;
    } else if IsSpace(s[0]) {
      assert (s + b)[1..] == s[1..] + b;
      TrimPadRight(s[1..], b);
    } else {
      TrimRightPad(s, b);
    }
  }

  lemma TrimTight(s: string)
    requires Tight(s)
    ensures Trim(s) == s
  {
    TrimPadded("", s, "");
    assert "" + s + "" == s;
  }

  lemma {:induction false} TrimRightKeepsHead(s: string)
    requires s == "" || !IsSpace(s[0])
    ensures var r := TrimRight(s); r == "" || !IsSpace(r[0])
  {
    if s != "" && IsSpace(s[|s| - 1]) {
      TrimRightKeepsHead(s[..|s| - 1]);
    }
  }

  lemma TrimIdempotent(s: string)
    ensures Tight(Trim(s)) && Trim(Trim(s)) == Trim(s)
  {
    TrimRightKeepsHead(TrimLeft(s));
    TrimTight(Trim(s));
  }

  function UpperChar(c: char): char {
    if 'a' <= c <= 'z' then c - 'a' + 'A' else c
  }

  function LowerChar(c: char): char {
    if 'A' <= c <= 'Z' then c - 'A' + 'a' else c
  }

  function Upper(s: string): (r: string)
    ensures |r| == |s|
    ensures forall i :: 0 <= i < |s| ==> r[i] == UpperChar(s[i])
  {
    seq(|s|, i requires 0 <= i < |s| => UpperChar(s[i]))
  }

  function Lower(s: string): (r: string)
    ensures |r| == |s|
    ensures forall i :: 0 <= i < |s| ==> r[i] == LowerChar(s[i])
  {
    seq(|s|, i requires 0 <= i < |s| => LowerChar(s[i]))
  }

  /** `strings.HasPrefix`. */
  predicate HasPrefix(s: string, prefix: string) {
    prefix <= s
  }
}
