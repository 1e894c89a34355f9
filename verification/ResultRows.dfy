/** A result row as one comparable text, and exactly which rows that text identifies. */
module ResultRows {
  import opened Cells

  const SEPARATOR: char := '\U{1F}'
  const NULL_MARK := "\0NULL"

  /** A result row as one comparable text. */
  function ResultText(row: Row): string {
    RowText(row, 0, SEPARATOR, NULL_MARK)
  }

  /** PostgreSQL stores no text with a zero byte. */
  predicate StoredCell(c: Cell) {
    c.Value? ==> Without(c.text, '\0')
  }

  predicate Stored(row: Row) {
    forall i :: 0 <= i < |row| ==> StoredCell(row[i])
  }

  predicate HasSeparator(row: Row) {
    exists i :: 0 <= i < |row| && row[i].Value? && !Without(row[i].text, SEPARATOR)
  }

  /** Two values stand side by side, with no NULL between them. */
  predicate HasNeighbours(row: Row) {
    exists i :: 0 <= i < |row| - 1 && row[i].Value? && row[i + 1].Value?
  }

  /** No value holds the separator, or no two values stand side by side. */
  predicate Unmistakable(row: Row) {
    !HasSeparator(row) || !HasNeighbours(row)
  }

  // ----- the text cell by cell

  function Mark(c: Cell): string {
    CellText(c, NULL_MARK)
  }

  lemma {:induction false} ShiftText(row: Row, i: nat)
    requires 1 <= i <= |row|
    ensures RowText(row, i, SEPARATOR, NULL_MARK) == RowText(row[1..], i - 1, SEPARATOR, NULL_MARK)
    decreases |row| - i
  {
    if i < |row| {
      ShiftText(row, i + 1);
    }
  }

  lemma TextStep(row: Row)
    requires row != []
    ensures ResultText(row) == if |row| == 1 then Mark(row[0]) else Mark(row[0]) + ([SEPARATOR] + ResultText(row[1..]))
  {
    if |row| > 1 {
      ShiftText(row, 1);
    }
  }

  lemma MarkInjective(a: Cell, b: Cell)
    requires StoredCell(a) && StoredCell(b) && Mark(a) == Mark(b)
    ensures a == b
  {
    assert NULL_MARK[0] == '\0';
  }

  lemma MarkSeparator(c: Cell)
    ensures c.Null? ==> Without(Mark(c), SEPARATOR)
  {
  }

  /** A text cut at a separator at or in front of another cut: the later piece splits. */
  lemma EarlierCut(a: string, x: string, b: string, y: string) returns (mid: string)
    requires a + ([SEPARATOR] + x) == b + ([SEPARATOR] + y) && |a| < |b|
    ensures b == a + [SEPARATOR] + mid && x == mid + ([SEPARATOR] + y)
    ensures Without(b, '\0') ==> Without(mid, '\0')
  {
    var s := a + ([SEPARATOR] + x);
    mid := b[|a| + 1..];
    assert s[..|b|] == b && s[|a|] == SEPARATOR && s[|a| + 1..] == x;
    assert s[|a| + 1..] == mid + ([SEPARATOR] + y);
    assert b == b[..|a|] + [b[|a|]] + mid && b[..|a|] == a;
  }

  lemma SameCut(a: string, x: string, b: string, y: string)
    requires a + ([SEPARATOR] + x) == b + ([SEPARATOR] + y) && |a| == |b|
    ensures a == b && x == y
  {
    var s := a + ([SEPARATOR] + x);
    assert s[..|a|] == a && s[..|b|] == b && s[|a| + 1..] == x && s[|b| + 1..] == y;
  }

  lemma TailStored(row: Row, text: string)
    requires row != [] && Stored(row) && Without(text, '\0')
    ensures Stored(row[1..]) && Stored([Value(text)] + row[1..])
  {
  }

  lemma TailPlain(row: Row)
    requires row != []
    ensures !HasSeparator(row) ==> !HasSeparator(row[1..]) && Without(Mark(row[0]), SEPARATOR)
    ensures !HasNeighbours(row) ==> !HasNeighbours(row[1..])
    ensures !HasNeighbours(row) && |row| > 1 && row[0].Value? ==> row[1].Null?
    ensures !HasNeighbours(row) && |row| > 1 && row[1].Null? ==> forall text :: !HasNeighbours([Value(text)] + row[1..])
  {
    var tail := row[1..];
    assert forall i :: 0 <= i < |tail| ==> tail[i] == row[i + 1];
    if !HasNeighbours(row) && |row| > 1 && row[1].Null? {
      forall text
        ensures !HasNeighbours([Value(text)] + tail)
      {
        var other := [Value(text)] + tail;
        assert forall i :: 1 <= i < |other| ==> other[i] == row[i];
      }
    }
  }

  // ----- rows the text identifies

  /** Nothing longer reads like a row without separators, and nothing else of its width. */
  lemma {:induction false} PlainIdentified(row: Row, other: Row)
    requires row != [] && other != [] && Stored(row) && Stored(other) && !HasSeparator(row)
    requires ResultText(row) == ResultText(other)
    ensures |other| <= |row| && (|other| == |row| ==> other == row)
    decreases |row|
  {
    TextStep(row);
    TextStep(other);
    TailPlain(row);
    var c, d := Mark(row[0]), Mark(other[0]);
    assert StoredCell(row[0]) && StoredCell(other[0]);
    if |other| == 1 {
      if |row| == 1 {
        MarkInjective(row[0], other[0]);
      }
    } else {
      assert ResultText(other)[|d|] == SEPARATOR;
      if |row| > 1 {
        var x, y := ResultText(row[1..]), ResultText(other[1..]);
        TailStored(row, "");
        TailStored(other, "");
        PlainStep(c, x, d, y);
        if |c| == |d| {
          SameCut(c, x, d, y);
          MarkInjective(row[0], other[0]);
          hide *;
          PlainIdentified(row[1..], other[1..]);
          assert row == [row[0]] + row[1..] && other == [other[0]] + other[1..];
        } else {
          var mid := EarlierCut(c, x, d, y);
          MarkSeparator(other[0]);
          TailStored(other, mid);
          var joined := [Value(mid)] + other[1..];
          assert joined[1..] == other[1..];
          TextStep(joined);
          hide *;
          PlainIdentified(row[1..], joined);
        }
      }
    }
  }

  lemma PlainStep(c: string, x: string, d: string, y: string)
    requires c + ([SEPARATOR] + x) == d + ([SEPARATOR] + y) && Without(c, SEPARATOR)
    ensures |c| <= |d|
  {
    var s := c + ([SEPARATOR] + x);
    assert s[|d|] == SEPARATOR;
    assert forall i :: 0 <= i < |c| ==> s[i] == c[i];
  }

  /** Nothing shorter reads like a row without neighbouring values, and nothing else of its width. */
  lemma {:induction false} SparseIdentified(row: Row, other: Row)
    requires row != [] && other != [] && Stored(row) && Stored(other) && !HasNeighbours(row)
    requires ResultText(row) == ResultText(other)
    ensures |other| >= |row| && (|other| == |row| ==> other == row)
    decreases |other|
  {
    TextStep(row);
    TextStep(other);
    TailPlain(row);
    var c, d := Mark(row[0]), Mark(other[0]);
    assert StoredCell(row[0]) && StoredCell(other[0]);
    if |row| == 1 {
      if |other| == 1 {
        MarkInjective(row[0], other[0]);
      }
    } else {
      SparseStep(row, other);
      var x, y := ResultText(row[1..]), ResultText(other[1..]);
      TailStored(row, "");
      TailStored(other, "");
      if |c| == |d| {
        SameCut(c, x, d, y);
        MarkInjective(row[0], other[0]);
        hide *;
        SparseIdentified(row[1..], other[1..]);
        assert row == [row[0]] + row[1..] && other == [other[0]] + other[1..];
      } else {
        var mid := EarlierCut(d, y, c, x);
        TailStored(row, mid);
        var later := [Value(mid)] + row[1..];
        assert later[1..] == row[1..];
        TextStep(later);
        hide *;
        SparseIdentified(later, other[1..]);
      }
    }
  }

  /** The first zero byte in the text places the first NULL, and the other row cannot cut behind it. */
  lemma SparseStep(row: Row, other: Row)
    requires |row| > 1 && other != [] && Stored(row) && Stored(other) && !HasNeighbours(row)
    requires ResultText(row) == ResultText(other)
    ensures |other| > 1 && |Mark(other[0])| <= |Mark(row[0])|
    ensures |Mark(other[0])| < |Mark(row[0])| ==> row[0].Value? && row[1].Null?
  {
    TextStep(row);
    TextStep(other);
    TextStep(row[1..]);
    TailPlain(row);
    var s, c, d := ResultText(row), Mark(row[0]), Mark(other[0]);
    assert StoredCell(row[0]) && StoredCell(other[0]);
    assert NULL_MARK[0] == '\0' && |NULL_MARK| == 5;
    hide ResultText;
    var zero := if row[0].Null? then 0 else |c| + 1;
    assert s[zero] == '\0';
    assert forall i :: 0 <= i < zero ==> s[i] != '\0';
    if other[0].Null? {
      assert s[0] == '\0';
    } else {
      assert forall i :: 0 <= i < |d| ==> s[i] == d[i] != '\0';
      assert |other| > 1 ==> s[|d|] == SEPARATOR;
    }
  }

  // ----- rows the text confuses

  /** A separator inside a value reads like the end of a cell. */
  lemma {:induction false} SplitCell(before: Row, a: string, b: string, after: Row)
    ensures ResultText(before + [Value(a + [SEPARATOR] + b)] + after)
            == ResultText(before + [Value(a), Value(b)] + after)
  {
    var whole, cut := before + [Value(a + [SEPARATOR] + b)] + after, before + [Value(a), Value(b)] + after;
    TextStep(whole);
    TextStep(cut);
    if before == [] {
      assert cut[1..] == [Value(b)] + after && whole[1..] == after;
      TextStep(cut[1..]);
      assert cut[1..][1..] == after;
      hide ResultText;
      if after == [] {
        assert a + [SEPARATOR] + b == a + ([SEPARATOR] + b);
      } else {
        var rest := [SEPARATOR] + ResultText(after);
        assert (a + [SEPARATOR] + b) + rest == a + ([SEPARATOR] + (b + rest));
      }
    } else {
      SplitCell(before[1..], a, b, after);
      assert whole[1..] == before[1..] + [Value(a + [SEPARATOR] + b)] + after;
      assert cut[1..] == before[1..] + [Value(a), Value(b)] + after;
    }
  }

  /** The row with its value at j cut in two at a separator. */
  function CutAt(row: Row, j: nat, p: nat): Row
    requires j < |row| && row[j].Value? && p < |row[j].text|
  {
    row[..j] + [Value(row[j].text[..p]), Value(row[j].text[p + 1..])] + row[j + 1..]
  }

  /** The row with its values at k and k + 1 joined by a separator. */
  function JoinAt(row: Row, k: nat): Row
    requires k + 1 < |row| && row[k].Value? && row[k + 1].Value?
  {
    row[..k] + [Value(row[k].text + [SEPARATOR] + row[k + 1].text)] + row[k + 2..]
  }

  lemma CutReads(row: Row, j: nat, p: nat)
    requires Stored(row) && j < |row| && row[j].Value? && p < |row[j].text| && row[j].text[p] == SEPARATOR
    ensures ResultText(CutAt(row, j, p)) == ResultText(row) && Stored(CutAt(row, j, p))
  {
    var text := row[j].text;
    assert StoredCell(row[j]);
    assert text == text[..p] + [SEPARATOR] + text[p + 1..];
    assert row == row[..j] + [Value(text[..p] + [SEPARATOR] + text[p + 1..])] + row[j + 1..];
    SplitCell(row[..j], text[..p], text[p + 1..], row[j + 1..]);
  }

  lemma JoinReads(row: Row, k: nat)
    requires Stored(row) && k + 1 < |row| && row[k].Value? && row[k + 1].Value?
    ensures ResultText(JoinAt(row, k)) == ResultText(row) && Stored(JoinAt(row, k))
  {
    assert StoredCell(row[k]) && StoredCell(row[k + 1]);
    assert row == row[..k] + [Value(row[k].text), Value(row[k + 1].text)] + row[k + 2..];
    SplitCell(row[..k], row[k].text, row[k + 1].text, row[k + 2..]);
  }

  /** Where the cells of a row stand once the value at j is cut. */
  lemma CutCells(row: Row, j: nat, p: nat)
    requires j < |row| && row[j].Value? && p < |row[j].text|
    ensures var cut := CutAt(row, j, p);
            && |cut| == |row| + 1
            && cut[j] == Value(row[j].text[..p]) && cut[j + 1] == Value(row[j].text[p + 1..])
            && (forall i :: 0 <= i < j ==> cut[i] == row[i])
            && (forall i :: j + 2 <= i < |cut| ==> cut[i] == row[i - 1])
  {
  }

  /** Splits the value at j at a separator and joins the neighbours at k: same width, same text. */
  lemma Mistaken(row: Row, j: nat, p: nat, k: nat) returns (other: Row)
    requires Stored(row) && j < |row| && row[j].Value? && p < |row[j].text| && row[j].text[p] == SEPARATOR
    requires k + 1 < |row| && row[k].Value? && row[k + 1].Value?
    ensures Stored(other) && |other| == |row| && other != row && ResultText(other) == ResultText(row)
  {
    CutReads(row, j, p);
    CutCells(row, j, p);
    hide ResultText, CutAt, Stored;
    var cut := CutAt(row, j, p);
    var q := if k < j then k else k + 1;
    JoinReads(cut, q);
    other := JoinAt(cut, q);
    assert if k == j then other[j] == cut[j]
           else if k + 1 == j then other[j] == cut[j + 1]
           else if k < j then |other[k].text| > |row[k].text| else other[j] == cut[j];
  }

  ghost predicate IdentifiedByText(row: Row) {
    forall other :: Stored(other) && |other| == |row| && ResultText(other) == ResultText(row) ==> other == row
  }

  /** A stored row is identified by its text among all stored rows of its width exactly when no value
      holds the separator or no two values stand side by side. */
  lemma TextIdentifies(row: Row)
    requires Stored(row)
    ensures IdentifiedByText(row) <==> Unmistakable(row)
  {
    hide ResultText, Stored;
    if Unmistakable(row) {
      forall other | Stored(other) && |other| == |row| && ResultText(other) == ResultText(row)
        ensures other == row
      {
        if row != [] {
          if !HasSeparator(row) {
            PlainIdentified(row, other);
          } else {
            SparseIdentified(row, other);
          }
        }
      }
    } else {
      var j :| 0 <= j < |row| && row[j].Value? && !Without(row[j].text, SEPARATOR);
      var p :| 0 <= p < |row[j].text| && row[j].text[p] == SEPARATOR;
      var k :| 0 <= k < |row| - 1 && row[k].Value? && row[k + 1].Value?;
      var other := Mistaken(row, j, p, k);
    }
  }
}
