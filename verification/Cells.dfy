/** Rows as the database returns them, and their rendering as one text. */
module Cells {

  datatype Cell = Null | Value(text: string)

  type Row = seq<Cell>

  /** A cell as text, NULL replaced by a mark. */
  function CellText(c: Cell, nullMark: string): string {
    match c
    case Null => nullMark
    case Value(text) => text
  }

  /** Cells i, i+1, .. joined by the separator. */
  function RowText(row: Row, i: nat, separator: char, nullMark: string): string
    requires i <= |row|
    decreases |row| - i
  {
    if i == |row| then ""
    else if i == |row| - 1 then CellText(row[i], nullMark)
    else CellText(row[i], nullMark) + ([separator] + RowText(row, i + 1, separator, nullMark))
  }

  predicate Without(s: string, separator: char) {
    forall i :: 0 <= i < |s| ==> s[i] != separator
  }

  /** The cell's text holds no separator and is not the mark for NULL. */
  predicate CleanCell(c: Cell, separator: char, nullMark: string) {
    c.Value? ==> c.text != nullMark && Without(c.text, separator)
  }

  predicate CleanRow(row: Row, separator: char, nullMark: string) {
    forall i :: 0 <= i < |row| ==> CleanCell(row[i], separator, nullMark)
  }

  /** Two texts cut at their first separator agree in front of it and behind it. */
  lemma CutInjective(a: string, x: string, b: string, y: string, separator: char)
    requires Without(a, separator) && Without(b, separator)
    requires a + ([separator] + x) == b + ([separator] + y)
    ensures a == b && x == y
  {
    var s := a + ([separator] + x);
    assert s[|a|] == separator && s[|b|] == separator;
    assert forall i :: 0 <= i < |a| ==> s[i] == a[i];
    assert forall i :: 0 <= i < |b| ==> s[i] == b[i];
    assert s[..|a|] == a && s[..|b|] == b && s[|a| + 1..] == x && s[|b| + 1..] == y;
  }

  lemma {:induction false} RowTextInjectiveFrom(a: Row, b: Row, i: nat, separator: char, nullMark: string)
    requires CleanRow(a, separator, nullMark) && CleanRow(b, separator, nullMark) && Without(nullMark, separator)
    requires |a| == |b| && i <= |a|
    requires RowText(a, i, separator, nullMark) == RowText(b, i, separator, nullMark)
    ensures forall j :: i <= j < |a| ==> a[j] == b[j]
    decreases |a| - i
  {
    if i < |a| {
      assert CleanCell(a[i], separator, nullMark) && CleanCell(b[i], separator, nullMark);
      if i < |a| - 1 {
        var x, y := RowText(a, i + 1, separator, nullMark), RowText(b, i + 1, separator, nullMark);
        var s, t := CellText(a[i], nullMark), CellText(b[i], nullMark);
        assert s + ([separator] + x) == t + ([separator] + y);
        assert Without(s, separator) && Without(t, separator);
        CutInjective(s, x, t, y, separator);
        hide RowText;
        RowTextInjectiveFrom(a, b, i + 1, separator, nullMark);
      }
    }
  }

  /** Clean rows of one width render to the same text only when they are the same row. */
  lemma RowTextInjective(a: Row, b: Row, separator: char, nullMark: string)
    requires CleanRow(a, separator, nullMark) && CleanRow(b, separator, nullMark) && Without(nullMark, separator)
    requires |a| == |b|
    ensures RowText(a, 0, separator, nullMark) == RowText(b, 0, separator, nullMark) <==> a == b
  {
    if RowText(a, 0, separator, nullMark) == RowText(b, 0, separator, nullMark) {
      RowTextInjectiveFrom(a, b, 0, separator, nullMark);
    }
  }
}
