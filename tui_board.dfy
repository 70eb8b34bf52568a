/** The layout arithmetic of internal/tui/board.go: which cards of a column
    fit on screen, how wide a column is, how tall the board is, and how a
    line of text is cut to a width. */
module BoardLayout {
  import opened Common

  /** Go's integer division for a positive divisor: it truncates toward zero,
      where Dafny's `/` rounds toward minus infinity on negative numerators. */
  function Quo(a: int, b: int): (q: int)
    requires b > 0
    ensures a >= 0 ==> q * b <= a < q * b + b
    ensures a < 0 ==> q * b - b < a <= q * b && q <= 0
  {
    if a >= 0 then a / b else -((-a) / b)
  }

  const CardHeight: int := 5
  const ExpandedExtra: int := 8

  /** How many cards a column of height `height` shows: the rows left under
      the column header fit `height - 2` divided by the card height, at least
      one; in the active column with a card expanded, the expanded card takes
      the room of `(5 + 8) / 5` of them. */
  function VisibleSlots(height: int, expandedHere: bool): (n: int)
    ensures n >= 1
    ensures n <= Max(1, Quo(height - 2, CardHeight))
    ensures !expandedHere ==> n == Max(1, Quo(height - 2, CardHeight))
    ensures expandedHere ==> n == Max(1, Quo(height - 2, CardHeight) - 1)
  {
    var slots := Max(1, Quo(height - 2, CardHeight));
    if expandedHere then
      var expandedSlots := Quo(CardHeight + ExpandedExtra, CardHeight);
      if slots > expandedSlots then slots - (expandedSlots - 1) else 1
    else slots
  }

  /** visibleCardRange: the half-open range of card indices drawn for a
      column of `count` cards with its cursor and scroll offset.  The window
      starts at the scroll offset, moved down just far enough to show the
      cursor, or up to the cursor, never below zero. */
  function VisibleCardRange(count: int, cursor: int, scroll: int, height: int,
                            expandedHere: bool): (r: (int, int))
    ensures count == 0 ==> r == (0, 0)
    ensures count != 0 ==> 0 <= r.0 && r.1 - r.0 <= VisibleSlots(height, expandedHere)
    ensures 0 <= cursor < count ==> 0 <= r.0 <= cursor < r.1 <= count
  {
    if count == 0 then (0, 0)
    else
      var slots := VisibleSlots(height, expandedHere);
      var start0 := if cursor >= scroll + slots then cursor - slots + 1 else scroll;
      var start1 := if cursor < start0 then cursor else start0;
      var start := if start1 < 0 then 0 else start1;
      var end := if start + slots > count then count else start + slots;
      (start, end)
  }

  /** A window that already shows the cursor does not move. */
  lemma WindowStaysWhileCursorVisible(count: int, cursor: int, scroll: int, height: int,
                                      expandedHere: bool)
    requires 0 <= scroll <= cursor < count
    requires cursor < scroll + VisibleSlots(height, expandedHere)
    ensures VisibleCardRange(count, cursor, scroll, height, expandedHere).0 == scroll
  {
  }

  /** With the cursor below the window, the window scrolls so that the cursor
      is on its last slot (or the column ends first). */
  lemma WindowFollowsCursorDown(count: int, cursor: int, scroll: int, height: int,
                                expandedHere: bool)
    requires 0 <= cursor < count
    requires cursor >= scroll + VisibleSlots(height, expandedHere)
    ensures var slots := VisibleSlots(height, expandedHere);
            VisibleCardRange(count, cursor, scroll, height, expandedHere)
              == (Max(0, cursor - slots + 1), Min(count, Max(0, cursor - slots + 1) + slots))
  {
  }

  /** columnWidth: a third of the terminal width less the two dividers, and
      never less than a third of 30. */
  function ColumnWidth(width: int): (w: int)
    ensures w >= 10
    ensures 3 * w <= Max(width - 2, 30) < 3 * w + 3
  {
    var usable := if width - 2 < 30 then 30 else width - 2;
    Quo(usable, 3)
  }

  /** boardHeight: the terminal height less five rows of header and bars,
      and never less than five. */
  function BoardHeight(height: int): (h: int)
    ensures h >= 5 && h >= height - 5
    ensures h == 5 || h == height - 5
  {
    var h := height - 5;
    if h < 5 then 5 else h
  }

  /** A byte of UTF-8 that continues a multi-byte character. */
  predicate IsContinuation(c: char)
  {
    '\U{80}' <= c <= '\U{BF}'
  }

  /** The number of code points in the UTF-8 bytes `s`: one per byte that
      starts a character.  A terminal gives a wide character two cells, so
      this is the width in columns only for one-cell characters. */
  function RuneCount(s: string): (n: nat)
    ensures n <= |s|
  {
    if s == [] then 0
    else RuneCount(s[..|s| - 1]) + (if IsContinuation(s[|s| - 1]) then 0 else 1)
  }

  lemma {:induction false} RuneCountAppend(a: string, b: string)
    ensures RuneCount(a + b) == RuneCount(a) + RuneCount(b)
    decreases |b|
  {
    if b == [] {
      assert a + b == a;
    } else {
      assert (a + b)[..|a + b| - 1] == a + b[..|b| - 1];
      RuneCountAppend(a, b[..|b| - 1]);
    }
  }

  /** The suffix literal at board.go line 128, byte for byte: the UTF-8
      encoding of "…" (E2 80 A6) read as Windows-1252 and encoded again,
      giving the three characters "â€¦" in seven bytes. */
  const EllipsisAsWritten: string :=
    ['\U{C3}', '\U{A2}', '\U{E2}', '\U{82}', '\U{AC}', '\U{C2}', '\U{A6}']

  /** The horizontal ellipsis "…" in UTF-8: one character in three bytes. */
  const Ellipsis: string := ['\U{E2}', '\U{80}', '\U{A6}']

  /** truncate with the literal as it stands in board.go. */
  function TruncateAsWritten(s: string, maxLen: int): (r: string)
    ensures maxLen <= 0 ==> r == ""
    ensures |s| <= maxLen ==> r == s
    ensures 0 < maxLen <= 3 && maxLen < |s| ==> r == s[..maxLen]
    ensures 3 < maxLen < |s| ==> |r| == maxLen - 1 + |EllipsisAsWritten|
                                 && r[..maxLen - 1] == s[..maxLen - 1]
                                 && r[maxLen - 1..] == EllipsisAsWritten
  {
    if maxLen <= 0 then ""
    else if |s| <= maxLen then s
    else if maxLen <= 3 then s[..maxLen]
    else s[..maxLen - 1] + EllipsisAsWritten
  }

  /** The literal is three code points. */
  lemma EllipsisAsWrittenRunes()
    ensures RuneCount(EllipsisAsWritten) == 3
  {
    var e := EllipsisAsWritten;
    assert RuneCount(e[..1]) == 1 by { assert e[..1][..0] == []; }
    assert RuneCount(e[..2]) == 1 by { assert e[..2][..1] == e[..1]; }
    assert RuneCount(e[..3]) == 2 by { assert e[..3][..2] == e[..2]; }
    assert RuneCount(e[..4]) == 2 by { assert e[..4][..3] == e[..3]; }
    assert RuneCount(e[..5]) == 2 by { assert e[..5][..4] == e[..4]; }
    assert RuneCount(e[..6]) == 3 by { assert e[..6][..5] == e[..5]; }
    assert e[..6] == e[..|e| - 1];
  }

  /** Every cut line is the kept maxLen-1 bytes plus three code points, so
      whenever those bytes hold at least maxLen-2 characters (any ASCII
      line does) the result has more than maxLen code points. */
  lemma TruncateAsWrittenOverflowsAll(s: string, maxLen: int)
    requires 3 < maxLen < |s|
    ensures RuneCount(TruncateAsWritten(s, maxLen)) == RuneCount(s[..maxLen - 1]) + 3
    ensures RuneCount(s[..maxLen - 1]) >= maxLen - 2 ==> RuneCount(TruncateAsWritten(s, maxLen)) > maxLen
  {
    RuneCountAppend(s[..maxLen - 1], EllipsisAsWritten);
    EllipsisAsWrittenRunes();
  }

  /** An instance: "abcdef" cut to 4 is "abcâ€¦", six code points. */
  lemma TruncateAsWrittenOverflows()
    ensures TruncateAsWritten("abcdef", 4) == "abc" + EllipsisAsWritten
    ensures RuneCount(TruncateAsWritten("abcdef", 4)) == 6
  {
    TruncateAsWrittenOverflowsAll("abcdef", 4);
    assert "abcdef"[..3] == "abc";
    assert RuneCount("abc") == 3 by {
      assert "abc"[..2] == "ab" && "ab"[..1] == "a" && "a"[..0] == [];
    }
  }

  /** truncate with the intended one-character ellipsis. */
  function Truncate(s: string, maxLen: int): (r: string)
    ensures maxLen <= 0 ==> r == ""
    ensures |s| <= maxLen ==> r == s
    ensures 0 < maxLen <= 3 && maxLen < |s| ==> r == s[..maxLen]
    ensures 3 < maxLen < |s| ==> |r| == maxLen + 2
                                 && r[..maxLen - 1] == s[..maxLen - 1]
                                 && r[maxLen - 1..] == Ellipsis
  {
    if maxLen <= 0 then ""
    else if |s| <= maxLen then s
    else if maxLen <= 3 then s[..maxLen]
    else s[..maxLen - 1] + Ellipsis
  }

  /** A cut line never has more than `maxLen` code points, and it keeps a
      prefix of the line: all of it, or all but the part the ellipsis
      replaces. */
  lemma TruncateFitsWidth(s: string, maxLen: int)
    ensures RuneCount(Truncate(s, maxLen)) <= Max(maxLen, 0)
    ensures Truncate(s, maxLen) <= s || (3 < maxLen < |s| && s[..maxLen - 1] + Ellipsis == Truncate(s, maxLen))
  {
    if 3 < maxLen < |s| {
      RuneCountAppend(s[..maxLen - 1], Ellipsis);
      assert Ellipsis == Ellipsis[..2] + [Ellipsis[2]];
      assert Ellipsis[..2] == Ellipsis[..1] + [Ellipsis[1]];
    }
  }
}
