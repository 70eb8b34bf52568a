/** The board of internal/tui/model.go: three columns of commits, one per
    review status, a cursor in each, the active column and the expanded card,
    and the key handling of `updateKeys` that moves them.

    The column and board objects are updated in place, as the Go code does
    through `col := &m.columns[m.activeCol]`; each update is specified by a
    function on the board's value (`View()`), and the properties are proved
    about those functions. */
module BoardModel {
  import opened Common
  import opened Schema
  import opened CommitTable
  import opened Keys
  import BoardLayout

  datatype Screen = ScreenBoard | ScreenNote

  const NumColumns: nat := 3
  const ColNeedsReview: nat := 0
  const ColReviewed: nat := 1
  const ColIgnored: nat := 2

  /** The review status each column shows. */
  function ColumnStatus(id: nat): string
  {
    if id == ColNeedsReview then StatusUnreviewed
    else if id == ColReviewed then StatusReviewed
    else StatusIgnored
  }

  /** The command `updateKeys` hands back to the runtime. */
  datatype Cmd =
    | NoCmd
    | QuitCmd
    | UpdateReviewCmd(hash: string, status: string)
    | CopyHashCmd(hash: string)

  /** The mutable part of a column, as a value. */
  datatype ColumnState = ColumnState(commits: seq<CommitRow>, cursor: int, scroll: int)

  /** The board's key-handling state, as a value. */
  datatype BoardState = BoardState(
    cols: seq<ColumnState>,
    activeCol: nat,
    expandedHash: string,   // "" when no card is expanded
    screen: Screen,
    noteValue: string)      // the note input's text

  /** The cursor points at a card, or is 0 in an empty column. */
  predicate InRange(c: ColumnState)
  {
    0 <= c.cursor <= Max(0, |c.commits| - 1)
  }

  /** Three columns, each cursor on a card, and the active column one of
      them: what every key press and every reload keeps. */
  predicate Sound(v: BoardState)
  {
    && |v.cols| == NumColumns
    && v.activeCol < NumColumns
    && (forall k :: 0 <= k < NumColumns ==> InRange(v.cols[k]))
  }

  /** BoardColumn.Selected on a column value: the card under the cursor;
      none in an empty column or past the end.  A negative cursor would
      panic in Go. */
  function SelectedIn(c: ColumnState): (r: Option<CommitRow>)
    requires 0 <= c.cursor
    ensures r.None? <==> c.commits == [] || c.cursor >= |c.commits|
    ensures r.Some? ==> r.value == c.commits[c.cursor] && r.value in c.commits
  {
    if |c.commits| == 0 || c.cursor >= |c.commits| then None else Some(c.commits[c.cursor])
  }

  /** ClampCursor on a column value. */
  function Clamp(c: ColumnState): ColumnState
  {
    if c.cursor >= |c.commits| then c.(cursor := Max(0, |c.commits| - 1)) else c
  }

  /** The rows of `all` whose status is `status`, in the order of `all`. */
  function OfStatus(all: seq<CommitRow>, status: string): (r: seq<CommitRow>)
    ensures |r| <= |all|
  {
    if all == [] then []
    else
      var last := all[|all| - 1];
      OfStatus(all[..|all| - 1], status) + (if last.status == status then [last] else [])
  }

  /** A column value refilled with `rows` and its cursor clamped. */
  function Refill(c: ColumnState, rows: seq<CommitRow>): ColumnState
  {
    Clamp(c.(commits := rows))
  }

  /** partitionCommits on the board value. */
  function Partition(v: BoardState, all: seq<CommitRow>): BoardState
    requires |v.cols| == NumColumns
  {
    v.(cols := [Refill(v.cols[0], OfStatus(all, StatusUnreviewed)),
                Refill(v.cols[1], OfStatus(all, StatusReviewed)),
                Refill(v.cols[2], OfStatus(all, StatusIgnored))])
  }

  datatype KeyResult = KeyResult(board: BoardState, cmd: Cmd)

  /** updateKeys on the board value: the action of a key press. */
  function KeyStep(v: BoardState, a: Action): KeyResult
    requires Sound(v)
  {
    var col := v.cols[v.activeCol];
    var sel := SelectedIn(col);
    match a
    case ActionQuit => KeyResult(v, QuitCmd)
    case ActionUp =>
      var moved := if col.cursor > 0 then col.(cursor := col.cursor - 1) else col;
      KeyResult(v.(cols := v.cols[v.activeCol := moved], expandedHash := ""), NoCmd)
    case ActionDown =>
      var moved := if col.cursor < |col.commits| - 1 then col.(cursor := col.cursor + 1) else col;
      KeyResult(v.(cols := v.cols[v.activeCol := moved], expandedHash := ""), NoCmd)
    case ActionLeft =>
      KeyResult(v.(activeCol := if v.activeCol > 0 then v.activeCol - 1 else v.activeCol,
                   expandedHash := ""), NoCmd)
    case ActionRight =>
      KeyResult(v.(activeCol := if v.activeCol < NumColumns - 1 then v.activeCol + 1 else v.activeCol,
                   expandedHash := ""), NoCmd)
    case ActionExpand =>
      if sel.None? then KeyResult(v, NoCmd)
      else if v.expandedHash == sel.value.hash then KeyResult(v.(expandedHash := ""), NoCmd)
      else KeyResult(v.(expandedHash := sel.value.hash), NoCmd)
    case ActionBack => KeyResult(v.(expandedHash := ""), NoCmd)
    case ActionReview =>
      KeyResult(v, if sel.Some? then UpdateReviewCmd(sel.value.hash, StatusReviewed) else NoCmd)
    case ActionUnreview =>
      KeyResult(v, if sel.Some? then UpdateReviewCmd(sel.value.hash, StatusUnreviewed) else NoCmd)
    case ActionIgnore =>
      KeyResult(v, if sel.Some? then UpdateReviewCmd(sel.value.hash, StatusIgnored) else NoCmd)
    case ActionCopy =>
      KeyResult(v, if sel.Some? then CopyHashCmd(sel.value.hash[..Min(7, |sel.value.hash|)]) else NoCmd)
    case ActionNote =>
      if sel.Some? then KeyResult(v.(noteValue := sel.value.note, screen := ScreenNote), NoCmd)
      else KeyResult(v, NoCmd)
    case ActionNone => KeyResult(v, NoCmd)
  }

  /** One column of the board (Go's `BoardColumn`). */
  class BoardColumn {
    const id: nat
    const title: string
    const status: string
    var commits: seq<CommitRow>
    var cursor: int
    var scroll: int

    constructor (id: nat, title: string, status: string)
      ensures this.id == id && this.title == title && this.status == status
      ensures State() == ColumnState([], 0, 0)
    {
      this.id, this.title, this.status := id, title, status;
      commits, cursor, scroll := [], 0, 0;
    }

    function State(): ColumnState
      reads this
    {
      ColumnState(commits, cursor, scroll)
    }

    /** Selected: the card under the cursor, if any. */
    function Selected(): (r: Option<CommitRow>)
      reads this
      requires 0 <= cursor
      ensures r == SelectedIn(State())
    {
      if |commits| == 0 || cursor >= |commits| then None else Some(commits[cursor])
    }

    /** ClampCursor: a cursor past the end moves to the last card. */
    method ClampCursor()
      modifies this
      ensures State() == Clamp(old(State()))
    {
      if cursor >= |commits| {
        cursor := Max(0, |commits| - 1);
      }
    }
  }

  /** The board part of Go's `Model`. */
  class Board {
    const columns: seq<BoardColumn>
    var activeCol: nat
    var expandedHash: string
    var screen: Screen
    var noteValue: string

    function View(): BoardState
      reads this, columns
      requires |columns| == NumColumns
    {
      BoardState([columns[0].State(), columns[1].State(), columns[2].State()],
                 activeCol, expandedHash, screen, noteValue)
    }

    /** Three distinct column objects in status order, and a sound value. */
    ghost predicate Valid()
      reads this, columns
    {
      && |columns| == NumColumns
      && columns[0] != columns[1] && columns[1] != columns[2] && columns[0] != columns[2]
      && (forall k :: 0 <= k < NumColumns ==> columns[k].id == k && columns[k].status == ColumnStatus(k))
      && Sound(View())
    }

    /** NewModel: three empty columns, the first one active, nothing
        expanded, the board on screen. */
    constructor ()
      ensures Valid() && fresh(columns)
      ensures View() == BoardState([ColumnState([], 0, 0), ColumnState([], 0, 0), ColumnState([], 0, 0)],
                                   ColNeedsReview, "", ScreenBoard, "")
    {
      var needsReview := new BoardColumn(ColNeedsReview, "Needs Review", StatusUnreviewed);
      var reviewed := new BoardColumn(ColReviewed, "Reviewed", StatusReviewed);
      var ignored := new BoardColumn(ColIgnored, "Ignored", StatusIgnored);
      columns := [needsReview, reviewed, ignored];
      activeCol, expandedHash, screen, noteValue := ColNeedsReview, "", ScreenBoard, "";
    }

    /** visibleCardRange for one column of this board: a card is expanded
        there only if it is the active column.  On a valid board the cursor
        card of every non-empty column is drawn. */
    function VisibleRange(colId: nat, height: int): (r: (int, int))
      reads this, columns
      requires Valid() && colId < NumColumns
      ensures columns[colId].commits == [] ==> r == (0, 0)
      ensures columns[colId].commits != [] ==>
                0 <= r.0 <= columns[colId].cursor < r.1 <= |columns[colId].commits|
      ensures r.1 - r.0 <= BoardLayout.VisibleSlots(height, expandedHash != "" && colId == activeCol)
    {
      var col := columns[colId];
      assert InRange(View().cols[colId]);
      BoardLayout.VisibleCardRange(|col.commits|, col.cursor, col.scroll, height,
                                   expandedHash != "" && colId == activeCol)
    }

    /** partitionCommits: buckets by status, then each column refilled. */
    method PartitionCommits(all: seq<CommitRow>)
      requires Valid()
      modifies columns
      ensures Valid()
      ensures View() == Partition(old(View()), all)
    {
      var needsReview, reviewed, ignored := Buckets(all);
      var buckets := [needsReview, reviewed, ignored];
      ghost var before := View();
      for k := 0 to NumColumns
        invariant forall j :: 0 <= j < k ==> columns[j].State() == Refill(before.cols[j], buckets[j])
        invariant forall j :: k <= j < NumColumns ==> columns[j].State() == before.cols[j]
        invariant activeCol == before.activeCol && expandedHash == before.expandedHash
        invariant screen == before.screen && noteValue == before.noteValue
      {
        columns[k].commits := buckets[k];
        columns[k].ClampCursor();
      }
      PartitionSound(before, all);
    }

    /** updateKeys. */
    method UpdateKeys(key: string) returns (cmd: Cmd)
      requires Valid()
      modifies this, columns[activeCol]
      ensures Valid()
      ensures View() == KeyStep(old(View()), MapKey(key)).board
      ensures cmd == KeyStep(old(View()), MapKey(key)).cmd
    {
      ghost var before := View();
      assert InRange(before.cols[activeCol]);
      var action := MapKey(key);
      var col := columns[activeCol];
      cmd := NoCmd;
      match action {
        case ActionQuit =>
          cmd := QuitCmd;
        case ActionUp =>
          expandedHash := "";
          if col.cursor > 0 {
            col.cursor := col.cursor - 1;
          }
        case ActionDown =>
          expandedHash := "";
          if col.cursor < |col.commits| - 1 {
            col.cursor := col.cursor + 1;
          }
        case ActionLeft =>
          expandedHash := "";
          if activeCol > 0 {
            activeCol := activeCol - 1;
          }
        case ActionRight =>
          expandedHash := "";
          if activeCol < NumColumns - 1 {
            activeCol := activeCol + 1;
          }
        case ActionExpand =>
          var c := col.Selected();
          if c.Some? {
            if expandedHash == c.value.hash {
              expandedHash := "";
            } else {
              expandedHash := c.value.hash;
            }
          }
        case ActionBack =>
          expandedHash := "";
        case ActionReview =>
          var c := col.Selected();
          if c.Some? {
            cmd := UpdateReviewCmd(c.value.hash, StatusReviewed);
          }
        case ActionUnreview =>
          var c := col.Selected();
          if c.Some? {
            cmd := UpdateReviewCmd(c.value.hash, StatusUnreviewed);
          }
        case ActionIgnore =>
          var c := col.Selected();
          if c.Some? {
            cmd := UpdateReviewCmd(c.value.hash, StatusIgnored);
          }
        case ActionCopy =>
          var c := col.Selected();
          if c.Some? {
            cmd := CopyHashCmd(c.value.hash[..Min(7, |c.value.hash|)]);
          }
        case ActionNote =>
          var c := col.Selected();
          if c.Some? {
            noteValue := c.value.note;
            screen := ScreenNote;
          }
        case ActionNone =>
      }
      assert View() == KeyStep(before, action).board;
      KeyStepSound(before, action);
    }

    /** The first loop of partitionCommits: one bucket per status. */
    static method Buckets(all: seq<CommitRow>) returns (needsReview: seq<CommitRow>, reviewed: seq<CommitRow>,
                                                       ignored: seq<CommitRow>)
      ensures needsReview == OfStatus(all, StatusUnreviewed)
      ensures reviewed == OfStatus(all, StatusReviewed)
      ensures ignored == OfStatus(all, StatusIgnored)
    {
      needsReview, reviewed, ignored := [], [], [];
      for i := 0 to |all|
        invariant needsReview == OfStatus(all[..i], StatusUnreviewed)
        invariant reviewed == OfStatus(all[..i], StatusReviewed)
        invariant ignored == OfStatus(all[..i], StatusIgnored)
      {
        var c := all[i];
        assert all[..i + 1][..i] == all[..i];
        if c.status == StatusUnreviewed {
          needsReview := needsReview + [c];
        } else if c.status == StatusReviewed {
          reviewed := reviewed + [c];
        } else if c.status == StatusIgnored {
          ignored := ignored + [c];
        }
      }
      assert all[..|all|] == all;
    }
  }

  /** Clamping leaves a cursor on a card alone and puts any cursor that is
      not negative on a card. */
  lemma ClampInRange(c: ColumnState)
    ensures Clamp(c).commits == c.commits && Clamp(c).scroll == c.scroll
    ensures c.cursor < |c.commits| ==> Clamp(c) == c
    ensures c.cursor >= 0 ==> InRange(Clamp(c))
  {
  }

  /** On a sound board, the selected card exists exactly when the column has
      cards. */
  lemma SelectedWhenNonEmpty(c: ColumnState)
    requires InRange(c)
    ensures SelectedIn(c).None? <==> c.commits == []
  {
  }

  /** A column holds exactly the rows of its status. */
  lemma {:induction false} OfStatusMembers(all: seq<CommitRow>, status: string, x: CommitRow)
    ensures x in OfStatus(all, status) <==> x in all && x.status == status
  {
    if all != [] {
      var init := all[..|all| - 1];
      OfStatusMembers(init, status, x);
      assert all == init + [all[|all| - 1]];
    }
  }

  /** Filtering keeps order: filtering a concatenation concatenates the
      filtered parts. */
  lemma {:induction false} OfStatusAppend(a: seq<CommitRow>, b: seq<CommitRow>, status: string)
    ensures OfStatus(a + b, status) == OfStatus(a, status) + OfStatus(b, status)
    decreases |b|
  {
    if b == [] {
      assert a + b == a;
    } else {
      var init := b[..|b| - 1];
      assert (a + b)[..|a + b| - 1] == a + init;
      OfStatusAppend(a, init, status);
    }
  }

  /** The three columns together hold at most every row, and every row when
      each has one of the three statuses: no row lands in two columns. */
  lemma {:induction false} PartitionCovers(all: seq<CommitRow>)
    ensures |OfStatus(all, StatusUnreviewed)| + |OfStatus(all, StatusReviewed)|
            + |OfStatus(all, StatusIgnored)| <= |all|
    ensures (forall i :: 0 <= i < |all| ==> all[i].status in {StatusUnreviewed, StatusReviewed, StatusIgnored})
            ==> |OfStatus(all, StatusUnreviewed)| + |OfStatus(all, StatusReviewed)|
                + |OfStatus(all, StatusIgnored)| == |all|
  {
    if all != [] {
      var init := all[..|all| - 1];
      PartitionCovers(init);
      if forall i :: 0 <= i < |all| ==> all[i].status in {StatusUnreviewed, StatusReviewed, StatusIgnored} {
        assert forall i :: 0 <= i < |init| ==> init[i] == all[i];
      }
    }
  }

  /** After partitionCommits every column holds exactly its status's rows,
      in load order, with its scroll offset kept and its cursor clamped onto
      a card; the active column, expanded card and screen are unchanged. */
  lemma PartitionSound(v: BoardState, all: seq<CommitRow>)
    requires Sound(v)
    ensures var r := Partition(v, all);
            && Sound(r)
            && r.activeCol == v.activeCol && r.expandedHash == v.expandedHash
            && r.screen == v.screen && r.noteValue == v.noteValue
    ensures forall k :: 0 <= k < NumColumns ==>
              && Partition(v, all).cols[k].commits == OfStatus(all, ColumnStatus(k))
              && Partition(v, all).cols[k].scroll == v.cols[k].scroll
              && (v.cols[k].cursor < |Partition(v, all).cols[k].commits| ==>
                    Partition(v, all).cols[k].cursor == v.cols[k].cursor)
  {
    var r := Partition(v, all);
    forall k | 0 <= k < NumColumns ensures InRange(r.cols[k]) {
      ClampInRange(v.cols[k].(commits := OfStatus(all, ColumnStatus(k))));
    }
  }

  /** Every key press keeps the board sound: cursors on cards, the active
      column one of the three. */
  lemma KeyStepSound(v: BoardState, a: Action)
    requires Sound(v)
    ensures Sound(KeyStep(v, a).board)
    ensures |KeyStep(v, a).board.cols| == NumColumns
  {
    var r := KeyStep(v, a).board;
    assert InRange(v.cols[v.activeCol]);
    forall k | 0 <= k < NumColumns ensures InRange(r.cols[k]) {
      assert InRange(v.cols[k]);
    }
  }

  /** Up and Down move only the active column's cursor, by one, and stop at
      the first and last card; both collapse the expanded card. */
  lemma UpDownBounded(v: BoardState, a: Action)
    requires Sound(v) && (a == ActionUp || a == ActionDown)
    ensures var r := KeyStep(v, a).board;
            && r.expandedHash == "" && r.activeCol == v.activeCol && KeyStep(v, a).cmd == NoCmd
            && (forall k :: 0 <= k < NumColumns && k != v.activeCol ==> r.cols[k] == v.cols[k])
            && r.cols[v.activeCol].commits == v.cols[v.activeCol].commits
            && r.cols[v.activeCol].scroll == v.cols[v.activeCol].scroll
    ensures a == ActionUp ==>
              KeyStep(v, a).board.cols[v.activeCol].cursor == Max(0, v.cols[v.activeCol].cursor - 1)
    ensures a == ActionDown ==>
              KeyStep(v, a).board.cols[v.activeCol].cursor
                == Min(v.cols[v.activeCol].cursor + 1, Max(0, |v.cols[v.activeCol].commits| - 1))
  {
    assert InRange(v.cols[v.activeCol]);
  }

  /** Left and Right move the active column by one and stop at either end;
      no cursor moves. */
  lemma LeftRightBounded(v: BoardState, a: Action)
    requires Sound(v) && (a == ActionLeft || a == ActionRight)
    ensures var r := KeyStep(v, a).board;
            && r.cols == v.cols && r.expandedHash == "" && r.activeCol < NumColumns
            && KeyStep(v, a).cmd == NoCmd
    ensures a == ActionLeft ==> KeyStep(v, a).board.activeCol == Max(0, v.activeCol - 1)
    ensures a == ActionRight ==> KeyStep(v, a).board.activeCol == Min(NumColumns - 1, v.activeCol + 1)
  {
  }

  /** Expand collapses the card under the cursor if it is the expanded one
      and expands it otherwise; on an empty column it does nothing.  Back
      always collapses.  Nothing else changes. */
  lemma ExpandToggles(v: BoardState)
    requires Sound(v)
    ensures var sel := SelectedIn(v.cols[v.activeCol]);
            var r := KeyStep(v, ActionExpand);
            && r.cmd == NoCmd
            && (sel.None? ==> r.board == v)
            && (sel.Some? && v.expandedHash == sel.value.hash ==> r.board == v.(expandedHash := ""))
            && (sel.Some? && v.expandedHash != sel.value.hash ==> r.board == v.(expandedHash := sel.value.hash))
    ensures KeyStep(v, ActionBack) == KeyResult(v.(expandedHash := ""), NoCmd)
  {
    assert InRange(v.cols[v.activeCol]);
  }

  /** Pressing enter twice on the same card restores the board, whether the
      card started collapsed or expanded. */
  lemma ExpandTwiceRestores(v: BoardState)
    requires Sound(v) && v.cols[v.activeCol].commits != []
    requires v.expandedHash == "" || v.expandedHash == SelectedIn(v.cols[v.activeCol]).value.hash
    ensures Sound(KeyStep(v, ActionExpand).board)
            && KeyStep(KeyStep(v, ActionExpand).board, ActionExpand).board == v
  {
    assert InRange(v.cols[v.activeCol]);
    ExpandToggles(v);
    var once := KeyStep(v, ActionExpand).board;
    KeyStepSound(v, ActionExpand);
    ExpandToggles(once);
  }

  /** Review, Unreview, Ignore and Copy act on the selected card and do
      nothing on an empty column; none of them changes the board. */
  lemma CommandsNeedSelection(v: BoardState, a: Action)
    requires Sound(v) && a in {ActionReview, ActionUnreview, ActionIgnore, ActionCopy}
    ensures KeyStep(v, a).board == v
    ensures v.cols[v.activeCol].commits == [] <==> KeyStep(v, a).cmd == NoCmd
    ensures var c := v.cols[v.activeCol];
            c.commits != [] && a == ActionReview ==>
              KeyStep(v, a).cmd == UpdateReviewCmd(c.commits[c.cursor].hash, StatusReviewed)
    ensures var c := v.cols[v.activeCol];
            c.commits != [] && a == ActionUnreview ==>
              KeyStep(v, a).cmd == UpdateReviewCmd(c.commits[c.cursor].hash, StatusUnreviewed)
    ensures var c := v.cols[v.activeCol];
            c.commits != [] && a == ActionIgnore ==>
              KeyStep(v, a).cmd == UpdateReviewCmd(c.commits[c.cursor].hash, StatusIgnored)
    ensures var c := v.cols[v.activeCol];
            c.commits != [] && a == ActionCopy ==>
              KeyStep(v, a).cmd == CopyHashCmd(c.commits[c.cursor].hash[..Min(7, |c.commits[c.cursor].hash|)])
  {
    assert InRange(v.cols[v.activeCol]);
  }

  /** Quit and unbound keys leave the board as it is. */
  lemma QuitAndNoneKeepBoard(v: BoardState)
    requires Sound(v)
    ensures KeyStep(v, ActionQuit) == KeyResult(v, QuitCmd)
    ensures KeyStep(v, ActionNone) == KeyResult(v, NoCmd)
  {
  }
}
