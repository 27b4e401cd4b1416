/** The scan that puts rows back together from the column pages of each group
    (src/sqlcore/executor/scan/seqscan.c, src/sqlcore/storage/buffer/buffer.c).

    Pages and the group directory do not change while a scan runs; `read` stands for the visibility check of a record
    and the walk down its version chain: it yields the version that the statement's snapshot sees, or none. */
module PaxScan {
  import opened Commons
  import opened Framing
  import opened PaxTable

  /** The pages of the group file from its second on, each a list of groups. */
  type Directory = seq<seq<Group>>

  const NULL := -1

  function Flat(dir: Directory): seq<Group> {
    if dir == [] then [] else Flat(dir[..|dir| - 1]) + dir[|dir| - 1]
  }

  function LastPage(dir: Directory): nat {
    if dir == [] then 0 else |dir| - 1
  }

  /** How many groups lie before directory page p. */
  function Before(dir: Directory, p: nat): nat {
    if p == 0 || p > |dir| then 0 else Before(dir, p - 1) + |dir[p - 1]|
  }

  lemma {:induction false} FlatAt(dir: Directory, p: nat, q: nat, j: nat)
    requires p <= |dir|
    ensures |Flat(dir[..p])| == Before(dir, p)
    ensures q < p && j < |dir[q]| ==> Before(dir, q) + j < Before(dir, p) && Flat(dir[..p])[Before(dir, q) + j] == dir[q][j]
  {
    if p > 0 {
      FlatAt(dir, p - 1, q, j);
      assert dir[..p][..p - 1] == dir[..p - 1] && dir[..p][p - 1] == dir[p - 1];
    }
  }

  lemma BeforeNext(dir: Directory, p: nat)
    ensures Before(dir, 0) == 0
    ensures p < |dir| ==> Before(dir, p + 1) == Before(dir, p) + |dir[p]|
    ensures dir == [] ==> Flat(dir) == [] && Before(dir, p) == 0
  {
  }

  lemma {:induction false} BeforeBound(dir: Directory, p: nat)
    ensures Before(dir, p) <= |Flat(dir)|
    decreases |dir|
  {
    if 0 < p <= |dir| {
      var n := |dir| - 1;
      BeforePrefix(dir, if p <= n then p else n);
      BeforeBound(dir[..n], if p <= n then p else n);
    }
  }

  lemma {:induction false} BeforePrefix(dir: Directory, p: nat)
    requires p < |dir|
    ensures Before(dir[..|dir| - 1], p) == Before(dir, p)
  {
    if p > 0 {
      BeforePrefix(dir, p - 1);
    }
  }

  /** The columns that a scan reads of one row, as the snapshot sees them; none if it does not see one of them. */
  function Seen<T>(row: seq<T>, cols: seq<int>, read: T -> Option<Cell>): Option<seq<Cell>> {
    if cols == [] then Some([])
    else if !(0 <= cols[|cols| - 1] < |row|) then None
    else
      var cells, cell := Seen(row, cols[..|cols| - 1], read), read(row[cols[|cols| - 1]]);
      if cells.Some? && cell.Some? then Some(cells.value + [cell.value]) else None
  }

  /** The rows of one group that the snapshot sees, in their order. */
  function Visible<T>(rows: seq<seq<T>>, cols: seq<int>, read: T -> Option<Cell>): seq<seq<Cell>> {
    if rows == [] then []
    else
      var seen := Seen(rows[0], cols, read);
      (if seen.Some? then [seen.value] else []) + Visible(rows[1..], cols, read)
  }

  function AllVisible<T>(groups: seq<seq<seq<T>>>, cols: seq<int>, read: T -> Option<Cell>): seq<seq<Cell>> {
    if groups == [] then [] else Visible(groups[0], cols, read) + AllVisible(groups[1..], cols, read)
  }

  /** These cells are what the snapshot sees in the listed columns of the row, one for each. */
  ghost predicate ReadAs<T>(row: seq<T>, cols: seq<int>, read: T -> Option<Cell>, cells: seq<Cell>) {
    |cells| == |cols| && forall j :: 0 <= j < |cols| ==> 0 <= cols[j] < |row| && read(row[cols[j]]) == Some(cells[j])
  }

  /** In one of the listed columns it sees nothing. */
  ghost predicate Unseen<T>(row: seq<T>, cols: seq<int>, read: T -> Option<Cell>) {
    exists j :: 0 <= j < |cols| && !(0 <= cols[j] < |row| && read(row[cols[j]]).Some?)
  }

  lemma {:induction false} SeenIs<T>(row: seq<T>, cols: seq<int>, read: T -> Option<Cell>)
    ensures match Seen(row, cols, read)
            case Some(cells) => ReadAs(row, cols, read, cells)
            case None => Unseen(row, cols, read)
  {
    if cols != [] {
      var n := |cols| - 1;
      SeenIs(row, cols[..n], read);
      if Seen(row, cols[..n], read).None? {
        var j :| 0 <= j < n && !(0 <= cols[..n][j] < |row| && read(row[cols[..n][j]]).Some?);
        assert !(0 <= cols[j] < |row| && read(row[cols[j]]).Some?);
      } else {
        assert !(0 <= cols[n] < |row| && read(row[cols[n]]).Some?) ==> Unseen(row, cols, read);
      }
    }
  }

  /** The rows of a group that are visible from row n on, by position: in ascending order, each with its own cells, and
      none left out but those in which some listed column is not seen. */
  lemma {:induction false} VisibleAt<T>(rows: seq<seq<T>>, n: nat, cols: seq<int>, read: T -> Option<Cell>) returns (at: seq<nat>)
    requires n <= |rows|
    ensures |at| == |Visible(rows[n..], cols, read)|
    ensures forall k :: 0 <= k < |at| ==> n <= at[k] < |rows|
    ensures forall k, l :: 0 <= k < l < |at| ==> at[k] < at[l]
    ensures forall k :: 0 <= k < |at| ==> ReadAs(rows[at[k]], cols, read, Visible(rows[n..], cols, read)[k])
    ensures forall r :: n <= r < |rows| ==> r in at || Unseen(rows[r], cols, read)
    decreases |rows| - n
  {
    hide Seen, ReadAs, Unseen;
    at := [];
    if n < |rows| {
      assert rows[n..][0] == rows[n] && rows[n..][1..] == rows[n + 1..];
      SeenIs(rows[n], cols, read);
      at := VisibleAt(rows, n + 1, cols, read);
      if Seen(rows[n], cols, read).Some? {
        var rest := at;
        at := [n] + rest;
        assert at[0] == n && forall r :: r in rest ==> r in at;
      } else {
        assert [] + Visible(rows[n + 1..], cols, read) == Visible(rows[n + 1..], cols, read);
      }
    }
  }

  datatype Place = Place(group: nat, row: nat)

  predicate Earlier(p: Place, q: Place) {
    p.group < q.group || (p.group == q.group && p.row < q.row)
  }

  function Places(g: nat, rows: seq<nat>): (at: seq<Place>)
    ensures |at| == |rows| && forall k :: 0 <= k < |rows| ==> at[k] == Place(g, rows[k])
    ensures forall r :: r in rows ==> Place(g, r) in at
  {
    var at := seq(|rows|, k requires 0 <= k < |rows| => Place(g, rows[k]));
    assert forall k :: 0 <= k < |rows| ==> at[k] in at;
    at
  }

  /** Likewise for all groups from group n on: what a scan yields is the rows at these places, in this order. */
  lemma {:induction false} AllVisibleAt<T>(groups: seq<seq<seq<T>>>, n: nat, cols: seq<int>, read: T -> Option<Cell>) returns (at: seq<Place>)
    requires n <= |groups|
    ensures |at| == |AllVisible(groups[n..], cols, read)|
    ensures forall k :: 0 <= k < |at| ==> n <= at[k].group < |groups| && at[k].row < |groups[at[k].group]|
    ensures forall k, l :: 0 <= k < l < |at| ==> Earlier(at[k], at[l])
    ensures forall k :: 0 <= k < |at| ==> ReadAs(groups[at[k].group][at[k].row], cols, read, AllVisible(groups[n..], cols, read)[k])
    ensures forall g: nat, r: nat :: n <= g < |groups| && r < |groups[g]| ==> Place(g, r) in at || Unseen(groups[g][r], cols, read)
    decreases |groups| - n
  {
    hide Visible, ReadAs, Unseen;
    at := [];
    if n < |groups| {
      assert groups[n..][0] == groups[n] && groups[n..][1..] == groups[n + 1..] && groups[n][0..] == groups[n];
      var first := VisibleAt(groups[n], 0, cols, read);
      var rest := AllVisibleAt(groups, n + 1, cols, read);
      var here := Places(n, first);
      at := here + rest;
      assert forall p :: p in here || p in rest ==> p in at;
    }
  }

  /** The columns of a scan's list: in ascending order, each once. */
  predicate Ascending(cols: seq<int>, colNum: nat) {
    && (forall i :: 0 <= i < |cols| ==> 0 <= cols[i] < colNum)
    && (forall i, j :: 0 <= i < j < |cols| ==> cols[i] < cols[j])
  }

  /** GetGroupMemberPagesOpt: walks the members of a group once, picking the pages of the listed columns;
      it finds them all exactly when the list is ascending. */
  method MemberPages(members: seq<int>, cols: seq<int>) returns (pagelist: seq<int>, found: bool)
    requires cols != [] && (forall i :: 0 <= i < |members| ==> members[i] != 0)
    ensures found == Ascending(cols, |members|)
    ensures found ==> |pagelist| == |cols| && forall i :: 0 <= i < |cols| ==> pagelist[i] == members[cols[i]]
  {
    pagelist := [];
    var colPageIndex := 0;
    var pageIndex := if members == [] then 0 else members[0];
    while pageIndex != 0
      invariant 0 <= colPageIndex <= |members| && pageIndex == if colPageIndex < |members| then members[colPageIndex] else 0
      invariant |pagelist| < |cols| && Ascending(cols[..|pagelist|], colPageIndex)
      invariant forall i :: 0 <= i < |pagelist| ==> pagelist[i] == members[cols[i]]
      invariant cols[|pagelist|] < colPageIndex ==> !Ascending(cols, |members|)
      decreases |members| - colPageIndex
    {
      if colPageIndex == cols[|pagelist|] {
        assert cols[..|pagelist| + 1] == cols[..|pagelist|] + [colPageIndex];
        pagelist := pagelist + [pageIndex];
        if |pagelist| >= |cols| {
          assert cols[..|pagelist|] == cols;
          break;
        }
      }
      colPageIndex := colPageIndex + 1;
      pageIndex := if colPageIndex < |members| then members[colPageIndex] else 0;
    }
    found := |pagelist| == |cols|;
  }

  /** The state of one sequential scan of a table. */
  class SeqScanState {
    const pages: map<int, seq<Cell>>
    const dir: Directory
    const colindexList: seq<int>
    const read: Cell -> Option<Cell>
    const colNum: nat
    /** What the pages hold. */
    ghost const rows: seq<seq<Row>>

    /** The group search: its page, if it has one, the item last found there, and the number of its last page. */
    var groupPage: int
    var groupItem: int
    var pageNum: nat

    /** The member pages of the current group; empty when they are released. */
    var pageList: seq<int>
    /** The item last read on each of them, or none. */
    var offsets: seq<int>
    var pageReset: bool

    /** The group to be looked up next, and the rows left of the current one. */
    ghost var next: nat
    ghost var rest: seq<Row>
    ghost var ended: bool

    ghost predicate TableInv() {
      Stored(pages, Flat(dir), rows, colNum)
    }

    /** Where the group search stands. */
    ghost predicate SearchInv()
      reads this`groupPage, this`groupItem, this`pageNum, this`next
    {
      && pageNum <= |dir| && (pageNum == |dir| ==> pageNum == 0)
      && (groupPage == NULL || (groupPage == pageNum < |dir| && 0 <= groupItem < |dir[pageNum]|))
      && next == Before(dir, pageNum) + if groupPage == NULL then 0 else groupItem + 1
    }

    /** The pages of the current group hold the listed columns of its rows. */
    ghost predicate Open()
      reads this
    {
      && 0 < next <= |rows| && |pageList| == |colindexList| == |offsets| && Ascending(colindexList, colNum)
      && (forall i :: 0 <= i < |pageList| ==> pageList[i] in pages && Column(pages[pageList[i]], rows[next - 1], colindexList[i]))
    }

    /** Every column is about to read row k of the current group. */
    ghost predicate At(k: int)
      reads this
    {
      Open() && 0 <= k <= |rows[next - 1]| && if pageReset then k == 0 else forall i :: 0 <= i < |offsets| ==> offsets[i] == k - 1
    }

    ghost predicate Valid()
      reads this
    {
      && TableInv() && SearchInv() && colindexList != [] && |offsets| == |colindexList|
      && (!ended && !pageReset ==> At(offsets[0] + 1) && rest == Visible(rows[next - 1][offsets[0] + 1..], colindexList, read))
      && (!ended && pageReset ==> rest == [])
      && next <= |rows|
    }

    /** What the scan has yet to yield. */
    ghost function Pending(): seq<seq<Cell>>
      requires next <= |rows|
      reads this
    {
      if ended || !Ascending(colindexList, colNum) then [] else rest + AllVisible(rows[next..], colindexList, read)
    }

    /** InitScanPositionInfo. */
    constructor (pages: map<int, seq<Cell>>, dir: Directory, cols: seq<int>, read: Cell -> Option<Cell>, colNum: nat, ghost rows: seq<seq<Row>>)
      requires cols != [] && Stored(pages, Flat(dir), rows, colNum)
      ensures Valid() && !ended && this.rows == rows && this.dir == dir && colindexList == cols && this.read == read && this.colNum == colNum
      ensures Pending() == if Ascending(cols, colNum) then AllVisible(rows, cols, read) else []
    {
      this.pages, this.dir, colindexList, this.read, this.colNum, this.rows := pages, dir, cols, read, colNum, rows;
      groupPage, groupItem, pageNum := NULL, 0, 0;
      pageList, offsets, pageReset := [], seq(|cols|, _ => NULL), true;
      next, rest, ended := 0, [], false;
      new;
      assert rows[0..] == rows && [] + AllVisible(rows, cols, read) == AllVisible(rows, cols, read);
    }

    /** The search has run off the last directory page, and still has its number. */
    predicate SearchEnded()
      reads this`groupPage, this`pageNum
    {
      groupPage == NULL && pageNum == LastPage(dir)
    }

    /** GetGroupInfo: the next group of the directory; at its end, the search keeps the number of the last page. */
    method GetGroupInfo() returns (found: bool, g: Group)
      requires SearchInv()
      modifies this`groupPage, this`groupItem, this`pageNum, this`next
      ensures SearchInv()
      ensures if old(next) < |Flat(dir)| then found && g == Flat(dir)[old(next)] && next == old(next) + 1 && groupPage != NULL
              else !found && SearchEnded()
    {
      hide Before, Flat;
      g := Group([]);
      found := false;
      var page, item := groupPage, 0;
      BeforeNext(dir, 0);
      FlatAt(dir, |dir|, 0, 0);
      assert dir[..|dir|] == dir;
      if page == NULL {
        if pageNum >= |dir| {
          return;
        }
        page := pageNum;
        groupPage := page;
      } else {
        item := groupItem + 1;
        pageNum := page;
      }
      while page != NULL
        invariant groupPage == page && next == old(next)
        invariant page != NULL ==> 0 <= page == pageNum < |dir| && 0 <= item <= |dir[page]| && next == Before(dir, page) + item
        invariant page == NULL ==> next == |Flat(dir)| && pageNum == |dir| - 1
        decreases if page == NULL then 0 else |dir| - page
      {
        BeforeNext(dir, page);
        if item >= |dir[page]| {
          item := 0;
          page := if page + 1 < |dir| then page + 1 else NULL;
          groupPage := page;
          if page != NULL {
            pageNum := page;
          }
        } else {
          FlatAt(dir, |dir|, page, item);
          found, g := true, dir[page][item];
          groupItem := item;
          next := next + 1;
          return;
        }
      }
      next := Before(dir, pageNum);
    }

    /** The column loop of SeqScanNextColumnOpt, for row k: every column moves on to it, also past the first one that
        the snapshot does not see. */
    method ReadColumns(ghost k: nat) returns (flag: ScanFlag, cells: seq<Cell>)
      requires At(k) && colindexList != []
      requires k < |rows[next - 1]| ==> colNum <= |rows[next - 1][k]|
      modifies this`offsets, this`pageReset
      ensures !pageReset && Open()
      ensures if k == |rows[next - 1]| then flag == SCAN_END_OF_FILE else
                && At(k + 1)
                && match Seen(rows[next - 1][k], colindexList, read)
                   case Some(seen) => flag == SCAN_NEXT_ROW && cells == seen
                   case None => flag == IGNORE_INVISIBILITY_COLUMNS
    {
      hide Seen, Visible, AllVisible;
      SeenNone(colindexList, read);
      flag, cells := SCAN_NEXT_ROW, [];
      var index := 0;
      while index < |pageList|
        invariant index <= |pageList| && Open() && pageReset == old(pageReset) && |offsets| == |old(offsets)|
        invariant index > 0 ==> k < |rows[next - 1]|
        invariant forall i :: 0 <= i < index ==> offsets[i] == k
        invariant forall i :: index <= i < |offsets| ==> offsets[i] == old(offsets[i])
        invariant if index > 0 then SeenSoFar(rows[next - 1][k], colindexList[..index], read, flag, cells) else flag == SCAN_NEXT_ROW && cells == []
      {
        if pageReset {
          offsets := offsets[index := NULL];
        }
        assert Column(pages[pageList[index]], rows[next - 1], colindexList[index]);
        if offsets[index] + 1 >= |pages[pageList[index]]| {
          flag := SCAN_END_OF_FILE;
          break;
        }
        offsets := offsets[index := offsets[index] + 1];
        var cell := pages[pageList[index]][offsets[index]];
        SeenNext(rows[next - 1][k], colindexList, index, read);
        if flag != IGNORE_INVISIBILITY_COLUMNS {
          var version := read(cell);
          if version.None? {
            flag := IGNORE_INVISIBILITY_COLUMNS;
          } else {
            cells := cells + [version.value];
          }
        }
        index := index + 1;
      }
      assert colindexList[..|colindexList|] == colindexList;
      pageReset := false;
    }

    /** SeqScanNextColumnOpt: the next row of the current group that the snapshot sees. */
    method SeqScanNextColumnOpt(ghost k: nat) returns (row: Option<seq<Cell>>, ghost k': nat)
      requires At(k) && TableInv() && colindexList != []
      modifies this`offsets, this`pageReset
      ensures !pageReset && Open() && k <= k' <= |rows[next - 1]|
      ensures match row
              case Some(cells) => At(k') && Visible(rows[next - 1][k..], colindexList, read) == [cells] + Visible(rows[next - 1][k'..], colindexList, read)
              case None => Visible(rows[next - 1][k..], colindexList, read) == []
    {
      hide TableInv, Seen;
      ghost var all := rows[next - 1];
      k' := k;
      while true
        invariant k <= k' <= |all| && At(k')
        invariant Visible(all[k..], colindexList, read) == Visible(all[k'..], colindexList, read)
        decreases |all| - k'
      {
        RowWidth(k');
        var flag, cells := ReadColumns(k');
        if flag == SCAN_END_OF_FILE {
          return None, k';
        }
        assert all[k'..][0] == all[k'] && all[k'..][1..] == all[k' + 1..];
        k' := k' + 1;
        if flag != IGNORE_INVISIBILITY_COLUMNS {
          return Some(cells), k';
        }
      }
    }

    /** GetGroupMemberPagesOpt: the member pages of the next group, if its columns are all found. */
    method OpenGroup() returns (found: bool)
      requires TableInv() && SearchInv() && colindexList != [] && |offsets| == |colindexList| && next <= |rows|
      modifies this`groupPage, this`groupItem, this`pageNum, this`next, this`pageList, this`pageReset
      ensures SearchInv() && next <= |rows|
      ensures found == (old(next) < |rows| && Ascending(colindexList, colNum))
      ensures found ==> next == old(next) + 1 && pageReset && At(0)
      ensures !found && Ascending(colindexList, colNum) ==> SearchEnded()
    {
      hide Before, Flat;
      var g;
      found, g := GetGroupInfo();
      GroupWidth();
      BeforeBound(dir, pageNum);
      if found {
        var pages;
        pages, found := MemberPages(g.members, colindexList);
        if found {
          pageList := pages;
          pageReset := true;
        }
      }
    }

    ghost predicate Within(k: int)
      reads this
    {
      0 < next <= |rows| && 0 <= k <= |rows[next - 1]|
    }

    lemma AtWithin(k: int)
      requires At(k)
      ensures Within(k) && Ascending(colindexList, colNum)
    {
    }

    /** What is pending when row k of the current group comes next. */
    ghost predicate Midway(k: int, pending: seq<seq<Cell>>)
      reads this
    {
      At(k) && Within(k) && pending == Visible(rows[next - 1][k..], colindexList, read) + AllVisible(rows[next..], colindexList, read)
    }

    /** What is pending when the next group comes next. */
    ghost predicate Between(pending: seq<seq<Cell>>)
      reads this
    {
      next <= |rows| && pending == if Ascending(colindexList, colNum) then AllVisible(rows[next..], colindexList, read) else []
    }

    /** Where a call of SeqscanNext starts. */
    lemma Starts()
      requires Valid() && !ended
      ensures if pageReset then Between(Pending()) else Midway(offsets[0] + 1, Pending())
    {
    }

    /** The scan inside the current group: its next row, or its pages are released. */
    method NextOfGroup(ghost k: int, ghost pending: seq<seq<Cell>>) returns (row: Option<seq<Cell>>)
      requires TableInv() && SearchInv() && colindexList != [] && !ended && Midway(k, pending)
      modifies this`pageList, this`pageReset, this`offsets, this`rest
      ensures SearchInv() && |offsets| == |colindexList| && next <= |rows|
      ensures if row.Some? then Valid() && pending == [row.value] + Pending() else Between(pending)
    {
      hide TableInv, SearchInv, Seen, Visible, AllVisible;
      AtWithin(k);
      ghost var k', later := 0, AllVisible(rows[next..], colindexList, read);
      row, k' := SeqScanNextColumnOpt(k);
      if row.Some? {
        rest := Visible(rows[next - 1][k'..], colindexList, read);
        assert ([row.value] + rest) + later == [row.value] + (rest + later);
      } else {
        assert [] + later == later;
        pageList := [];
      }
    }

    lemma NextGroupRows(n: nat)
      requires n < |rows|
      ensures AllVisible(rows[n..], colindexList, read) == Visible(rows[n][0..], colindexList, read) + AllVisible(rows[n + 1..], colindexList, read)
    {
    }

    /** The scan between groups: the rows still to come start in the group that is opened now. */
    method GroupRows(ghost pending: seq<seq<Cell>>) returns (found: bool)
      requires TableInv() && SearchInv() && colindexList != [] && |offsets| == |colindexList| && next <= |rows|
      requires Between(pending)
      modifies this`groupPage, this`groupItem, this`pageNum, this`next, this`pageList, this`pageReset
      ensures SearchInv() && next <= |rows|
      ensures if found then next == old(next) + 1 && Midway(0, pending) else pending == []
      ensures !found && Ascending(colindexList, colNum) ==> SearchEnded()
    {
      hide TableInv, SearchInv, At, Open, Seen, Visible, AllVisible, Ascending;
      ghost var n := next;
      found := OpenGroup();
      NoGroups(rows, n);
      if found {
        AtWithin(0);
        NextGroupRows(n);
      }
    }

    /** SeqscanNext: the next row that the snapshot sees, across groups. */
    method SeqscanNext() returns (row: Option<seq<Cell>>)
      requires Valid() && !ended
      modifies this`groupPage, this`groupItem, this`pageNum, this`next, this`pageList, this`pageReset, this`offsets, this`rest, this`ended
      ensures Valid()
      ensures row.None? && Ascending(colindexList, colNum) ==> SearchEnded()
      ensures if old(Pending()) == [] then row == None && ended else row == Some(old(Pending())[0]) && !ended && Pending() == old(Pending())[1..]
    {
      hide TableInv, SearchInv, At, Open, Seen, Visible, AllVisible, Ascending, Midway, Between;
      Starts();
      var found := !pageReset;
      ghost var pending := Pending();
      ghost var k := if found then offsets[0] + 1 else 0;
      while true
        invariant TableInv() && SearchInv() && |offsets| == |colindexList| && next <= |rows| && !ended
        invariant if found then Midway(k, pending) else Between(pending)
        decreases |rows| - next, found
      {
        if !found {
          found := GroupRows(pending);
          if !found {
            ended, rest := true, [];
            return None;
          }
          k := 0;
        }
        row := NextOfGroup(k, pending);
        if row.Some? {
          return;
        }
        found := false;
      }
    }

    lemma NoGroups(all: seq<seq<Row>>, n: nat)
      ensures n == |all| ==> AllVisible(all[n..], colindexList, read) == []
    {
    }

    /** ExecReSeqScan: the group search starts over only if it still has a page; after the end of a scan it goes back
        no further than to the last directory page. */
    method ExecReSeqScan()
      requires Valid()
      modifies this`groupPage, this`groupItem, this`pageNum, this`next, this`pageList, this`pageReset, this`rest, this`ended
      ensures Valid() && !ended
      ensures next == if old(groupPage) == NULL then Before(dir, old(pageNum)) else 0
      ensures Pending() == if Ascending(colindexList, colNum) then AllVisible(rows[next..], colindexList, read) else []
    {
      hide TableInv, Seen, Visible;
      if groupPage != NULL {
        groupPage, groupItem, pageNum := NULL, 0, 0;
        next := 0;
      }
      pageList, pageReset := [], true;
      rest, ended := [], false;
      assert [] + AllVisible(rows[next..], colindexList, read) == AllVisible(rows[next..], colindexList, read);
    }

    /** All rows from here to the end of the scan. */
    method Exhaust() returns (sent: seq<seq<Cell>>)
      requires Valid() && !ended
      modifies this
      ensures Valid() && ended && sent == old(Pending())
      ensures Ascending(colindexList, colNum) ==> SearchEnded()
    {
      hide TableInv, SearchInv, At, Open, Seen, Visible, AllVisible, Ascending;
      sent := [];
      ghost var pending := Pending();
      while true
        invariant Valid() && !ended && sent + Pending() == pending
        decreases |Pending()|
      {
        var row := SeqscanNext();
        if row.None? {
          break;
        }
        sent := sent + [row.value];
      }
    }

    /** To the end, back, and to the end again. */
    method ExhaustTwice() returns (first: seq<seq<Cell>>, again: seq<seq<Cell>>)
      requires Valid() && !ended && |rows| == |Flat(dir)|
      modifies this
      ensures first == old(Pending())
      ensures again == if Ascending(colindexList, colNum) then AllVisible(LastGroups(dir, rows), colindexList, read) else []
    {
      hide TableInv, SearchInv, At, Open, Seen, Visible, AllVisible, Ascending, Before, Flat;
      first := Exhaust();
      ExecReSeqScan();
      again := Exhaust();
    }

    lemma GroupWidth()
      requires TableInv()
      ensures |Flat(dir)| == |rows|
      ensures forall g :: 0 <= g < |rows| ==> |Flat(dir)[g].members| == colNum
      ensures forall g, i :: 0 <= g < |rows| && 0 <= i < |Flat(dir)[g].members| ==> Flat(dir)[g].members[i] != 0
    {
    }

    lemma RowWidth(k: nat)
      requires TableInv() && 0 < next <= |rows|
      ensures k < |rows[next - 1]| ==> colNum <= |rows[next - 1][k]|
    {
    }
  }

  datatype ScanFlag = SCAN_NEXT_ROW | SCAN_END_OF_FILE | IGNORE_INVISIBILITY_COLUMNS

  lemma SeenNone(cols: seq<int>, read: Cell -> Option<Cell>)
    ensures forall row: Row :: Seen(row, cols[..0], read) == Some([])
  {
  }

  lemma SeenNext(row: Row, cols: seq<int>, i: nat, read: Cell -> Option<Cell>)
    requires i < |cols| && 0 <= cols[i] < |row|
    ensures Seen(row, cols[..i + 1], read) ==
            if Seen(row, cols[..i], read).Some? && read(row[cols[i]]).Some? then Some(Seen(row, cols[..i], read).value + [read(row[cols[i]]).value]) else None
  {
    assert cols[..i + 1][..i] == cols[..i];
  }

  ghost predicate SeenSoFar(row: Row, cols: seq<int>, read: Cell -> Option<Cell>, flag: ScanFlag, cells: seq<Cell>) {
    match Seen(row, cols, read)
    case Some(seen) => flag == SCAN_NEXT_ROW && cells == seen
    case None => flag == IGNORE_INVISIBILITY_COLUMNS
  }

  /** The pages of the groups hold these rows. */
  ghost predicate Stored(pages: map<int, seq<Cell>>, groups: seq<Group>, rows: seq<seq<Row>>, colNum: nat) {
    && |rows| == |groups| && 0 < colNum
    && (forall g, i :: 0 <= g < |rows| && 0 <= i < |groups[g].members| ==>
          groups[g].members[i] != 0 && groups[g].members[i] in pages && Column(pages[groups[g].members[i]], rows[g], i))
    && (forall g :: 0 <= g < |rows| ==> |groups[g].members| == colNum)
    && (forall g, k :: 0 <= g < |rows| && 0 <= k < |rows[g]| ==> colNum <= |rows[g][k]|)
  }

  /** Whatever was inserted and updated, the pages of a table are such pages. */
  lemma TableIsStored(t: Table, rows: seq<seq<Row>>)
    requires PaxTable.Inv(t, rows)
    ensures Stored(t.pages, t.groups, rows, t.colNum)
  {
    forall g, k | 0 <= g < |rows| && 0 <= k < |rows[g]| ensures t.colNum <= |rows[g][k]| {
      assert Column(t.pages[t.groups[g].members[t.colNum - 1]], rows[g], t.colNum - 1);
    }
  }

  /** A scan over an ascending column list yields every row that the snapshot sees once, in the order of insertion
      within each group; over any other list it yields nothing. */
  method ScanTable(table: PaxFile, dir: Directory, cols: seq<int>, read: Cell -> Option<Cell>) returns (sent: seq<seq<Cell>>)
    requires table.Valid() && Flat(dir) == table.groups && cols != []
    ensures sent == if Ascending(cols, table.colNum) then AllVisible(table.rows, cols, read) else []
  {
    TableIsStored(table.State(), table.rows);
    var scan := new SeqScanState(table.pages, dir, cols, read, table.colNum, table.rows);
    sent := scan.Exhaust();
  }

  /** The rows of the groups that a scan goes back to once it has ended. */
  function LastGroups<T>(dir: Directory, groups: seq<T>): seq<T>
    requires |groups| == |Flat(dir)|
  {
    BeforeBound(dir, LastPage(dir));
    groups[Before(dir, LastPage(dir))..]
  }

  /** A scan to its end, a rescan, and another one to its end: the second time, only the groups of the last directory
      page are met, and what is sent is the end of what was sent first. */
  method ScanAgain(table: PaxFile, dir: Directory, cols: seq<int>, read: Cell -> Option<Cell>) returns (first: seq<seq<Cell>>, again: seq<seq<Cell>>)
    requires table.Valid() && Flat(dir) == table.groups && cols != []
    ensures |table.rows| == |Flat(dir)|
    ensures first == if Ascending(cols, table.colNum) then AllVisible(table.rows, cols, read) else []
    ensures again == if Ascending(cols, table.colNum) then AllVisible(LastGroups(dir, table.rows), cols, read) else []
    ensures |again| <= |first| && again == first[|first| - |again|..]
  {
    hide Flat, Before, Seen, Visible, AllVisible, Ascending;
    TableIsStored(table.State(), table.rows);
    assert |table.rows| == |Flat(dir)|;
    var scan := new SeqScanState(table.pages, dir, cols, read, table.colNum, table.rows);
    first, again := scan.ExhaustTwice();
    if Ascending(cols, table.colNum) {
      BeforeBound(dir, LastPage(dir));
      VisibleSuffix(table.rows, Before(dir, LastPage(dir)), cols, read);
    }
  }

  lemma {:induction false} VisibleSuffix<T>(groups: seq<seq<seq<T>>>, n: nat, cols: seq<int>, read: T -> Option<Cell>)
    requires n <= |groups|
    ensures var first, again := AllVisible(groups, cols, read), AllVisible(groups[n..], cols, read);
            |again| <= |first| && again == first[|first| - |again|..]
  {
    if n > 0 {
      VisibleSuffix(groups[1..], n - 1, cols, read);
      assert groups[n..] == groups[1..][n - 1..];
    } else {
      assert groups[n..] == groups;
    }
  }

  /** With no directory page but the last one empty, starting over after the end reaches the first group again
      exactly when the directory has no more than one page. */
  lemma {:induction false} RestartsAtFirst(dir: Directory)
    requires forall p :: 0 <= p < |dir| - 1 ==> dir[p] != []
    ensures Before(dir, LastPage(dir)) == 0 <==> |dir| <= 1
  {
  }
}
