/** Column groups: a row is split over the pages of a group, one record a column
    (src/sqlcore/storage/buffer/buffer.c, src/sqlcore/executor/execModifyTable.c). */
module PaxTable {
  import opened Commons
  import opened Framing
  import SlottedPage

  type Cell = seq<byte>

  /** One cell for every column. */
  type Row = seq<Cell>

  /** The member page of each column. */
  datatype Group = Group(members: seq<int>)

  const PAGE_HEAD_PAGE_NUM := 1

  /** `pages` holds the records of each page by item, `room` the bytes between its items and its records. */
  datatype Table = Table(colNum: nat, pageCnt: int, pages: map<int, seq<Cell>>, room: map<int, int>, groups: seq<Group>)

  ghost predicate MembersInv(t: Table) {
    && PAGE_HEAD_PAGE_NUM <= t.pageCnt
    && (forall g, i :: 0 <= g < |t.groups| && 0 <= i < |t.groups[g].members| ==> PAGE_HEAD_PAGE_NUM < t.groups[g].members[i] <= t.pageCnt)
    && (forall g :: 0 <= g < |t.groups| ==> |t.groups[g].members| == t.colNum)
    && (forall g, i :: 0 <= g < |t.groups| && 0 <= i < t.colNum ==> t.groups[g].members[i] in t.pages && t.groups[g].members[i] in t.room)
  }

  /** No page serves two columns or two groups. */
  ghost predicate Disjoint(groups: seq<Group>) {
    forall g, i, h, j ::
      (0 <= g < |groups| && 0 <= i < |groups[g].members| && 0 <= h < |groups| && 0 <= j < |groups[h].members|
       && groups[g].members[i] == groups[h].members[j]) ==> g == h && i == j
  }

  /** Page p holds column i of these rows, item by item. */
  ghost predicate Column(page: seq<Cell>, rows: seq<Row>, i: nat) {
    |page| == |rows| && forall k :: 0 <= k < |rows| ==> i < |rows[k]| && page[k] == rows[k][i]
  }

  ghost predicate Aligned(t: Table, rows: seq<seq<Row>>) {
    && |rows| == |t.groups|
    && (forall g, i :: 0 <= g < |t.groups| && 0 <= i < |t.groups[g].members| ==>
          t.groups[g].members[i] in t.pages && Column(t.pages[t.groups[g].members[i]], rows[g], i))
  }

  /** The pages of every group hold its rows: item k of each belongs to row k. */
  ghost predicate Inv(t: Table, rows: seq<seq<Row>>) {
    MembersInv(t) && Disjoint(t.groups) && Aligned(t, rows) && 0 < t.colNum
  }

  function Consecutive(first: int, n: nat): Group {
    Group(seq(n, i => first + i))
  }

  /** ExtensionTbl: fresh pages at the end of the file. */
  function Grown(t: Table, n: nat): Table {
    if n == 0 then t
    else
      var u := Grown(t, n - 1);
      u.(pageCnt := u.pageCnt + 1, pages := u.pages[u.pageCnt + 1 := []],
         room := u.room[u.pageCnt + 1 := SlottedPage.PAGE_MAX_SIZE - SlottedPage.PAGE_DATA_HEADER_SIZE])
  }

  /** Then InsertGroupItem: they become the pages of a new group. */
  function Extended(t: Table): Table {
    Grown(t, t.colNum).(groups := t.groups + [Consecutive(t.pageCnt + 1, t.colNum)])
  }

  lemma {:induction false} GrownIs(t: Table, n: nat)
    ensures var u := Grown(t, n);
            && u.colNum == t.colNum && u.groups == t.groups && u.pageCnt == t.pageCnt + n
            && (forall p :: t.pageCnt < p <= t.pageCnt + n ==> p in u.pages && u.pages[p] == [] && p in u.room)
            && (forall p :: p <= t.pageCnt && p in t.pages ==> p in u.pages && u.pages[p] == t.pages[p])
            && (forall p :: p <= t.pageCnt && p in t.room ==> p in u.room)
  {
    if n > 0 {
      GrownIs(t, n - 1);
    }
  }

  lemma ExtendedMembers(t: Table)
    requires MembersInv(t) && Disjoint(t.groups)
    ensures MembersInv(Extended(t)) && Disjoint(Extended(t).groups)
  {
    hide Grown;
    GrownIs(t, t.colNum);
  }

  /** The new group is empty, takes pages that no group has, and leaves the others as they are. */
  lemma ExtendedInv(t: Table, rows: seq<seq<Row>>)
    requires Inv(t, rows)
    ensures Inv(Extended(t), rows + [[]])
  {
    hide Grown, Disjoint;
    var t' := Extended(t);
    GrownIs(t, t.colNum);
    ExtendedMembers(t);
    forall g, i | 0 <= g < |t'.groups| && 0 <= i < |t'.groups[g].members|
      ensures t'.groups[g].members[i] in t'.pages && Column(t'.pages[t'.groups[g].members[i]], (rows + [[]])[g], i)
    {
      if g < |t.groups| {
        assert Column(t.pages[t.groups[g].members[i]], rows[g], i);
      }
    }
  }

  /** The bytes that records and their items take. */
  function Used(page: seq<Cell>): nat {
    if page == [] then 0 else Used(page[..|page| - 1]) + |page[|page| - 1]| + SlottedPage.ITEM_SIZE
  }

  const EMPTY_ROOM := SlottedPage.PAGE_MAX_SIZE - SlottedPage.PAGE_DATA_HEADER_SIZE

  /** Items never run into records: no page has less than no room, nor more than its records and items leave. */
  ghost predicate Roomy(t: Table) {
    forall p :: p in t.pages ==> p in t.room && 0 <= t.room[p] <= EMPTY_ROOM - Used(t.pages[p])
  }

  lemma {:induction false} GrownRoomy(t: Table, n: nat)
    requires Roomy(t)
    ensures Roomy(Grown(t, n))
  {
    if n > 0 {
      GrownRoomy(t, n - 1);
    }
  }

  lemma UsedMore(page: seq<Cell>, cell: Cell)
    ensures Used(page + [cell]) == Used(page) + |cell| + SlottedPage.ITEM_SIZE
  {
    assert (page + [cell])[..|page|] == page;
  }

  lemma {:induction false} UsedInstead(page: seq<Cell>, k: nat, cell: Cell)
    requires k < |page|
    ensures Used(page[k := cell]) == Used(page) - |page[k]| + |cell|
  {
    var n := |page| - 1;
    if k < n {
      UsedInstead(page[..n], k, cell);
      assert page[k := cell][..n] == page[..n][k := cell];
    } else {
      assert page[k := cell][..n] == page[..n];
    }
  }

  /** FreeSpaceCheck. */
  predicate Fits(t: Table, g: nat, row: Row)
    requires g < |t.groups|
  {
    forall i :: 0 <= i < |row| && i < |t.groups[g].members| && t.groups[g].members[i] in t.room ==>
      |row[i]| + SlottedPage.ROW_HEADER_SIZE + SlottedPage.ITEM_SIZE < t.room[t.groups[g].members[i]]
  }

  /** Page i of a group has more room than a record of this size, a record's header and an item take. */
  predicate HasRoom(t: Table, g: nat, i: nat, size: nat) {
    g < |t.groups| && i < |t.groups[g].members| && t.groups[g].members[i] in t.room
    && t.room[t.groups[g].members[i]] > size + SlottedPage.ROW_HEADER_SIZE + SlottedPage.ITEM_SIZE
  }

  /** Some page of the group has no room for the row's record. */
  predicate LacksRoom(t: Table, g: nat, row: Row) {
    exists i :: 0 <= i < |row| && !HasRoom(t, g, i, |row[i]|)
  }

  /** The check admits a row exactly when every member page has room for its record. */
  lemma FitsMeans(t: Table, rows: seq<seq<Row>>, g: nat, row: Row)
    requires Inv(t, rows) && g < |t.groups| && |row| == t.colNum
    ensures Fits(t, g, row) <==> !LacksRoom(t, g, row)
    ensures Fits(t, g, row) ==> forall i :: 0 <= i < t.colNum ==> HasRoom(t, g, i, |row[i]|)
  {
    assert forall i :: 0 <= i < t.colNum ==> t.groups[g].members[i] in t.room;
  }

  /** A row appended to the member pages, one record a column. */
  ghost predicate Appended(t: Table, t': Table, g: nat, row: Row, n: nat)
    requires g < |t.groups| && n <= |row| && n <= |t.groups[g].members|
  {
    && t'.colNum == t.colNum && t'.pageCnt == t.pageCnt && t'.groups == t.groups
    && t'.pages.Keys == t.pages.Keys && t'.room.Keys == t.room.Keys
    && (forall i :: 0 <= i < n && t.groups[g].members[i] in t.pages ==> t'.pages[t.groups[g].members[i]] == t.pages[t.groups[g].members[i]] + [row[i]])
    && (forall i :: 0 <= i < n && t.groups[g].members[i] in t.room ==>
          t'.room[t.groups[g].members[i]] == t.room[t.groups[g].members[i]] - |row[i]| - SlottedPage.ITEM_SIZE)
    && (forall p :: p in t.pages && p !in t.groups[g].members[..n] ==> t'.pages[p] == t.pages[p])
    && (forall p :: p in t.room && p !in t.groups[g].members[..n] ==> t'.room[p] == t.room[p])
  }

  lemma AppendedInv(t: Table, t': Table, rows: seq<seq<Row>>, g: nat, row: Row)
    requires Inv(t, rows) && g < |t.groups| && |row| == t.colNum && Appended(t, t', g, row, t.colNum)
    ensures Inv(t', rows[g := rows[g] + [row]])
  {
  }

  /** A row that leaves no page without room keeps every page roomy. */
  lemma AppendedRoomy(t: Table, t': Table, g: nat, row: Row)
    requires Roomy(t) && g < |t.groups| && |row| == t.colNum == |t.groups[g].members| && Appended(t, t', g, row, t.colNum)
    requires forall i :: 0 <= i < |row| ==> HasRoom(t, g, i, |row[i]|)
    ensures Roomy(t')
  {
    var members := t.groups[g].members;
    assert forall i :: 0 <= i < |row| ==> HasRoom(t, g, i, |row[i]|);
    forall p | p in t'.pages ensures p in t'.room && 0 <= t'.room[p] <= EMPTY_ROOM - Used(t'.pages[p]) {
      if p in members[..t.colNum] {
        var i :| 0 <= i < t.colNum && members[i] == p;
        UsedMore(t.pages[p], row[i]);
      }
    }
  }

  /** A cell overwritten in place or moved on its page: its item stays. */
  function CellUpdated(t: Table, p: int, k: nat, cell: Cell, left: int): Table
    requires p in t.pages && k < |t.pages[p]|
  {
    t.(pages := t.pages[p := t.pages[p][k := cell]], room := t.room[p := left])
  }

  lemma CellUpdatedInv(t: Table, rows: seq<seq<Row>>, g: nat, i: nat, k: nat, cell: Cell, left: int)
    requires Inv(t, rows) && g < |t.groups| && i < t.colNum && k < |rows[g]|
    ensures k < |t.pages[t.groups[g].members[i]]| && i < |rows[g][k]|
    ensures Inv(CellUpdated(t, t.groups[g].members[i], k, cell, left), rows[g := rows[g][k := rows[g][k][i := cell]]])
  {
  }

  lemma CellUpdatedRoomy(t: Table, p: int, k: nat, cell: Cell, left: int)
    requires Roomy(t) && p in t.pages && k < |t.pages[p]|
    requires 0 <= left <= t.room[p] - if |cell| <= |t.pages[p][k]| then 0 else |cell| + SlottedPage.ITEM_SIZE
    ensures Roomy(CellUpdated(t, p, k, cell, left))
  {
    UsedInstead(t.pages[p], k, cell);
  }

  class PaxFile {
    const colNum: nat
    var pageCnt: int
    var pages: map<int, seq<Cell>>
    var room: map<int, int>
    var groups: seq<Group>
    /** The rows of each group, in the order they were inserted. */
    ghost var rows: seq<seq<Row>>

    constructor (colNum: nat)
      requires 0 < colNum
      ensures Valid() && rows == []
    {
      this.colNum := colNum;
      pageCnt, pages, room, groups, rows := PAGE_HEAD_PAGE_NUM, map[], map[], [], [];
    }

    function State(): Table
      reads this
    {
      Table(colNum, pageCnt, pages, room, groups)
    }

    ghost predicate Valid()
      reads this
    {
      Inv(State(), rows) && Roomy(State())
    }

    /** The extension step of pax_ExecInsert. */
    method ExtendGroup()
      requires Valid()
      modifies this
      ensures Valid() && rows == old(rows) + [[]]
      ensures State() == Extended(old(State()))
    {
      hide Inv;
      ghost var t := State();
      for i := 0 to colNum
        invariant rows == old(rows) && State() == Grown(t, i)
      {
        pageCnt := pageCnt + 1;
        pages := pages[pageCnt := []];
        room := room[pageCnt := SlottedPage.PAGE_MAX_SIZE - SlottedPage.PAGE_DATA_HEADER_SIZE];
      }
      GrownIs(t, colNum);
      groups := groups + [Consecutive(pageCnt - colNum + 1, colNum)];
      rows := rows + [[]];
      ExtendedInv(t, old(rows));
      GrownRoomy(t, colNum);
    }

    /** One record for each member page. */
    method WriteRecords(g: nat, row: Row)
      requires Inv(State(), rows) && g < |groups| && |row| == colNum
      modifies this`pages, this`room
      ensures |groups[g].members| == colNum && Appended(old(State()), State(), g, row, colNum)
    {
      ghost var t := State();
      var members := groups[g].members;
      for i := 0 to colNum
        invariant Appended(t, State(), g, row, i)
      {
        var p := members[i];
        assert p !in members[..i];
        pages := pages[p := pages[p] + [row[i]]];
        room := room[p := room[p] - |row[i]| - SlottedPage.ITEM_SIZE];
        assert members[..i + 1] == members[..i] + [p];
      }
    }

    /** InsertRowDataWithGroup: every member page gets its record, or, if one of them lacks room for it, none does. */
    method InsertRowDataWithGroup(g: nat, row: Row) returns (ok: bool)
      requires Valid() && g < |groups| && |row| == colNum
      modifies this
      ensures Valid() && ok == Fits(old(State()), g, row)
      ensures ok ==> forall i :: 0 <= i < colNum ==> HasRoom(old(State()), g, i, |row[i]|)
      ensures !ok ==> LacksRoom(old(State()), g, row)
      ensures rows == if ok then old(rows)[g := old(rows)[g] + [row]] else old(rows)
      ensures if ok then |old(groups)[g].members| == colNum && Appended(old(State()), State(), g, row, colNum) else State() == old(State())
    {
      hide HasRoom, LacksRoom, Fits, Roomy, Disjoint;
      FitsMeans(State(), rows, g, row);
      ok := Fits(State(), g, row);
      if !ok {
        return;
      }
      ghost var t := State();
      WriteRecords(g, row);
      AppendedInv(t, State(), rows, g, row);
      AppendedRoomy(t, State(), g, row);
      rows := rows[g := rows[g] + [row]];
    }

    /** The update branches that keep a record on its page: no larger than before, it stays where it is; else it moves
        below all others, if there is room for it and an item. A record that would have to leave the page changes nothing. */
    method UpdateCell(g: nat, i: nat, k: nat, cell: Cell) returns (samePage: bool)
      requires Valid() && g < |groups| && i < colNum && k < |rows[g]|
      modifies this
      ensures Valid() && i < |old(rows)[g][k]| && i < |old(groups)[g].members| && old(groups)[g].members[i] in old(room)
              && old(groups)[g].members[i] in old(pages) && k < |old(pages)[old(groups)[g].members[i]]|
      ensures samePage == (|cell| <= |old(rows)[g][k][i]| || |cell| + SlottedPage.ITEM_SIZE < old(room)[old(groups)[g].members[i]])
      ensures rows == if samePage then old(rows)[g := old(rows)[g][k := old(rows)[g][k][i := cell]]] else old(rows)
      ensures var p := old(groups)[g].members[i];
              State() == if !samePage then old(State()) else
                old(State()).(pages := old(pages)[p := old(pages)[p][k := cell]],
                              room := old(room)[p := old(room)[p] - if |cell| <= |old(pages)[p][k]| then 0 else |cell| + SlottedPage.ITEM_SIZE])
    {
      var p := groups[g].members[i];
      assert Column(pages[p], rows[g], i);
      samePage := true;
      var left := room[p];
      if |cell| > |pages[p][k]| {
        samePage := |cell| + SlottedPage.ITEM_SIZE < left;
        left := left - |cell| - SlottedPage.ITEM_SIZE;
      }
      if samePage {
        CellUpdatedInv(State(), rows, g, i, k, cell, left);
        CellUpdatedRoomy(State(), p, k, cell, left);
        pages := pages[p := pages[p][k := cell]];
        room := room[p := left];
        rows := rows[g := rows[g][k := rows[g][k][i := cell]]];
      }
    }

    /** pax_ExecInsert: the groups are tried from the one last used on; if none has room for every column, a new one is
        made. Without the bound on the cells' sizes, the original would extend the file for ever. */
    method ExecInsert(row: Row, last: nat) returns (g: nat)
      requires Valid() && |row| == colNum && last <= |groups|
      requires forall i :: 0 <= i < |row| ==> |row[i]| + SlottedPage.ROW_HEADER_SIZE + SlottedPage.ITEM_SIZE < SlottedPage.PAGE_MAX_SIZE - SlottedPage.PAGE_DATA_HEADER_SIZE
      modifies this
      ensures Valid()
      ensures if last <= g < |old(groups)| then rows == old(rows)[g := old(rows)[g] + [row]]
              else g == |old(groups)| && rows == old(rows) + [[row]]
      ensures last <= g && forall h :: last <= h < |old(groups)| && h < g ==> LacksRoom(old(State()), h, row)
    {
      g := last;
      while g < |groups|
        invariant last <= g <= |groups| && State() == old(State()) && rows == old(rows) && Valid()
        invariant forall h :: last <= h < g ==> LacksRoom(old(State()), h, row)
      {
        var ok := InsertRowDataWithGroup(g, row);
        if ok {
          return;
        }
        g := g + 1;
      }
      assert g == |rows|;
      ExtendGroup();
      NewGroupFits(old(State()), row);
      var ok := InsertRowDataWithGroup(g, row);
      FirstOfGroup(old(rows), row);
    }
  }

  // ---------------------------------------------------------------- pages and their bytes

  /** A page in memory that holds these records, with this much room between its items and its records. */
  ghost predicate Holds(page: SlottedPage.Page, records: seq<Cell>, room: int)
    reads page, page.bytes, page.items
  {
    page.Valid() && page.rows == records && page.dataEndOffset - page.dataOffset == room
  }

  /** A fresh page holds nothing, with the room that a fresh page of a group has. */
  method FreshPage() returns (page: SlottedPage.Page)
    ensures fresh(page) && Holds(page, [], SlottedPage.PAGE_MAX_SIZE - SlottedPage.PAGE_DATA_HEADER_SIZE)
  {
    page := new SlottedPage.Page.InitPage();
  }

  /** What InsertRowDataWithGroup does to a member page that passed the check of FreeSpaceCheck. */
  method InsertRecord(page: SlottedPage.Page, ghost records: seq<Cell>, ghost room: int, cell: Cell)
    requires Holds(page, records, room) && SlottedPage.Record(cell) && |cell| + SlottedPage.ROW_HEADER_SIZE + SlottedPage.ITEM_SIZE < room
    modifies page, page.bytes, page.items
    ensures Holds(page, records + [cell], room - |cell| - SlottedPage.ITEM_SIZE)
  {
    var _ := page.WriteRowOnePage(cell);
  }

  /** And what UpdateCell does to the page of the cell. */
  method UpdateRecord(page: SlottedPage.Page, ghost records: seq<Cell>, ghost room: int, k: nat, cell: Cell) returns (samePage: bool)
    requires Holds(page, records, room) && k < |records| && SlottedPage.Record(cell)
    modifies page, page.bytes, page.items
    ensures samePage == (|cell| <= |records[k]| || |cell| + SlottedPage.ITEM_SIZE < room)
    ensures if samePage then Holds(page, records[k := cell], if |cell| <= |records[k]| then room else room - |cell| - SlottedPage.ITEM_SIZE)
            else Holds(page, records, room)
  {
    samePage := page.UpdateRow(k, cell);
  }

  lemma FirstOfGroup(rows: seq<seq<Row>>, row: Row)
    ensures var more := rows + [[]]; more[|rows| := more[|rows|] + [row]] == rows + [[row]]
  {
    var more := rows + [[]];
    assert more[|rows|] + [row] == [row];
  }

  lemma NewGroupFits(t: Table, row: Row)
    requires forall i :: 0 <= i < |row| ==> |row[i]| + SlottedPage.ROW_HEADER_SIZE + SlottedPage.ITEM_SIZE < SlottedPage.PAGE_MAX_SIZE - SlottedPage.PAGE_DATA_HEADER_SIZE
    ensures Fits(Extended(t), |t.groups|, row)
  {
    GrownRoom(t, t.colNum);
  }

  lemma {:induction false} GrownRoom(t: Table, n: nat)
    ensures forall p :: t.pageCnt < p <= t.pageCnt + n ==>
              p in Grown(t, n).room && Grown(t, n).room[p] == SlottedPage.PAGE_MAX_SIZE - SlottedPage.PAGE_DATA_HEADER_SIZE
  {
    if n > 0 {
      GrownIs(t, n - 1);
      GrownRoom(t, n - 1);
    }
  }
}
