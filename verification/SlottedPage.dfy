/** Slotted pages: an item array that grows up and records that grow down
    (src/sqlcore/storage/tables/tables.c, src/sqlcore/storage/buffer/buffer.c, src/sqlcore/executor/execModifyTable.c).

    The bytes of records are modelled as bytes. The items, which share the page with them, are kept beside them;
    the page invariant says that the bytes an item array of this length takes never meet a record. */
module SlottedPage {
  import opened Commons
  import opened Framing

  const PAGE_MAX_SIZE := 4096
  const PAGE_DATA_HEADER_SIZE := 40
  const ITEM_SIZE := 16
  const ROW_HEADER_SIZE := 8
  const MAX_ROW_DATA_SIZE := PAGE_MAX_SIZE - (PAGE_DATA_HEADER_SIZE + ITEM_SIZE)

  const ITEM_FLAG_MASK: bv32 := 0xF000_0000
  const ITEM_VALID_MASK: bv32 := 0x8000_0000
  const ITEM_REDIRECT_MASK: bv32 := 0x4000_0000

  function GetItemSize(len: bv32): bv32 {
    len & !ITEM_FLAG_MASK
  }

  function SetItemSize(len: bv32, size: bv32): bv32 {
    (len & ITEM_FLAG_MASK) | (size & !ITEM_FLAG_MASK)
  }

  /** The flags and the size of an item do not disturb each other. */
  lemma ItemSizeRoundTrip(len: bv32, size: bv32)
    ensures size & ITEM_FLAG_MASK == 0 ==> GetItemSize(SetItemSize(len, size)) == size
    ensures SetItemSize(len, size) & ITEM_FLAG_MASK == len & ITEM_FLAG_MASK
    ensures GetItemSize(len | ITEM_VALID_MASK) == GetItemSize(len)
    ensures (len | ITEM_VALID_MASK) & ITEM_VALID_MASK != 0
  {
  }

  datatype ItemData = ItemData(offset: int, len: bv32)

  /** A record starts with its own size. */
  predicate Record(r: seq<byte>) {
    4 <= |r| && Int32(r) == |r|
  }

  /** The record at an offset, by the size it states; none when that size is refused. */
  function RecordAt(bytes: seq<byte>, offset: int): Option<seq<byte>> {
    if !(0 <= offset <= |bytes| - 4) then None
    else
      var size := Int32(bytes[offset..]);
      if size > MAX_ROW_DATA_SIZE || size < 0 || offset + size > |bytes| then None else Some(bytes[offset..offset + size])
  }

  /** Record r lies at this offset, inside the record area. */
  ghost predicate Stored(bytes: seq<byte>, low: int, offset: int, r: seq<byte>) {
    && Record(r) && low <= offset && offset + |r| <= |bytes| && 0 <= offset
    && |r| <= MAX_ROW_DATA_SIZE
    && bytes[offset..offset + |r|] == r
  }

  predicate Apart(o1: int, n1: int, o2: int, n2: int) {
    o1 + n1 <= o2 || o2 + n2 <= o1
  }

  ghost predicate Layout(bytes: seq<byte>, low: int, offsets: seq<int>, rows: seq<seq<byte>>) {
    && |offsets| == |rows|
    && (forall i :: 0 <= i < |rows| ==> Stored(bytes, low, offsets[i], rows[i]))
    && (forall i, j :: 0 <= i < j < |rows| ==> Apart(offsets[i], |rows[i]|, offsets[j], |rows[j]|))
  }

  lemma StoredReads(bytes: seq<byte>, low: int, offset: int, r: seq<byte>)
    requires Stored(bytes, low, offset, r)
    ensures RecordAt(bytes, offset) == Some(r)
  {
  }

  /** Writing elsewhere does not touch a record. */
  lemma StoredKept(bytes: seq<byte>, bytes': seq<byte>, low: int, low': int, offset: int, r: seq<byte>, at: int, n: nat)
    requires Stored(bytes, low, offset, r) && low' <= low && |bytes'| == |bytes| && Apart(offset, |r|, at, n)
    requires forall k :: 0 <= k < |bytes| && !(at <= k < at + n) ==> bytes'[k] == bytes[k]
    ensures Stored(bytes', low', offset, r)
  {
  }

  ghost predicate WrittenAt(bytes: seq<byte>, bytes': seq<byte>, at: int, r: seq<byte>) {
    && |bytes'| == |bytes| && 0 <= at && at + |r| <= |bytes|
    && bytes'[at..at + |r|] == r
    && (forall k :: 0 <= k < |bytes| && !(at <= k < at + |r|) ==> bytes'[k] == bytes[k])
  }

  /** A new record below all others. */
  lemma LayoutAppend(bytes: seq<byte>, bytes': seq<byte>, low: int, low': int, offsets: seq<int>, rows: seq<seq<byte>>, at: int, r: seq<byte>)
    requires Layout(bytes, low, offsets, rows) && WrittenAt(bytes, bytes', at, r) && Record(r) && |r| <= MAX_ROW_DATA_SIZE
    requires low' <= at && at + |r| <= low
    ensures Layout(bytes', low', offsets + [at], rows + [r])
  {
  }

  /** A record rewritten at its own place, no larger than before. */
  lemma LayoutReplace(bytes: seq<byte>, bytes': seq<byte>, low: int, offsets: seq<int>, rows: seq<seq<byte>>, k: nat, r: seq<byte>)
    requires Layout(bytes, low, offsets, rows) && k < |rows| && Record(r) && |r| <= |rows[k]| && WrittenAt(bytes, bytes', offsets[k], r)
    ensures Layout(bytes', low, offsets, rows[k := r])
  {
    hide Int32;
    forall i | 0 <= i < |rows| && i != k ensures Stored(bytes', low, offsets[i], rows[i]) {
      assert Apart(offsets[if i < k then i else k], |rows[if i < k then i else k]|, offsets[if i < k then k else i], |rows[if i < k then k else i]|);
      StoredKept(bytes, bytes', low, low, offsets[i], rows[i], offsets[k], |r|);
    }
  }

  /** A record moved below all others. */
  lemma LayoutMove(bytes: seq<byte>, bytes': seq<byte>, low: int, low': int, offsets: seq<int>, rows: seq<seq<byte>>, k: nat, at: int, r: seq<byte>)
    requires Layout(bytes, low, offsets, rows) && k < |rows| && WrittenAt(bytes, bytes', at, r) && Record(r) && |r| <= MAX_ROW_DATA_SIZE
    requires low' <= at && at + |r| <= low
    ensures Layout(bytes', low', offsets[k := at], rows[k := r])
  {
  }

  function Flat(columns: seq<seq<byte>>): seq<byte> {
    if columns == [] then [] else Flat(columns[..|columns| - 1]) + columns[|columns| - 1]
  }

  lemma {:induction false} FlatPrefix(columns: seq<seq<byte>>, i: nat)
    requires i <= |columns|
    ensures |Flat(columns[..i])| <= |Flat(columns)|
  {
    if i < |columns| {
      FlatPrefix(columns[..|columns| - 1], i);
      assert columns[..|columns| - 1][..i] == columns[..i];
    } else {
      assert columns[..i] == columns;
    }
  }

  class Page {
    const bytes: array<byte>
    const items: array<ItemData>
    var dataOffset: int
    var dataEndOffset: int
    ghost var offsets: seq<int>
    ghost var rows: seq<seq<byte>>

    /** The page stands for `rows`: for each item index, the record last written to it. */
    ghost predicate Valid()
      reads this, bytes, items
    {
      && bytes.Length == PAGE_MAX_SIZE && items.Length == (PAGE_MAX_SIZE - PAGE_DATA_HEADER_SIZE) / ITEM_SIZE
      && |offsets| == |rows| <= items.Length
      && dataOffset == PAGE_DATA_HEADER_SIZE + ITEM_SIZE * |rows|
      && dataOffset <= dataEndOffset <= PAGE_MAX_SIZE
      && (forall i :: 0 <= i < |rows| ==> items[i].offset == offsets[i] && items[i].len & ITEM_VALID_MASK != 0)
      && Layout(bytes[..], dataEndOffset, offsets, rows)
    }

    /** InitPage. */
    constructor InitPage()
      ensures Valid() && rows == [] && fresh(bytes) && fresh(items) && dataEndOffset == PAGE_MAX_SIZE
    {
      bytes := new byte[PAGE_MAX_SIZE](_ => 0);
      items := new ItemData[(PAGE_MAX_SIZE - PAGE_DATA_HEADER_SIZE) / ITEM_SIZE](_ => ItemData(0, 0));
      dataOffset, dataEndOffset := PAGE_DATA_HEADER_SIZE, PAGE_MAX_SIZE;
      offsets, rows := [], [];
    }

    predicate HasFreeSpace(size: int)
      reads this
    {
      size < dataEndOffset - dataOffset
    }

    /** ReplaceRowData: the columns, one after the other, from an offset on. */
    method ReplaceRowData(offset: nat, columns: seq<seq<byte>>)
      requires offset + |Flat(columns)| <= bytes.Length
      modifies bytes
      ensures WrittenAt(old(bytes[..]), bytes[..], offset, Flat(columns))
    {
      var at := offset;
      for i := 0 to |columns|
        invariant at == offset + |Flat(columns[..i])|
        invariant at <= bytes.Length && bytes[offset..at] == Flat(columns[..i])
        invariant forall k :: 0 <= k < bytes.Length && !(offset <= k < at) ==> bytes[k] == old(bytes[k])
      {
        FlatPrefix(columns, i + 1);
        assert columns[..i + 1][..i] == columns[..i];
        forall k | 0 <= k < |columns[i]| {
          bytes[at + k] := columns[i][k];
        }
        at := at + |columns[i]|;
      }
      assert columns[..|columns|] == columns;
    }

    /** WriteRowOnePage: InsertRowData, then InsertItemData; the result is the new item's index. */
    method WriteRowOnePage(r: seq<byte>) returns (itemIndex: int)
      requires Valid() && Record(r) && |r| + ITEM_SIZE <= dataEndOffset - dataOffset
      modifies this, bytes, items
      ensures Valid() && rows == old(rows) + [r] && itemIndex == |old(rows)|
      ensures dataEndOffset == old(dataEndOffset) - |r| && dataOffset == old(dataOffset) + ITEM_SIZE
    {
      hide Int32;
      var len := SetItemSize(0, |r| as bv32) | ITEM_VALID_MASK;
      ItemSizeRoundTrip(SetItemSize(0, |r| as bv32), 0);
      var at := dataEndOffset - |r|;
      assert Flat([r]) == r by { assert [r][..0] == [] && [] + r == r; }
      ReplaceRowData(at, [r]);
      var k := (dataOffset - PAGE_DATA_HEADER_SIZE) / ITEM_SIZE;
      items[k] := ItemData(at, len);
      LayoutAppend(old(bytes[..]), bytes[..], dataEndOffset, at, offsets, rows, at, r);
      dataOffset := dataOffset + ITEM_SIZE;
      dataEndOffset := at;
      offsets, rows := offsets + [at], rows + [r];
      itemIndex := (dataOffset - PAGE_DATA_HEADER_SIZE) / ITEM_SIZE - 1;
    }

    /** The in-place branch of pax_ExecUpdate: a record no larger than the one it replaces. */
    method WriteRowDataOnly(itemIndex: nat, r: seq<byte>)
      requires Valid() && itemIndex < |rows| && Record(r) && |r| <= |rows[itemIndex]|
      modifies this`rows, bytes
      ensures Valid() && rows == old(rows)[itemIndex := r]
    {
      hide Int32;
      assert Stored(bytes[..], dataEndOffset, offsets[itemIndex], rows[itemIndex]);
      assert Flat([r]) == r by { assert [r][..0] == [] && [] + r == r; }
      ReplaceRowData(items[itemIndex].offset, [r]);
      LayoutReplace(old(bytes[..]), bytes[..], dataEndOffset, offsets, rows, itemIndex, r);
      rows := rows[itemIndex := r];
    }

    /** The same-page branch of pax_ExecUpdate: the record moves below all others, an item's size further than needed. */
    method RelocateRow(itemIndex: nat, r: seq<byte>)
      requires Valid() && itemIndex < |rows| && Record(r) && HasFreeSpace(|r| + ITEM_SIZE)
      modifies this, bytes, items
      ensures Valid() && rows == old(rows)[itemIndex := r]
      ensures dataEndOffset == old(dataEndOffset) - |r| - ITEM_SIZE && dataOffset == old(dataOffset)
    {
      hide Int32;
      var at := dataEndOffset - (|r| + ITEM_SIZE);
      items[itemIndex] := items[itemIndex].(offset := at);
      assert Flat([r]) == r by { assert [r][..0] == [] && [] + r == r; }
      ReplaceRowData(at, [r]);
      LayoutMove(old(bytes[..]), bytes[..], dataEndOffset, at, offsets, rows, itemIndex, at, r);
      dataEndOffset := at;
      offsets, rows := offsets[itemIndex := at], rows[itemIndex := r];
    }

    /** Which of its branches pax_ExecUpdate takes, as long as the record stays on its page. */
    method UpdateRow(itemIndex: nat, r: seq<byte>) returns (samePage: bool)
      requires Valid() && itemIndex < |rows| && Record(r)
      modifies this, bytes, items
      ensures Valid() && rows == if samePage then old(rows)[itemIndex := r] else old(rows)
      ensures samePage == (|r| <= |old(rows)[itemIndex]| || |r| + ITEM_SIZE < old(dataEndOffset - dataOffset))
      ensures dataOffset == old(dataOffset)
      ensures dataEndOffset == old(dataEndOffset) - if !samePage || |r| <= |old(rows)[itemIndex]| then 0 else |r| + ITEM_SIZE
    {
      var previous := ReadRowData(itemIndex);
      samePage := true;
      if |r| <= |previous.value| {
        WriteRowDataOnly(itemIndex, r);
      } else if HasFreeSpace(|r| + ITEM_SIZE) {
        RelocateRow(itemIndex, r);
      } else {
        samePage := false;
      }
    }

    /** ReadRowData at an item's offset: every item reads back the record last written to it. */
    method ReadRowData(itemIndex: nat) returns (r: Option<seq<byte>>)
      requires Valid() && itemIndex < |rows|
      ensures r == Some(rows[itemIndex])
    {
      hide Int32;
      assert Stored(bytes[..], dataEndOffset, offsets[itemIndex], rows[itemIndex]);
      StoredReads(bytes[..], dataEndOffset, offsets[itemIndex], rows[itemIndex]);
      r := RecordAt(bytes[..], items[itemIndex].offset);
    }
  }
}
