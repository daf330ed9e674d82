/**
 The cursor of the full scan (RecordManager::select in src/RecordManage/RecordManager.cpp): the source moves it over a
 record in use by reading the row, which ends exactly where the block of the record ends.
 */
module RowScans {
  import opened Bytes
  import opened ItemCodec
  import opened Locations
  import FixedPage
  import VariablePage

  /** Reading a stored row leaves the cursor behind its bytes, whatever follows them on the page. */
  lemma ReaderEndsRow(p: seq<byte>, now: nat, end: nat, pattern: seq<int>, item: Cells)
    requires now <= end <= |p| && PatternOk(pattern) && Fits(pattern, item)
    requires p[now..end] == Embedded(pattern, item)
    ensures ReadItem(pattern, p, |p|, now, AllShort(pattern, item, |item|)) == Some((item, end))
  {
    assert p[now..] == p[now..end] + p[end..];
    RoundTrip(pattern, item, p, |p|, now, p[end..]);
  }

  /** Where a row with a long cell lives in a page of blocks, reading it leaves the cursor at the end of its block. */
  lemma ReaderEndsBlock(p: seq<byte>, live: map<nat, seq<byte>>, at: nat, pattern: seq<int>, item: Cells)
    requires PatternOk(pattern) && Fits(pattern, item) && !AllShort(pattern, item, |item|)
    requires VariablePage.Holds(p, live) && at in live && live[at] == Embedded(pattern, item)
    ensures at + VariablePage.HEADER <= PAGE_SIZE
    ensures ReadItem(pattern, p, PAGE_SIZE, at + VariablePage.HEADER, false) == Some((item, VariablePage.End(p, at)))
  {
    assert VariablePage.LiveAs(p, at, live[at]);
    ReaderEndsRow(p, at + VariablePage.HEADER, VariablePage.End(p, at), pattern, item);
  }

  /** Where a row without one lives in a page of slots, reading it leaves the cursor at the end of its slot. */
  lemma ReaderEndsSlot(p: seq<byte>, y: FixedPage.Layout, len: nat, at: nat, pattern: seq<int>, item: Cells)
    requires PatternOk(pattern) && Fits(pattern, item) && AllShort(pattern, item, |item|)
    requires FixedPage.Holds(p, y, len) && at in y.live && y.live[at] == Embedded(pattern, item)
    ensures at + 1 <= PAGE_SIZE && ReadItem(pattern, p, PAGE_SIZE, at + 1, true) == Some((item, at + 1 + len))
  {
    assert FixedPage.LiveOk(p, y, len, at);
    ReaderEndsRow(p, at + 1, at + 1 + len, pattern, item);
  }
}
