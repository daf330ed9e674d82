/**
 The record manager of one table file (src/RecordManage/RecordManager.cpp): records of any bytes, addressed by
 location, on pages whose layout a dictionary page records. The file is the sequence of pages the pager serves; a page
 buffer is an array that is filled from its page and released back to it.
 */
module RecordManagement {
  import opened Bytes
  import opened Locations
  import FixedPage
  import VariablePage

  /** One dictionary page and the 4096 data pages it describes. */
  const EXTENT: nat := PAGE_SIZE + 1

  /** File sizes are computed in a C `int`, so this is the largest number of pages a file can be grown to. */
  const MAX_PAGES: nat := 0x8_0000 - 1

  /** A page of the file that was never written. */
  function ZeroPage(): (p: seq<byte>)
    ensures |p| == PAGE_SIZE && forall k :: 0 <= k < PAGE_SIZE ==> p[k] == 0
  {
    seq(PAGE_SIZE, _ => 0)
  }

  predicate IsDictionary(p: nat) {
    p % EXTENT == 1
  }

  /** Page 0 is the file header and pages 4097k + 1 are dictionaries; the others hold records. */
  predicate IsData(p: nat) {
    p >= 2 && !IsDictionary(p)
  }

  /** The dictionary page that describes page `p`. */
  function DictionaryPage(p: nat): (d: nat)
    requires p >= 1
    ensures IsDictionary(d) && d <= p < d + EXTENT
  {
    (p - 1) / EXTENT * EXTENT + 1
  }

  /** Where the next data page of a file of `count` pages goes: behind a new dictionary page, if one is due. */
  function NextData(count: nat): (p: nat)
    ensures count >= 2 ==> IsData(p) && p >= count && forall q :: count <= q < p ==> !IsData(q)
  {
    if IsDictionary(count) then count + 1 else count
  }

  /** The byte of that dictionary page that describes page `p`. */
  function DictionaryIndex(p: nat): (index: nat)
    requires IsData(p)
    ensures index < PAGE_SIZE && p == DictionaryPage(p) + 1 + index
  {
    (p - 1) % EXTENT - 1
  }

  /** The running dictionary page and index of the page scans are the closed form. */
  lemma ScanAddress(d: nat, index: nat)
    requires IsDictionary(d) && index < PAGE_SIZE
    ensures IsData(d + 1 + index)
    ensures DictionaryPage(d + 1 + index) == d && DictionaryIndex(d + 1 + index) == index
  {
  }

  /** After a full dictionary page comes the next dictionary page. */
  lemma NextDictionary(d: nat)
    requires IsDictionary(d)
    ensures IsDictionary(d + 1 + PAGE_SIZE)
  {
  }

  /** Bit 0 of a dictionary byte: set for pages of variable-length records. */
  predicate VariableBit(state: byte) {
    state % 2 == 1
  }

  /** Bit 1: an insertion into the page failed. It is only a hint. */
  predicate FullBit(state: byte) {
    state / 2 % 2 == 1
  }

  /** Bit 0 of an entry is the layout, bit 1 the full hint. */
  lemma EntryBits(state: byte)
    ensures state == 4 * (state / 4) + (if FullBit(state) then 2 else 0) + (if VariableBit(state) then 1 else 0)
  {
  }

  function SetFull(state: byte): (b: byte)
    ensures VariableBit(b) == VariableBit(state) && FullBit(b) && b / 4 == state / 4
  {
    if FullBit(state) then state else state + 2
  }

  /** What a data page holds. */
  datatype Content = Variable(records: map<nat, seq<byte>>) | Fixed(layout: FixedPage.Layout)

  ghost function Records(c: Content): map<nat, seq<byte>> {
    match c
    case Variable(records) => records
    case Fixed(layout) => layout.live
  }

  ghost predicate PagesSized(pages: seq<seq<byte>>) {
    forall i :: 0 <= i < |pages| ==> |pages[i]| == PAGE_SIZE
  }

  /** The bytes of data page `p` are what `c` says, and its dictionary entry names the right layout. */
  ghost predicate PageOk(pages: seq<seq<byte>>, len: nat, p: nat, c: Content)
    requires IsData(p) && p < |pages|
    requires PagesSized(pages)
  {
    var state := pages[DictionaryPage(p)][DictionaryIndex(p)];
    match c
    case Variable(records) => VariableBit(state) && VariablePage.Holds(pages[p], records)
    case Fixed(layout) => !VariableBit(state) && FixedPage.Holds(pages[p], layout, len)
  }

  /** Dictionary entries of pages the file does not have yet still say "fixed-length". */
  ghost predicate UnusedOk(pages: seq<seq<byte>>, p: nat)
    requires PagesSized(pages)
  {
    IsData(p) && p >= |pages| && DictionaryPage(p) < |pages| ==>
      !VariableBit(pages[DictionaryPage(p)][DictionaryIndex(p)])
  }

  ghost predicate InUse(contents: map<nat, Content>, l: Location) {
    l.pageNumber in contents && l.loc in Records(contents[l.pageNumber])
  }

  /** `records` is the whole file as one map from locations to bytes. */
  ghost predicate Flattens(contents: map<nat, Content>, records: map<Location, seq<byte>>) {
    && (forall l: Location {:trigger InUse(contents, l)} :: l in records <==> InUse(contents, l))
    && (forall l: Location {:trigger records[l]} | l in records && InUse(contents, l) ::
          records[l] == Records(contents[l.pageNumber])[l.loc])
  }

  /** Exactly the data pages of the file hold records. */
  ghost predicate Listed(pages: seq<seq<byte>>, contents: map<nat, Content>, p: nat) {
    p in contents <==> IsData(p) && p < |pages|
  }

  /** What the invariant says about page `p`, whether or not the file has it yet. */
  ghost predicate Sound(pages: seq<seq<byte>>, len: nat, contents: map<nat, Content>, p: nat)
    requires PagesSized(pages)
  {
    && Listed(pages, contents, p)
    && (p in contents ==> PageOk(pages, len, p, contents[p]))
    && UnusedOk(pages, p)
  }

  /** The state of the file. */
  ghost predicate FileOk(pages: seq<seq<byte>>, len: nat, contents: map<nat, Content>) {
    && |pages| <= MAX_PAGES
    && PagesSized(pages)
    && forall p: nat {:trigger Sound(pages, len, contents, p)} :: Sound(pages, len, contents, p)
  }

  // ---------- changes of one page ----------

  /** A data page was rewritten, keeping its layout. */
  lemma DataPageChanged(pages: seq<seq<byte>>, len: nat, contents: map<nat, Content>, p: nat, q: seq<byte>, c: Content)
    requires FileOk(pages, len, contents) && p in contents && p < |pages| && |q| == PAGE_SIZE
    requires c.Variable? == contents[p].Variable?
    requires c.Variable? ==> VariablePage.Holds(q, c.records)
    requires c.Fixed? ==> FixedPage.Holds(q, c.layout, len)
    ensures FileOk(pages[p := q], len, contents[p := c])
  {
    var after, now := pages[p := q], contents[p := c];
    forall i: nat ensures Sound(after, len, now, i) {
      assert Sound(pages, len, contents, i) && Sound(pages, len, contents, p);
    }
  }

  /** Two dictionary pages describe the same layouts. */
  ghost predicate SameLayouts(dic: seq<byte>, was: seq<byte>) {
    |dic| == |was| && forall k :: 0 <= k < |dic| ==> VariableBit(dic[k]) == VariableBit(was[k])
  }

  /** Hints in a dictionary page were rewritten. */
  lemma HintsChanged(pages: seq<seq<byte>>, len: nat, contents: map<nat, Content>, d: nat, dic: seq<byte>)
    requires FileOk(pages, len, contents) && IsDictionary(d) && d < |pages| && SameLayouts(dic, pages[d])
    ensures FileOk(pages[d := dic], len, contents)
  {
    var after := pages[d := dic];
    forall i: nat ensures Sound(after, len, contents, i) {
      assert Sound(pages, len, contents, i);
    }
  }

  /** Grow the file with zero bytes to at least `count` pages, as FileUtils::makeSureAtLeastFileSize does. */
  function Extend(pages: seq<seq<byte>>, count: nat): (r: seq<seq<byte>>)
    ensures |r| == if |pages| < count then count else |pages|
    ensures forall i :: 0 <= i < |r| ==> r[i] == if i < |pages| then pages[i] else ZeroPage()
  {
    if |pages| < count then pages + seq(count - |pages|, _ => ZeroPage()) else pages
  }

  /** Growing the file by a header or a dictionary page. */
  lemma ExtendedByDictionary(pages: seq<seq<byte>>, len: nat, contents: map<nat, Content>, count: nat)
    requires FileOk(pages, len, contents) && count <= MAX_PAGES
    requires forall p: nat :: |pages| <= p < count ==> !IsData(p)
    ensures FileOk(Extend(pages, count), len, contents)
  {
    var after := Extend(pages, count);
    forall i: nat ensures Sound(after, len, contents, i) {
      assert Sound(pages, len, contents, i);
    }
  }

  /** The dictionary page `dic` after the entry of page `p` was set to `state`. */
  function SetEntry(dic: seq<byte>, p: nat, state: byte): (r: seq<byte>)
    requires IsData(p) && |dic| == PAGE_SIZE
    ensures |r| == PAGE_SIZE
  {
    dic[DictionaryIndex(p) := state]
  }

  /** A fresh data page at the end of the file, with its dictionary entry `state`. */
  lemma PageAdded(pages: seq<seq<byte>>, len: nat, contents: map<nat, Content>, q: seq<byte>, c: Content, state: byte)
    requires FileOk(pages, len, contents) && |pages| < MAX_PAGES && IsData(|pages|) && |q| == PAGE_SIZE
    requires VariableBit(state) == c.Variable?
    requires c.Variable? ==> VariablePage.Holds(q, c.records)
    requires c.Fixed? ==> FixedPage.Holds(q, c.layout, len)
    ensures var p, d := |pages|, DictionaryPage(|pages|);
      FileOk(pages[d := SetEntry(pages[d], p, state)] + [q], len, contents[p := c])
  {
    var p, d := |pages|, DictionaryPage(|pages|);
    var after, now := pages[d := SetEntry(pages[d], p, state)] + [q], contents[p := c];
    forall i: nat ensures Sound(after, len, now, i) {
      assert Sound(pages, len, contents, i);
    }
  }

  // ---------- changes of one record ----------

  /** One record more, or one record changed, on one page. */
  lemma RecordSet(contents: map<nat, Content>, records: map<Location, seq<byte>>, l: Location, c: Content, r: seq<byte>)
    requires Flattens(contents, records) && l.pageNumber in contents
    requires Records(c) == Records(contents[l.pageNumber])[l.loc as nat := r]
    ensures Flattens(contents[l.pageNumber as nat := c], records[l := r])
    ensures l in records <==> l.loc in Records(contents[l.pageNumber])
  {
    var after := contents[l.pageNumber as nat := c];
    assert InUse(contents, l) <==> l in records;
    forall x: Location ensures x in records[l := r] <==> InUse(after, x) {
      assert x in records <==> InUse(contents, x);
    }
    forall x: Location | x in records[l := r] && InUse(after, x)
      ensures records[l := r][x] == Records(after[x.pageNumber])[x.loc]
    {
      assert x in records <==> InUse(contents, x);
    }
  }

  /** One record less on one page. */
  lemma RecordGone(contents: map<nat, Content>, records: map<Location, seq<byte>>, l: Location, c: Content)
    requires Flattens(contents, records) && l.pageNumber in contents
    requires Records(c) == Records(contents[l.pageNumber]) - {l.loc as nat}
    ensures Flattens(contents[l.pageNumber as nat := c], records - {l})
  {
    var after := contents[l.pageNumber as nat := c];
    forall x: Location ensures x in records - {l} <==> InUse(after, x) {
      assert x in records <==> InUse(contents, x);
    }
    forall x: Location | x in records - {l} && InUse(after, x)
      ensures (records - {l})[x] == Records(after[x.pageNumber])[x.loc]
    {
      assert x in records <==> InUse(contents, x);
    }
  }

  /** An empty page adds no record. */
  lemma NoRecordAdded(contents: map<nat, Content>, records: map<Location, seq<byte>>, p: nat, c: Content)
    requires Flattens(contents, records) && p !in contents && Records(c) == map[]
    ensures Flattens(contents[p := c], records)
  {
    var after := contents[p := c];
    forall x: Location ensures x in records <==> InUse(after, x) {
      assert x in records <==> InUse(contents, x);
    }
    forall x: Location | x in records && InUse(after, x) ensures records[x] == Records(after[x.pageNumber])[x.loc] {
      assert x in records <==> InUse(contents, x);
    }
  }

  // ---------- where a record goes ----------

  /** The byte of its dictionary page that describes a data page. */
  function Entry(pages: seq<seq<byte>>, p: nat): byte
    requires PagesSized(pages) && IsData(p) && p < |pages|
  {
    pages[DictionaryPage(p)][DictionaryIndex(p)]
  }

  /** A record of `n` bytes would go to offset `at` of a page that holds `c`. */
  ghost predicate Lands(page: seq<byte>, len: nat, c: Content, n: nat, at: nat) {
    match c
    case Variable(_) => VariablePage.FirstToTake(page, at, n)
    case Fixed(layout) => FixedPage.HasRoom(layout, len) && at == FixedPage.NextSlot(layout)
  }

  /** Page `p` has no room for `n` bytes. */
  ghost predicate Crowded(page: seq<byte>, len: nat, c: Content, n: nat) {
    match c
    case Variable(_) => VariablePage.NoRoom(page, n)
    case Fixed(layout) => !FixedPage.HasRoom(layout, len)
  }

  /** A data page of the layout that is not marked full and has room for `n` bytes. */
  ghost predicate Open(pages: seq<seq<byte>>, len: nat, contents: map<nat, Content>, p: nat, n: nat, fixed: bool)
    requires PagesSized(pages)
  {
    && p in contents && IsData(p) && p < |pages| && contents[p].Fixed? == fixed
    && !FullBit(Entry(pages, p)) && !Crowded(pages[p], len, contents[p], n)
  }

  /** The entry of a page that an insertion passed by: it is marked full if it has the layout that was asked for. */
  function Passed(state: byte, fixed: bool): (b: byte)
    ensures VariableBit(b) == VariableBit(state) && b / 4 == state / 4
    ensures FullBit(b) <==> FullBit(state) || VariableBit(state) != fixed
  {
    if VariableBit(state) == fixed then state else SetFull(state)
  }

  /** The entries after an insertion passed by the pages before `stop`. */
  ghost predicate HintAfter(was: seq<seq<byte>>, now: seq<seq<byte>>, stop: nat, fixed: bool, p: nat)
    requires PagesSized(was) && PagesSized(now)
  {
    IsData(p) && p < |was| && p < |now| ==>
      Entry(now, p) == if p < stop then Passed(Entry(was, p), fixed) else Entry(was, p)
  }

  ghost predicate HintsAfter(was: seq<seq<byte>>, now: seq<seq<byte>>, stop: nat, fixed: bool) {
    && PagesSized(was) && PagesSized(now)
    && forall p: nat {:trigger HintAfter(was, now, stop, fixed, p)} :: HintAfter(was, now, stop, fixed, p)
  }

  /** The data pages are as they were. */
  ghost predicate DataSame(was: seq<seq<byte>>, now: seq<seq<byte>>) {
    |now| == |was| && forall p {:trigger IsData(p)} :: 0 <= p < |was| && IsData(p) ==> now[p] == was[p]
  }

  /** None of the pages before `i` takes the record. */
  ghost predicate NoneOpen(pages: seq<seq<byte>>, len: nat, contents: map<nat, Content>, i: nat, n: nat, fixed: bool)
    requires PagesSized(pages)
  {
    forall p: nat {:trigger Open(pages, len, contents, p, n, fixed)} :: p < i
      ==> !Open(pages, len, contents, p, n, fixed)
  }

  /** A page of the layout that was asked for and that is not open is marked full or has no room. */
  lemma PassedOver(pages: seq<seq<byte>>, len: nat, contents: map<nat, Content>, i: nat, n: nat, fixed: bool, p: nat)
    requires FileOk(pages, len, contents) && NoneOpen(pages, len, contents, i, n, fixed)
    requires p < i && p < |pages| && IsData(p)
    ensures p in contents && VariableBit(Entry(pages, p)) == contents[p].Variable?
    ensures VariableBit(Entry(pages, p)) != fixed ==> FullBit(Entry(pages, p)) || Crowded(pages[p], len, contents[p], n)
  {
    assert Sound(pages, len, contents, p) && !Open(pages, len, contents, p, n, fixed);
  }

  /** The scan for room before page `i`, with the dictionary page `d` in the buffer `dic`. */
  ghost predicate Scanning(was: seq<seq<byte>>, now: seq<seq<byte>>, d: nat, dic: seq<byte>, i: nat, fixed: bool) {
    && PagesSized(was) && PagesSized(now) && |dic| == PAGE_SIZE && d < |now| && IsDictionary(d)
    && DataSame(was, now) && HintsAfter(was, now[d := dic], i, fixed)
  }

  lemma ScanStarts(pages: seq<seq<byte>>, fixed: bool)
    requires PagesSized(pages) && |pages| >= 2
    ensures Scanning(pages, pages, 1, pages[1], 2, fixed)
  {
    assert pages[1 := pages[1]] == pages;
    forall p: nat ensures HintAfter(pages, pages, 2, fixed, p) {
    }
  }

  /** The buffer of a dictionary page is written back, and that of the next one taken. */
  lemma ScanTurns(was: seq<seq<byte>>, now: seq<seq<byte>>, d: nat, dic: seq<byte>, i: nat, fixed: bool)
    requires Scanning(was, now, d, dic, i, fixed) && i < |was| && IsDictionary(i) && d < i
    ensures Scanning(was, now[d := dic], i, now[i], i + 1, fixed)
  {
    var after, next := now[d := dic], i + 1;
    assert after[i := now[i]] == after;
    forall p: nat ensures HintAfter(was, after, next, fixed, p) {
      assert HintAfter(was, after, i, fixed, p);
    }
  }

  /** A page is passed by. */
  lemma ScanPasses(was: seq<seq<byte>>, now: seq<seq<byte>>, d: nat, dic: seq<byte>, i: nat, fixed: bool, state: byte)
    requires Scanning(was, now, d, dic, i, fixed) && i < |was| && IsData(i) && DictionaryPage(i) == d
    requires state == Passed(dic[DictionaryIndex(i)], fixed)
    ensures Scanning(was, now, d, dic[DictionaryIndex(i) := state], i + 1, fixed)
    ensures dic[DictionaryIndex(i)] == Entry(was, i)
  {
    var before, after, next := now[d := dic], now[d := dic[DictionaryIndex(i) := state]], i + 1;
    assert HintAfter(was, before, i, fixed, i);
    forall p: nat ensures HintAfter(was, after, next, fixed, p) {
      assert HintAfter(was, before, i, fixed, p);
    }
  }

  /** A page other than a dictionary page has no entries. */
  lemma ScanEnds(was: seq<seq<byte>>, now: seq<seq<byte>>, d: nat, dic: seq<byte>, i: nat, fixed: bool,
                 after: seq<seq<byte>>)
    requires Scanning(was, now, d, dic, i, fixed) && PagesSized(after) && |after| == |now|
    requires forall j :: 0 <= j < |now| && j != i ==> after[j] == now[d := dic][j]
    requires i < |now| ==> IsData(i)
    ensures HintsAfter(was, after, i, fixed)
  {
    forall p: nat ensures HintAfter(was, after, i, fixed, p) {
      assert HintAfter(was, now[d := dic], i, fixed, p);
    }
  }

  /** A page after the record at `at` was deleted: a fixed-length slot is the next one to be used again. */
  ghost function Vacated(c: Content, at: nat): Content {
    match c
    case Variable(records) => Variable(records - {at})
    case Fixed(layout) => Fixed(FixedPage.Freed(layout, at))
  }

  /** Pages never change their layout. */
  ghost predicate KindsKept(before: map<nat, Content>, after: map<nat, Content>) {
    forall p | p in before :: p in after && after[p].Variable? == before[p].Variable?
  }

  /** `record` can be put into a fresh page: it fills the page's only block, or leaves room for another header. */
  predicate FitsFreshPage(n: nat, len: nat, fixed: bool) {
    if fixed then n == len && 4 <= len <= PAGE_SIZE - 7
    else VariablePage.Fits(PAGE_SIZE - VariablePage.HEADER, n)
  }

  class RecordManager {
    /** The file of the table, page by page. */
    var pages: seq<seq<byte>>
    /** The length of the table's fixed-length records (TableDescription::len). */
    const len: nat

    ghost var contents: map<nat, Content>
    /** The records of the file: what a client sees. */
    ghost var records: map<Location, seq<byte>>

    ghost predicate Valid()
      reads this
    {
      FileOk(pages, len, contents) && Flattens(contents, records)
    }

    /** The size of the file in pages. */
    function PageCount(): nat
      reads this
    {
      |pages|
    }

    /** A new table, whose file holds at most its header page. */
    constructor (len: nat, pages: seq<seq<byte>>)
      requires |pages| <= 1 && forall i :: 0 <= i < |pages| ==> |pages[i]| == PAGE_SIZE
      ensures Valid() && records == map[] && this.len == len && this.pages == pages
    {
      this.len, this.pages := len, pages;
      contents, records := map[], map[];
    }

    /** Page::getBuf. */
    method GetBuf(p: nat) returns (buf: array<byte>)
      requires p < |pages| && |pages[p]| == PAGE_SIZE
      ensures fresh(buf) && buf[..] == pages[p]
    {
      var page := pages[p];
      buf := new byte[PAGE_SIZE](i requires 0 <= i < PAGE_SIZE => page[i]);
    }

    /** Whether page `p` is a page of fixed-length records. */
    predicate IsFixed(p: nat)
      reads this
      requires IsData(p) && p < |pages| && |pages[DictionaryPage(p)]| == PAGE_SIZE
    {
      !VariableBit(pages[DictionaryPage(p)][DictionaryIndex(p)])
    }

    /** Page::releaseBuf of a page on which the record at `l` was written. */
    method ReleaseWithRecord(buf: array<byte>, l: Location, record: seq<byte>, ghost c: Content)
      requires Valid() && l.pageNumber in contents && buf.Length == PAGE_SIZE
      requires c.Variable? == contents[l.pageNumber].Variable?
      requires c.Variable? ==> VariablePage.Holds(buf[..], c.records)
      requires c.Fixed? ==> FixedPage.Holds(buf[..], c.layout, len)
      requires Records(c) == Records(contents[l.pageNumber])[l.loc as nat := record]
      modifies this
      ensures Valid() && contents == old(contents)[l.pageNumber as nat := c]
      ensures |pages| == |old(pages)|
      ensures forall i :: 0 <= i < |pages| && i != l.pageNumber ==> pages[i] == old(pages)[i]
      ensures records == old(records)[l := record]
      ensures l in old(records) <==> l.loc in Records(old(contents)[l.pageNumber])
    {
      assert Sound(pages, len, contents, l.pageNumber);
      RecordSet(contents, records, l, c, record);
      DataPageChanged(pages, len, contents, l.pageNumber, buf[..], c);
      pages := pages[l.pageNumber := buf[..]];
      contents := contents[l.pageNumber as nat := c];
      records := records[l := record];
    }

    /** tryInsert on page `p`, which has fixed-length records; None is the source's NULL. */
    method TryInsertFixed(p: nat, record: seq<byte>) returns (at: Option<nat>)
      requires Valid() && p in contents && contents[p].Fixed? && |record| == len
      modifies this
      ensures Valid() && |pages| == |old(pages)|
      ensures at.None? <==> !FixedPage.HasRoom(old(contents)[p].layout, len)
      ensures at.None? ==> pages == old(pages) && contents == old(contents) && records == old(records)
      ensures at.Some? ==> at.value < PAGE_SIZE && p < |pages|
      ensures at.Some? ==> at.value == FixedPage.NextSlot(old(contents)[p].layout)
      ensures forall i :: 0 <= i < |pages| && i != p ==> pages[i] == old(pages)[i]
      ensures at.Some? ==> var l := Location(p, at.value);
        l !in old(records) && records == old(records)[l := record]
      ensures KindsKept(old(contents), contents)
    {
      assert Sound(pages, len, contents, p);
      ghost var y := contents[p].layout;
      var data := GetBuf(p);
      at := FixedPage.TryInsert(data, record, y);
      if at.Some? {
        ReleaseWithRecord(data, Location(p, at.value), record, Fixed(FixedPage.Taken(y, record)));
      }
    }

    /** The record in the first block of a page buffer that takes it, next to the records that are there. */
    static method FirstFit(data: array<byte>, record: seq<byte>, ghost live: map<nat, seq<byte>>)
      returns (at: Option<nat>)
      requires data.Length == PAGE_SIZE && VariablePage.Holds(data[..], live)
      modifies data
      ensures at.None? <==> VariablePage.NoRoom(old(data[..]), |record|)
      ensures at.Some? ==> VariablePage.FirstToTake(old(data[..]), at.value, |record|)
      ensures at.Some? ==>
        at.value < PAGE_SIZE && at.value !in live && VariablePage.Holds(data[..], live[at.value := record])
    {
      ghost var p := data[..];
      at := VariablePage.TryInsert(data, record);
      if at.Some? {
        VariablePage.PlaceHolds(p, live, at.value, record);
      }
    }

    /** tryInsert on page `p`, which has variable-length records; None is the source's NULL. */
    method TryInsertVariable(p: nat, record: seq<byte>) returns (at: Option<nat>)
      requires Valid() && p in contents && contents[p].Variable?
      modifies this
      ensures Valid() && |pages| == |old(pages)|
      ensures p < |pages| && (at.None? <==> VariablePage.NoRoom(old(pages)[p], |record|))
      ensures at.None? ==> pages == old(pages) && contents == old(contents) && records == old(records)
      ensures at.Some? ==> at.value < PAGE_SIZE && VariablePage.FirstToTake(old(pages)[p], at.value, |record|)
      ensures forall i :: 0 <= i < |pages| && i != p ==> pages[i] == old(pages)[i]
      ensures at.Some? ==> var l := Location(p, at.value);
        l !in old(records) && records == old(records)[l := record]
      ensures KindsKept(old(contents), contents)
    {
      assert Sound(pages, len, contents, p);
      ghost var live := contents[p].records;
      var data := GetBuf(p);
      at := FirstFit(data, record, live);
      if at.Some? {
        ReleaseWithRecord(data, Location(p, at.value), record, Variable(live[at.value := record]));
      }
    }

    /** tryInsert; None is the source's NULL. */
    method TryInsert(p: nat, record: seq<byte>, fixed: bool) returns (at: Option<nat>)
      requires Valid() && p in contents && contents[p].Fixed? == fixed && (fixed ==> |record| == len)
      modifies this
      ensures Valid() && |pages| == |old(pages)|
      ensures at.None? ==> pages == old(pages) && contents == old(contents) && records == old(records)
      ensures p < |pages| && (at.None? <==> Crowded(old(pages)[p], len, old(contents)[p], |record|))
      ensures at.Some? ==> at.value < PAGE_SIZE && Lands(old(pages)[p], len, old(contents)[p], |record|, at.value)
      ensures forall i :: 0 <= i < |pages| && i != p ==> pages[i] == old(pages)[i]
      ensures at.Some? ==> var l := Location(p, at.value);
        l !in old(records) && records == old(records)[l := record]
      ensures KindsKept(old(contents), contents)
    {
      assert Sound(pages, len, contents, p);
      if fixed {
        at := TryInsertFixed(p, record);
      } else {
        at := TryInsertVariable(p, record);
      }
    }

    /** Page::releaseBuf of a dictionary page whose hints may have changed. */
    method ReleaseDictionary(d: nat, dic: array<byte>)
      requires Valid() && IsDictionary(d) && d < |pages| && SameLayouts(dic[..], pages[d])
      modifies this
      ensures Valid() && pages == old(pages)[d := dic[..]] && contents == old(contents) && records == old(records)
    {
      HintsChanged(pages, len, contents, d, dic[..]);
      pages := pages[d := dic[..]];
    }

    /** The first block, or the list head and the first block, of an empty page. */
    method FormatPage(new_buf: array<byte>, fixed: bool)
      requires new_buf.Length == PAGE_SIZE && (fixed ==> len >= 4)
      modifies new_buf
      ensures fixed ==> FixedPage.Holds(new_buf[..], FixedPage.FRESH, len)
      ensures !fixed ==> VariablePage.Holds(new_buf[..], map[])
      ensures !fixed ==> new_buf[0] == 0 && Short(new_buf[..], 1) == PAGE_SIZE - 3
    {
      if !fixed {
        new_buf[0] := 0;
        WriteShort(new_buf, 1, PAGE_SIZE - 3);
        VariablePage.FreshPage(new_buf[..]);
      } else {
        WriteShort(new_buf, 0, 2);
        new_buf[2] := 0;
        WriteShort(new_buf, 3, PAGE_SIZE - 7);
        WriteShort(new_buf, 5, 0);
        FixedPage.FreshPage(new_buf[..], len);
      }
    }

    /** If the next page of the file is to be a dictionary page, add it. */
    method AddDictionary()
      requires Valid() && 2 <= |pages| < MAX_PAGES
      modifies this
      ensures Valid() && IsData(|pages|) && |pages| == NextData(|old(pages)|)
      ensures contents == old(contents) && records == old(records)
    {
      if |pages| % EXTENT == 1 {
        ExtendedByDictionary(pages, len, contents, |pages| + 1);
        pages := Extend(pages, |pages| + 1);
      }
    }

    /** Append an empty data page. */
    method AddPage(fixed: bool) returns (p: nat)
      requires Valid() && IsData(|pages|) && |pages| < MAX_PAGES
      requires fixed ==> len >= 4
      modifies this
      ensures Valid() && records == old(records)
      ensures p == |old(pages)| && |pages| == p + 1 && p !in old(contents)
      ensures contents == old(contents)[p := if fixed then Fixed(FixedPage.FRESH) else Variable(map[])]
      ensures !fixed ==> |pages[p]| == PAGE_SIZE && pages[p][0] == 0 && Short(pages[p], 1) == PAGE_SIZE - 3
    {
      p := |pages|;
      var new_buf := new byte[PAGE_SIZE](_ => 0);
      FormatPage(new_buf, fixed);
      var d := DictionaryPage(p);
      assert Sound(pages, len, contents, p);
      var state: byte := if fixed then pages[d][DictionaryIndex(p)] else 1;
      ghost var c := if fixed then Fixed(FixedPage.FRESH) else Variable(map[]);
      PageAdded(pages, len, contents, new_buf[..], c, state);
      NoRecordAdded(contents, records, p, c);
      pages := pages[d := SetEntry(pages[d], p, state)] + [new_buf[..]];
      contents := contents[p := c];
    }

    /** What the scan knows before it comes to page `i`, whose entry is number `index` of the buffer `dic`. */
    ghost predicate AtPage(was: seq<seq<byte>>, d: nat, dic: seq<byte>, i: nat, index: nat, fixed: bool)
      reads this
    {
      && Valid() && IsDictionary(d) && d < |pages| && index <= PAGE_SIZE && i == d + 1 + index
      && |dic| == PAGE_SIZE && SameLayouts(dic, pages[d]) && Scanning(was, pages, d, dic, i, fixed)
    }

    /** The scan comes to the next dictionary page, and takes its buffer. */
    method TurnDictionary(d: nat, dic: array<byte>, i: nat, fixed: bool, ghost was: seq<seq<byte>>)
      returns (next: array<byte>)
      requires AtPage(was, d, dic[..], i, PAGE_SIZE, fixed) && i < |pages|
      modifies this
      ensures fresh(next) && AtPage(was, i, next[..], i + 1, 0, fixed)
      ensures |pages| == |old(pages)| && contents == old(contents) && records == old(records)
    {
      NextDictionary(d);
      ScanTurns(was, pages, d, dic[..], i, fixed);
      ReleaseDictionary(d, dic);
      next := GetBuf(i);
    }

    /** The scan comes to a data page, and puts the record there if it is open. */
    method VisitPage(d: nat, dic: array<byte>, i: nat, index: nat, record: seq<byte>, fixed: bool,
                     ghost was: seq<seq<byte>>)
      returns (at: Option<nat>)
      requires AtPage(was, d, dic[..], i, index, fixed) && i < |pages| && index < PAGE_SIZE
      requires fixed ==> |record| == len
      modifies this, dic
      ensures PagesSized(was) && (at.Some? <==> Open(was, len, old(contents), i, |record|, fixed))
      ensures at.None? ==> AtPage(was, d, dic[..], i + 1, index + 1, fixed)
      ensures at.None? ==> pages == old(pages) && contents == old(contents) && records == old(records)
      ensures at.Some? ==>
        && Valid() && KindsKept(old(contents), contents) && dic[..] == old(dic[..])
        && i < |pages| == |old(pages)| && (forall j :: 0 <= j < |pages| && j != i ==> pages[j] == old(pages)[j])
        && at.value < PAGE_SIZE && i in old(contents) && Lands(was[i], len, old(contents)[i], |record|, at.value)
        && i < 0x1_0000_0000 && var l := Location(i, at.value);
        l !in old(records) && records == old(records)[l := record]
    {
      ScanAddress(d, index);
      assert Sound(pages, len, contents, i);
      var state := dic[index];
      assert VariableBit(state) == VariableBit(pages[d][index]);
      ScanPasses(was, pages, d, dic[..], i, fixed, Passed(state, fixed));
      assert pages[i] == was[i];
      at := None;
      if (fixed && !VariableBit(state) && !FullBit(state)) || (!fixed && VariableBit(state) && !FullBit(state)) {
        at := TryInsert(i, record, fixed);
        if at.None? {
          dic[index] := SetFull(state);
        }
      } else {
        assert Passed(state, fixed) == state && dic[..] == dic[..][index := state];
      }
    }

    /**
     The scan of the existing pages: the record goes to the first page of the right layout that is not marked full and
     has room. The pages of that layout before it are marked full.
     */
    method InsertInOldPage(record: seq<byte>, fixed: bool) returns (ret: Option<Location>)
      requires Valid() && 2 <= |pages| && (fixed ==> |record| == len)
      modifies this
      ensures Valid() && |pages| == |old(pages)| && KindsKept(old(contents), contents)
      ensures ret.None? ==> records == old(records) && contents == old(contents)
      ensures ret.Some? ==> ret.value !in old(records) && records == old(records)[ret.value := record]
      ensures ret.Some? ==> ret.value.pageNumber in contents && contents[ret.value.pageNumber].Fixed? == fixed
      ensures PagesSized(old(pages))
      ensures var stop: nat := if ret.Some? then ret.value.pageNumber else |pages|;
        && NoneOpen(old(pages), len, old(contents), stop, |record|, fixed)
        && HintsAfter(old(pages), pages, stop, fixed)
      ensures ret.Some? ==> var l := ret.value;
        && Open(old(pages), len, old(contents), l.pageNumber, |record|, fixed)
        && Lands(old(pages)[l.pageNumber], len, old(contents)[l.pageNumber], |record|, l.loc)
        && !FullBit(Entry(old(pages), l.pageNumber))
    {
      var dic_page := 1;
      var dic := GetBuf(dic_page);
      var count := |pages|;
      var i, index := 2, 0;
      ghost var was := pages;
      ScanStarts(pages, fixed);
      while i < count
        invariant 2 <= i <= count == |pages| && AtPage(was, dic_page, dic[..], i, index, fixed)
        invariant fresh(dic) && contents == old(contents) && records == old(records)
        invariant NoneOpen(was, len, contents, i, |record|, fixed)
        decreases count - i
      {
        if index == PAGE_SIZE {
          dic := TurnDictionary(dic_page, dic, i, fixed, was);
          dic_page := i;
          index := 0;
          i := i + 1;
          continue;
        }
        ghost var before := pages;
        var result := VisitPage(dic_page, dic, i, index, record, fixed, was);
        if result.Some? {
          ReleaseDictionary(dic_page, dic);
          ScanEnds(was, before, dic_page, dic[..], i, fixed, pages);
          return Some(Location(i, result.value));
        }
        index := index + 1;
        i := i + 1;
      }
      ReleaseDictionary(dic_page, dic);
      ret := None;
    }

    /** "store in a new page": the file grows by a data page, and by a dictionary page if one is due. */
    method InsertInNewPage(record: seq<byte>, fixed: bool) returns (ret: Location)
      requires Valid() && 2 <= |pages| <= MAX_PAGES - 2
      requires FitsFreshPage(|record|, len, fixed)
      modifies this
      ensures Valid() && KindsKept(old(contents), contents)
      ensures ret !in old(records) && records == old(records)[ret := record]
      ensures ret.pageNumber in contents && contents[ret.pageNumber].Fixed? == fixed
      ensures ret.pageNumber == NextData(|old(pages)|) && |pages| == ret.pageNumber + 1
      ensures ret.loc == if fixed then FixedPage.FIRST else 0
    {
      AddDictionary();
      var p := AddPage(fixed);
      if !fixed {
        VariablePage.FreshPage(pages[p]);
        assert VariablePage.Takes(pages[p], 0, |record|);
      }
      var result := TryInsert(p, record, fixed);
      ret := Location(p, result.value);
    }

    /**
     Insert a record: the location was not in use, exactly one binding is added, and every other record keeps its
     location and its bytes, however the file grows.
     */
    method Insert(record: seq<byte>, fixed: bool) returns (ret: Location)
      requires Valid() && |pages| <= MAX_PAGES - 2
      requires FitsFreshPage(|record|, len, fixed)
      modifies this
      ensures Valid() && KindsKept(old(contents), contents)
      ensures ret !in old(records) && records == old(records)[ret := record]
      ensures ret.pageNumber in contents && contents[ret.pageNumber].Fixed? == fixed
      ensures ret != NULL_LOCATION
      ensures PagesSized(old(pages)) && NoneOpen(old(pages), len, old(contents), ret.pageNumber, |record|, fixed)
      ensures var p: nat, was := ret.pageNumber, old(pages);
        if Open(was, len, old(contents), p, |record|, fixed) then
          Lands(was[p], len, old(contents)[p], |record|, ret.loc) && |pages| == |was|
        else
          && p == NextData(if |was| < 2 then 2 else |was|) && |pages| == p + 1
          && ret.loc == if fixed then FixedPage.FIRST else 0
      ensures |old(pages)| >= 2 ==>
        (|pages| > |old(pages)| <==> NoneOpen(old(pages), len, old(contents), |old(pages)|, |record|, fixed))
      ensures forall p {:trigger IsData(p)} | 0 <= p < |old(pages)| && p < ret.pageNumber && IsData(p) ::
        p in old(contents) && VariableBit(Entry(old(pages), p)) == old(contents)[p].Variable? &&
        (VariableBit(Entry(old(pages), p)) != fixed ==>
           FullBit(Entry(old(pages), p)) || Crowded(old(pages)[p], len, old(contents)[p], |record|))
    {
      ghost var was, before := pages, contents;
      assert forall p: nat :: Sound(pages, len, contents, p) ==> (p in contents ==> p < |pages|);
      ExtendedByDictionary(pages, len, contents, 2);
      pages := Extend(pages, 2);
      var old_place := InsertInOldPage(record, fixed);
      if old_place.Some? {
        ret := old_place.value;
      } else {
        ret := InsertInNewPage(record, fixed);
      }
      assert Sound(pages, len, contents, ret.pageNumber);
      forall p | 0 <= p < |was| && p < ret.pageNumber && IsData(p)
        ensures p in before && VariableBit(Entry(was, p)) == before[p].Variable?
        ensures VariableBit(Entry(was, p)) != fixed ==>
          FullBit(Entry(was, p)) || Crowded(was[p], len, before[p], |record|)
      {
        PassedOver(was, len, before, ret.pageNumber, |record|, fixed, p);
      }
    }

    /** What the page of a live record looks like. */
    lemma LiveRecord(l: Location)
      requires Valid() && l in records
      ensures l.pageNumber in contents && IsData(l.pageNumber) && l.pageNumber < |pages|
      ensures |pages[l.pageNumber]| == PAGE_SIZE && |pages[DictionaryPage(l.pageNumber)]| == PAGE_SIZE
      ensures contents[l.pageNumber].Fixed? == IsFixed(l.pageNumber)
      ensures l.loc in Records(contents[l.pageNumber]) && records[l] == Records(contents[l.pageNumber])[l.loc]
      ensures contents[l.pageNumber].Variable? ==>
        (&& VariablePage.Holds(pages[l.pageNumber], contents[l.pageNumber].records)
         && VariablePage.LiveAs(pages[l.pageNumber], l.loc, records[l]))
      ensures contents[l.pageNumber].Fixed? ==> FixedPage.Holds(pages[l.pageNumber], contents[l.pageNumber].layout, len)
    {
      assert InUse(contents, l) && Sound(pages, len, contents, l.pageNumber);
    }

    /** delOneRecord: the record at `l` goes, and no other record changes. `fixed` is the layout of its page. */
    method DelOneRecord(l: Location, fixed: bool)
      requires Valid() && l in records
      requires l.pageNumber in contents && contents[l.pageNumber].Fixed? == fixed
      modifies this
      ensures Valid() && KindsKept(old(contents), contents) && |pages| == |old(pages)|
      ensures records == old(records) - {l}
      ensures l.pageNumber < |pages| && forall j :: 0 <= j < |pages| && j != l.pageNumber ==> pages[j] == old(pages)[j]
      ensures contents == old(contents)[l.pageNumber as nat := Vacated(old(contents)[l.pageNumber], l.loc)]
    {
      var p: nat, now: nat := l.pageNumber, l.loc;
      LiveRecord(l);
      var data := GetBuf(p);
      ghost var c;
      if fixed {
        FixedPage.Delete(data, now, len, contents[p].layout);
        c := Fixed(FixedPage.Freed(contents[p].layout, now));
      } else {
        VariablePage.ClearHolds(pages[p], contents[p].records, now);
        data[now] := 0;
        c := Variable(contents[p].records - {now});
      }
      RecordGone(contents, records, l, c);
      DataPageChanged(pages, len, contents, p, data[..], c);
      pages := pages[p := data[..]];
      contents := contents[p := c];
      records := records - {l};
    }

    /** Whether the dictionary says that the page of `l` has fixed-length records. */
    method LayoutOf(l: Location) returns (fixed: bool)
      requires Valid() && l in records
      ensures l.pageNumber in contents && contents[l.pageNumber].Fixed? == fixed
    {
      var p: nat := l.pageNumber;
      LiveRecord(l);
      var dic := GetBuf(DictionaryPage(p));
      fixed := dic[DictionaryIndex(p)] % 2 == 0;
    }

    method DeleteRecord(l: Location)
      requires Valid() && l in records
      modifies this
      ensures Valid() && KindsKept(old(contents), contents) && |pages| == |old(pages)|
      ensures records == old(records) - {l} && l.pageNumber in old(contents)
      ensures l.pageNumber < |pages| && forall j :: 0 <= j < |pages| && j != l.pageNumber ==> pages[j] == old(pages)[j]
      ensures contents == old(contents)[l.pageNumber as nat := Vacated(old(contents)[l.pageNumber], l.loc)]
    {
      var fixed := LayoutOf(l);
      DelOneRecord(l, fixed);
    }

    /** The payload of a block with a live record. */
    static method ReadBlock(data: array<byte>, now: nat, ghost record: seq<byte>) returns (ret: seq<byte>)
      requires data.Length == PAGE_SIZE && VariablePage.Tiled(data[..], 0) && VariablePage.LiveAs(data[..], now, record)
      ensures ret == record
    {
      var length := Short(data[..], now + 1);
      ret := data[now + 3..now + 3 + length];
    }

    /** getRecord: the bytes that were inserted at `l`. The source supports it on variable-length pages. */
    method GetRecord(l: Location) returns (ret: seq<byte>)
      requires Valid() && l in records
      requires l.pageNumber in contents && contents[l.pageNumber].Variable?
      ensures ret == records[l]
    {
      var p: nat, now: nat := l.pageNumber, l.loc;
      LiveRecord(l);
      var data := GetBuf(p);
      ret := ReadBlock(data, now, records[l]);
    }

    /** The bytes of a live record are overwritten in a page buffer by as many new ones. */
    static method OverwriteInBuffer(data: array<byte>, now: nat, record: seq<byte>, ghost live: map<nat, seq<byte>>)
      requires data.Length == PAGE_SIZE && VariablePage.Holds(data[..], live)
      requires now in live && VariablePage.LiveAs(data[..], now, live[now]) && |record| == |live[now]|
      modifies data
      ensures VariablePage.Holds(data[..], live[now := record])
    {
      ghost var p := data[..];
      VariablePage.OverwriteBytes(p, now, record);
      WriteBytes(data, now + 3, record);
      VariablePage.OverwriteHolds(p, live, now, record, data[..]);
    }

    /** updateRecordNoResize, with the bytes the callback leaves: only that record changes. */
    method UpdateRecordNoResize(l: Location, record: seq<byte>)
      requires Valid() && l in records && |record| == |records[l]|
      requires l.pageNumber in contents && contents[l.pageNumber].Variable?
      modifies this
      ensures Valid() && KindsKept(old(contents), contents) && |pages| == |old(pages)|
      ensures records == old(records)[l := record]
    {
      var p: nat, now: nat := l.pageNumber, l.loc;
      LiveRecord(l);
      ghost var live := contents[p].records;
      var data := GetBuf(p);
      OverwriteInBuffer(data, now, record, live);
      ReleaseWithRecord(data, l, record, Variable(live[now := record]));
    }

    /** The in-place half of updateOneRecord. */
    method OverwriteFixed(l: Location, record: seq<byte>)
      requires Valid() && l in records && |record| == len
      requires l.pageNumber in contents && contents[l.pageNumber].Fixed?
      modifies this
      ensures Valid() && KindsKept(old(contents), contents) && |pages| == |old(pages)|
      ensures records == old(records)[l := record]
    {
      var p: nat, now: nat := l.pageNumber, l.loc;
      LiveRecord(l);
      ghost var y := contents[p].layout;
      FixedPage.OverwriteHolds(pages[p], y, now, record);
      var data := GetBuf(p);
      WriteBytes(data, now + 1, record);
      ReleaseWithRecord(data, l, record, Fixed(y.(live := y.live[now := record])));
    }

    /** updateOneRecord: the new bytes are found at the returned location, and no other record changes. */
    method UpdateOneRecord(l: Location, record: seq<byte>, fixed_res: bool) returns (newLoc: Location)
      requires Valid() && l in records && |pages| <= MAX_PAGES - 2
      requires FitsFreshPage(|record|, len, fixed_res)
      modifies this
      ensures Valid() && KindsKept(old(contents), contents) && |pages| <= |old(pages)| + 2
      ensures newLoc !in old(records) - {l} && records == (old(records) - {l})[newLoc := record]
      ensures newLoc.pageNumber in contents && contents[newLoc.pageNumber].Fixed? == fixed_res
      ensures newLoc != NULL_LOCATION && l.pageNumber in old(contents)
      ensures old(contents)[l.pageNumber].Fixed? && fixed_res ==> newLoc == l
    {
      LiveRecord(l);
      var fixed := LayoutOf(l);
      if fixed && fixed_res {
        OverwriteFixed(l, record);
        assert old(records)[l := record] == (old(records) - {l})[l := record];
        newLoc := l;
      } else {
        DelOneRecord(l, fixed);
        newLoc := Insert(record, fixed_res);
      }
    }
  }
}
