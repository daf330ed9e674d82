/**
 How the rows of a table are stored as bytes (TableDescription in src/RecordManage/TableManager.cpp): columns of a fixed
 width as they are, varying ones after their length, and rows whose varying columns are all short padded to one length.
 */
module ItemCodec {
  import opened Bytes
  import opened Locations
  import opened NodeFormat

  /** The stored cells of a row. */
  type Cells = seq<seq<byte>>

  const VARYING: int := -1

  /** The longest varying cell that a row of the fixed length has room for (src/config.h). */
  const DEFAULT_VARCHAR_LEN: nat := 64

  /** Lengths are stored as a C `int`. */
  const MAX_LENGTH: nat := 0x7fff_ffff

  predicate PatternOk(pattern: seq<int>) {
    forall i :: 0 <= i < |pattern| ==> pattern[i] == VARYING || pattern[i] > 0
  }

  /** The bytes that a row of the fixed length has for a column. */
  function Share(x: int): nat {
    if x == VARYING then 4 + DEFAULT_VARCHAR_LEN else if x > 0 then x else 0
  }

  function Width(pattern: seq<int>, n: nat): nat
    requires n <= |pattern|
  {
    if n == 0 then 0 else Width(pattern, n - 1) + Share(pattern[n - 1])
  }

  function Field(x: int, cell: seq<byte>): seq<byte> {
    if x == VARYING then LittleEndian(|cell|, 4) + cell else cell
  }

  /** The first `n` columns, one after the other. */
  function Body(pattern: seq<int>, item: Cells, n: nat): seq<byte>
    requires n <= |pattern| && n <= |item|
  {
    if n == 0 then [] else Body(pattern, item, n - 1) + Field(pattern[n - 1], item[n - 1])
  }

  /** No varying column is too long for a row of the fixed length. */
  predicate AllShort(pattern: seq<int>, item: Cells, n: nat)
    requires n <= |pattern| && n <= |item|
  {
    forall i :: 0 <= i < n && pattern[i] == VARYING ==> |item[i]| <= DEFAULT_VARCHAR_LEN
  }

  function Resized(b: seq<byte>, n: nat): (r: seq<byte>)
    ensures |r| == n
  {
    if |b| >= n then b[..n] else b + seq(n - |b|, _ => 0)
  }

  /** What a row is stored as. */
  function Embedded(pattern: seq<int>, item: Cells): seq<byte>
    requires |item| == |pattern|
  {
    var body := Body(pattern, item, |item|);
    if AllShort(pattern, item, |item|) then Resized(body, Width(pattern, |pattern|)) else body
  }

  /**
   One column from the front of the bytes that are left, and the bytes behind it; nothing where a bounds check fails.
   */
  function ReadField(x: int, rest: seq<byte>): (r: Option<(seq<byte>, seq<byte>)>)
    ensures r.Some? ==> |r.value.1| <= |rest|
  {
    if x > 0 then
      if x <= |rest| then Some((rest[..x], rest[x..])) else None
    else if x == VARYING && 4 <= |rest| then
      var n := Number(rest[..4]);
      if n <= MAX_LENGTH && 4 + n <= |rest| then Some((rest[4..4 + n], rest[4 + n..])) else None
    else None
  }

  /** The first `n` columns, and the bytes behind them. */
  function ReadUpTo(pattern: seq<int>, rest: seq<byte>, n: nat): (r: Option<(Cells, seq<byte>)>)
    requires n <= |pattern|
    ensures r.Some? ==> |r.value.1| <= |rest|
  {
    if n == 0 then Some(([], rest))
    else
      var before := ReadUpTo(pattern, rest, n - 1);
      if before.None? then None
      else
        var field := ReadField(pattern[n - 1], before.value.1);
        if field.None? then None else Some((before.value.0 + [field.value.0], field.value.1))
  }

  /**
   A row read from the bytes between `now` and `limit`, and the cursor behind it; a row of the fixed length is
   skipped.
   */
  function ReadItem(pattern: seq<int>, buf: seq<byte>, limit: nat, now: nat, fixed: bool): Option<(Cells, nat)>
    requires now <= limit <= |buf|
  {
    var r := ReadUpTo(pattern, buf[now..limit], |pattern|);
    if r.None? then None
    else
      var end: nat, minimum: nat := limit - |r.value.1|, now + Width(pattern, |pattern|);
      Some((r.value.0, if fixed && end < minimum then minimum else end))
  }

  /** The cells have the widths of their columns. */
  predicate Fits(pattern: seq<int>, item: Cells) {
    |item| == |pattern| && forall i :: 0 <= i < |pattern| ==>
      if pattern[i] == VARYING then |item[i]| <= MAX_LENGTH else |item[i]| == pattern[i]
  }

  /** A row has the fixed length exactly if each of its cells fits the share of its column. */
  lemma FixedIfFieldsFit(pattern: seq<int>, item: Cells)
    requires PatternOk(pattern) && Fits(pattern, item)
    ensures AllShort(pattern, item, |item|) <==>
      forall i :: 0 <= i < |pattern| ==> |Field(pattern[i], item[i])| <= Share(pattern[i])
  {
    forall i | 0 <= i < |pattern| && pattern[i] == VARYING
      ensures |Field(pattern[i], item[i])| == 4 + |item[i]|
    {
    }
  }

  // ---------- round trip ----------

  lemma FieldReads(x: int, cell: seq<byte>, tail: seq<byte>)
    requires if x == VARYING then |cell| <= MAX_LENGTH else x > 0 && |cell| == x
    ensures ReadField(x, Field(x, cell) + tail) == Some((cell, tail))
  {
    var rest := Field(x, cell) + tail;
    if x == VARYING {
      assert rest[..4] == LittleEndian(|cell|, 4);
      assert rest[4..4 + |cell|] == cell && rest[4 + |cell|..] == tail;
      Bounds();
      NumberReads(|cell|, 4);
    } else {
      assert rest[..x] == cell && rest[x..] == tail;
    }
  }

  lemma {:induction false} BodyReads(pattern: seq<int>, item: Cells, tail: seq<byte>, n: nat)
    requires PatternOk(pattern) && Fits(pattern, item) && n <= |pattern|
    ensures ReadUpTo(pattern, Body(pattern, item, n) + tail, n) == Some((item[..n], tail))
    decreases n
  {
    if n == 0 {
      assert [] + tail == tail;
    } else {
      var a, f := Body(pattern, item, n - 1), Field(pattern[n - 1], item[n - 1]);
      BodyReads(pattern, item, f + tail, n - 1);
      FieldReads(pattern[n - 1], item[n - 1], tail);
      assert (a + f) + tail == a + (f + tail);
      assert item[..n] == item[..n - 1] + [item[n - 1]];
    }
  }

  lemma {:induction false} ShortBody(pattern: seq<int>, item: Cells, n: nat)
    requires PatternOk(pattern) && Fits(pattern, item) && n <= |pattern| && AllShort(pattern, item, n)
    ensures |Body(pattern, item, n)| <= Width(pattern, n)
  {
    if n == 0 {
    } else {
      ShortBody(pattern, item, n - 1);
    }
  }

  lemma Padding(b: seq<byte>, n: nat) returns (pad: seq<byte>)
    requires |b| <= n
    ensures Resized(b, n) == b + pad && |pad| == n - |b|
  {
    pad := Resized(b, n)[|b|..];
  }

  /** What is read has the widths of the columns. */
  lemma {:induction false} ReadFits(pattern: seq<int>, rest: seq<byte>, n: nat)
    requires n <= |pattern| && ReadUpTo(pattern, rest, n).Some?
    ensures var cells := ReadUpTo(pattern, rest, n).value.0;
      |cells| == n && forall i :: 0 <= i < n ==>
        if pattern[i] == VARYING then |cells[i]| <= MAX_LENGTH else |cells[i]| == pattern[i]
  {
    if n == 0 {
    } else {
      ReadFits(pattern, rest, n - 1);
    }
  }

  /** The columns of a stored row, and what is left behind them. */
  lemma EmbeddedReads(pattern: seq<int>, item: Cells, tail: seq<byte>) returns (rest: seq<byte>)
    requires PatternOk(pattern) && Fits(pattern, item)
    ensures ReadUpTo(pattern, Embedded(pattern, item) + tail, |pattern|) == Some((item, rest))
    ensures if AllShort(pattern, item, |item|) then |rest| >= |tail|
        && |Embedded(pattern, item)| == Width(pattern, |pattern|)
            else |rest| == |tail|
  {
    var n, body := |item|, Body(pattern, item, |item|);
    assert item[..n] == item;
    if AllShort(pattern, item, n) {
      ShortBody(pattern, item, n);
      var pad := Padding(body, Width(pattern, n));
      assert (body + pad) + tail == body + (pad + tail);
      rest := pad + tail;
    } else {
      rest := tail;
    }
    BodyReads(pattern, item, rest, n);
  }

  /**
   A row that was stored is read back, and the cursor moves by exactly the bytes that it takes, if and only if its
   cells have the widths of their columns.
   */
  lemma RoundTrip(pattern: seq<int>, item: Cells, buf: seq<byte>, limit: nat, now: nat, tail: seq<byte>)
    requires PatternOk(pattern) && |item| == |pattern| && now <= limit <= |buf|
    requires buf[now..limit] == Embedded(pattern, item) + tail
    ensures Fits(pattern, item) <==>
      ReadItem(pattern, buf, limit, now, AllShort(pattern, item, |item|)) ==
        Some((item, now + |Embedded(pattern, item)|))
  {
    assert |buf[now..limit]| == limit - now;
    if Fits(pattern, item) {
      var rest := EmbeddedReads(pattern, item, tail);
    } else if ReadUpTo(pattern, buf[now..limit], |pattern|).Some? {
      ReadFits(pattern, buf[now..limit], |pattern|);
    }
  }

  lemma BodyOfTwo(pattern: seq<int>, item: Cells)
    requires |pattern| == |item| == 2 && pattern[0] == 2 && pattern[1] == VARYING
    ensures Body(pattern, item, 2) == item[0] + (LittleEndian(|item[1]|, 4) + item[1]) && Width(pattern, 2) == 70
  {
    assert Body(pattern, item, 1) == Body(pattern, item, 0) + item[0] == item[0];
    assert Width(pattern, 1) == 2;
  }

  lemma LengthOfOne()
    ensures LittleEndian(1, 4) == [1, 0, 0, 0]
  {
    FourBytes(1, 0);
  }

  lemma PadOf(body: seq<byte>, n: nat)
    requires |body| == 7
    ensures Resized(body, 7 + n) == body + seq(n, _ => 0)
  {
    if n == 0 {
      assert body[..7] == body;
    }
  }

  /** A row of a two-byte column and a varying one: the bytes as they lie, padded to the room that 64 bytes take. */
  lemma RowOfTwo(pattern: seq<int>, item: Cells)
    requires pattern == [2, VARYING] && item == [[5, 6], [7]]
    ensures Embedded(pattern, item) == [5, 6, 1, 0, 0, 0, 7] + seq(63, _ => 0)
  {
    var body: seq<byte> := [5, 6, 1, 0, 0, 0, 7];
    BodyOfTwo(pattern, item);
    assert Body(pattern, item, 2) == body by {
      LengthOfOne();
    }
    PadOf(body, 63);
  }

  // ---------- the table description ----------

  /** The columns of a table as its description collects them. */
  class TableDescription {
    var pattern: seq<int>
    var len: nat

    ghost predicate Valid()
      reads this
    {
      PatternOk(pattern) && len == Width(pattern, |pattern|)
    }

    constructor ()
      ensures Valid() && pattern == []
    {
      pattern, len := [], 0;
    }

    static lemma {:induction false} WidthPrefix(pattern: seq<int>, x: int, n: nat)
      requires n <= |pattern|
      ensures Width(pattern + [x], n) == Width(pattern, n)
    {
      if n == 0 {
      } else {
        WidthPrefix(pattern, x, n - 1);
      }
    }

    /** addPattern: one more column. */
    method AddPattern(x: int)
      requires Valid() && (x == VARYING || x > 0)
      modifies this
      ensures Valid() && pattern == old(pattern) + [x]
    {
      ghost var was := pattern;
      pattern := pattern + [x];
      if x == VARYING {
        len := len + 4 + DEFAULT_VARCHAR_LEN;
      } else {
        len := len + x;
      }
      WidthPrefix(was, x, |was|);
    }

    /** embed: the bytes of a row, and whether it has the fixed length. */
    method Embed(list: Cells) returns (ret: seq<byte>, fixedRes: bool)
      requires Valid() && |list| == |pattern|
      ensures ret == Embedded(pattern, list) && fixedRes == AllShort(pattern, list, |list|)
    {
      ret, fixedRes := [], true;
      for i := 0 to |list|
        invariant ret == Body(pattern, list, i) && fixedRes == AllShort(pattern, list, i)
      {
        ghost var before := ret;
        if pattern[i] == VARYING {
          if |list[i]| > DEFAULT_VARCHAR_LEN {
            fixedRes := false;
          }
          ret := ret + LittleEndian(|list[i]|, 4);
        }
        ret := ret + list[i];
        assert ret == before + Field(pattern[i], list[i]);
      }
      if fixedRes {
        ret := Resized(ret, len);
      }
    }

    static lemma Window(buf: seq<byte>, now: nat, limit: nat, i: nat, j: nat)
      requires now <= limit <= |buf| && i <= j <= limit - now
      ensures buf[now..limit][i..j] == buf[now + i..now + j]
    {
      var a, b := buf[now..limit][i..j], buf[now + i..now + j];
      forall k | 0 <= k < |a| ensures a[k] == b[k] {
        assert buf[now..limit][i + k] == buf[now + (i + k)];
      }
    }

    /** One turn of the loop of read. */
    method ReadOne(x: int, buf: seq<byte>, limit: nat, now: nat) returns (cell: Option<seq<byte>>, next: nat)
      requires now <= limit <= |buf|
      ensures now <= next <= limit
      ensures ReadField(x, buf[now..limit]) == if cell.Some? then Some((cell.value, buf[next..limit])) else None
    {
      ghost var rest := buf[now..limit];
      cell, next := None, now;
      if x > 0 {
        if now + x <= limit {
          Window(buf, now, limit, 0, x);
          Window(buf, now, limit, x, limit - now);
          cell, next := Some(buf[now..now + x]), now + x;
        }
      } else if x == VARYING {
        if now + 4 <= limit {
          Window(buf, now, limit, 0, 4);
          var n := Number(buf[now..now + 4]);
          if n <= MAX_LENGTH && now + 4 + n <= limit {
            Window(buf, now, limit, 4, 4 + n);
            Window(buf, now, limit, 4 + n, limit - now);
            cell, next := Some(buf[now + 4..now + 4 + n]), now + 4 + n;
          }
        }
      }
    }

    static lemma {:induction false} FailsForGood(pattern: seq<int>, rest: seq<byte>, n: nat, m: nat)
      requires n <= m <= |pattern| && ReadUpTo(pattern, rest, n).None?
      ensures ReadUpTo(pattern, rest, m).None?
    {
      if n < m {
        FailsForGood(pattern, rest, n, m - 1);
      }
    }

    /** read: the cells at the cursor, and the cursor behind them; nothing where a bounds check fails. */
    method Read(buf: seq<byte>, limit: nat, now: nat, fixed: bool) returns (r: Option<(Cells, nat)>)
      requires Valid() && now <= limit <= |buf|
      ensures r == ReadItem(pattern, buf, limit, now, fixed)
    {
      var cells: Cells, at := [], now;
      ghost var all := buf[now..limit];
      for i := 0 to |pattern|
        invariant now <= at <= limit && ReadUpTo(pattern, all, i) == Some((cells, buf[at..limit]))
      {
        var cell, next := ReadOne(pattern[i], buf, limit, at);
        if cell.None? {
          FailsForGood(pattern, all, i + 1, |pattern|);
          return None;
        }
        cells, at := cells + [cell.value], next;
      }
      if fixed && at < now + len {
        at := now + len;
      }
      r := Some((cells, at));
    }
  }
}
