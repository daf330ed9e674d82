/**
 The record file of one index, as the tree sees it: some records hold nodes, the others hold data. This is the only
 place where nodes meet bytes.
 */
module NodeStore {
  import opened Bytes
  import opened Locations
  import opened NodeFormat
  import opened TreeShape
  import opened RecordManagement
  import VariablePage

  /** Data the source can insert: it fits a fresh page of variable-length records. */
  predicate FitsPage(n: nat) {
    VariablePage.Fits(PAGE_SIZE - VariablePage.HEADER, n)
  }

  /** What the record file holds at `l`: the encoding of a node, or data, or nothing. */
  ghost predicate Linked(records: map<Location, seq<byte>>, nodes: map<Location, NodeRec>,
                         data: map<Location, seq<byte>>, max: nat, l: Location) {
    && (l in records <==> l in nodes || l in data)
    && !(l in nodes && l in data)
    && (l in nodes ==> Storable(nodes[l], max) && records[l] == Encode(nodes[l], max))
    && (l in data ==> records[l] == data[l])
  }

  /** Every record is a node or data, and the bytes of the nodes are their encodings. */
  ghost predicate AllLinked(records: map<Location, seq<byte>>, nodes: map<Location, NodeRec>,
                            data: map<Location, seq<byte>>, max: nat) {
    && NULL_LOCATION !in records
    && forall l {:trigger Linked(records, nodes, data, max, l)} :: Linked(records, nodes, data, max, l)
  }

  ghost predicate OnVariablePage(contents: map<nat, Content>, l: Location) {
    l.pageNumber in contents && contents[l.pageNumber].Variable?
  }

  /** All records are on pages of variable-length records. */
  ghost predicate AllVariable(records: map<Location, seq<byte>>, contents: map<nat, Content>) {
    forall l {:trigger OnVariablePage(contents, l)} | l in records :: OnVariablePage(contents, l)
  }

  lemma NodeWritten(records: map<Location, seq<byte>>, nodes: map<Location, NodeRec>, data: map<Location, seq<byte>>,
                    max: nat, l: Location, n: NodeRec)
    requires AllLinked(records, nodes, data, max) && Storable(n, max) && l !in data && l != NULL_LOCATION
    ensures AllLinked(records[l := Encode(n, max)], nodes[l := n], data, max)
  {
    var after, now := records[l := Encode(n, max)], nodes[l := n];
    forall x ensures Linked(after, now, data, max, x) {
      assert Linked(records, nodes, data, max, x);
    }
  }

  lemma DataWritten(records: map<Location, seq<byte>>, nodes: map<Location, NodeRec>, data: map<Location, seq<byte>>,
                    max: nat, l: Location, d: seq<byte>)
    requires AllLinked(records, nodes, data, max) && l !in nodes && l != NULL_LOCATION
    ensures AllLinked(records[l := d], nodes, data[l := d], max)
  {
    var after, now := records[l := d], data[l := d];
    forall x ensures Linked(after, nodes, now, max, x) {
      assert Linked(records, nodes, data, max, x);
    }
  }

  lemma RecordErased(records: map<Location, seq<byte>>, nodes: map<Location, NodeRec>, data: map<Location, seq<byte>>,
                     max: nat, l: Location)
    requires AllLinked(records, nodes, data, max)
    ensures AllLinked(records - {l}, nodes - {l}, data - {l}, max)
    ensures l !in data ==> data - {l} == data
    ensures l !in nodes ==> nodes - {l} == nodes
  {
    var after, left, rest := records - {l}, nodes - {l}, data - {l};
    forall x ensures Linked(after, left, rest, max, x) {
      assert Linked(records, nodes, data, max, x);
    }
  }

  lemma StillVariable(records: map<Location, seq<byte>>, contents: map<nat, Content>,
                      after: map<Location, seq<byte>>, now: map<nat, Content>, l: Location)
    requires AllVariable(records, contents) && KindsKept(contents, now)
    requires after.Keys <= records.Keys + {l} && (l in after ==> OnVariablePage(now, l))
    ensures AllVariable(after, now)
  {
    forall x | x in after ensures OnVariablePage(now, x) {
      assert x in records ==> OnVariablePage(contents, x);
    }
  }

  class NodeStore {
    const rm: RecordManager
    /** BRankMax: how many children a node may have. */
    const max: nat

    ghost var nodes: map<Location, NodeRec>
    ghost var data: map<Location, seq<byte>>

    ghost predicate Valid()
      reads this, rm
    {
      && rm.Valid()
      && 3 <= max <= 255
      && AllLinked(rm.records, nodes, data, max)
      && AllVariable(rm.records, rm.contents)
    }

    /** How many pages the file may still grow by. */
    ghost function Room(): int
      reads rm
    {
      MAX_PAGES - (if rm.PageCount() < 2 then 2 else rm.PageCount())
    }

    /** A new index file, whose pages hold no record yet. */
    constructor (rm: RecordManager, max: nat)
      requires rm.Valid() && rm.records == map[] && 3 <= max <= 255
      ensures Valid() && nodes == map[] && data == map[]
      ensures this.rm == rm && this.max == max
    {
      this.rm, this.max := rm, max;
      nodes, data := map[], map[];
    }

    /** The first writeBack of a node: it gets a location of its own. */
    method NewNode(n: NodeRec) returns (l: Location)
      requires Valid() && Room() >= 2 && Storable(n, max)
      modifies this, rm
      ensures Valid() && l !in old(nodes) && l !in old(data) && l != NULL_LOCATION
      ensures nodes == old(nodes)[l := n] && data == old(data)
      ensures Room() >= old(Room()) - 2
    {
      var buf := ToBuf(n, max);
      ghost var records, contents := rm.records, rm.contents;
      l := rm.Insert(buf, false);
      assert Linked(records, nodes, data, max, l);
      NodeWritten(records, nodes, data, max, l, n);
      StillVariable(records, contents, rm.records, rm.contents, l);
      nodes := nodes[l := n];
    }

    /** writeBack of a node that has a location. */
    method WriteNode(l: Location, n: NodeRec)
      requires Valid() && l in nodes && Storable(n, max)
      modifies this, rm
      ensures Valid()
      ensures nodes == old(nodes)[l := n] && data == old(data)
      ensures Room() == old(Room())
    {
      assert Linked(rm.records, nodes, data, max, l) && OnVariablePage(rm.contents, l);
      var buf := ToBuf(n, max);
      ghost var records, contents := rm.records, rm.contents;
      rm.UpdateRecordNoResize(l, buf);
      NodeWritten(records, nodes, data, max, l, n);
      StillVariable(records, contents, rm.records, rm.contents, l);
      nodes := nodes[l := n];
    }

    /** parseNodeFromPage: the node that was written at `l`. */
    method ReadNode(l: Location) returns (n: NodeRec)
      requires Valid() && l in nodes
      ensures n == nodes[l]
    {
      assert Linked(rm.records, nodes, data, max, l) && OnVariablePage(rm.contents, l);
      var record := rm.GetRecord(l);
      n := InitFromBuf(record, max, nodes[l]);
    }

    /** updateParentLoc: only the parent pointer of the stored node changes. */
    method UpdateParentLoc(childLoc: Location, parentLoc: Location)
      requires Valid() && childLoc in nodes
      modifies this, rm
      ensures Valid() && data == old(data) && Room() == old(Room())
      ensures nodes == old(nodes)[childLoc := old(nodes)[childLoc].(parent := parentLoc)]
    {
      assert Linked(rm.records, nodes, data, max, childLoc);
      var nf := ReadNode(childLoc);
      WriteNode(childLoc, nf.(parent := parentLoc));
    }

    method DeleteNode(l: Location)
      requires Valid() && l in nodes
      modifies this, rm
      ensures Valid()
      ensures nodes == old(nodes) - {l} && data == old(data)
      ensures Room() == old(Room())
    {
      assert Linked(rm.records, nodes, data, max, l);
      ghost var records, contents := rm.records, rm.contents;
      rm.DeleteRecord(l);
      RecordErased(records, nodes, data, max, l);
      StillVariable(records, contents, rm.records, rm.contents, l);
      nodes := nodes - {l};
    }

    method NewData(d: seq<byte>) returns (l: Location)
      requires Valid() && Room() >= 2 && FitsPage(|d|)
      modifies this, rm
      ensures Valid() && l !in old(nodes) && l !in old(data) && l != NULL_LOCATION
      ensures data == old(data)[l := d] && nodes == old(nodes)
      ensures Room() >= old(Room()) - 2
    {
      ghost var records, contents := rm.records, rm.contents;
      l := rm.Insert(d, false);
      assert Linked(records, nodes, data, max, l);
      DataWritten(records, nodes, data, max, l, d);
      StillVariable(records, contents, rm.records, rm.contents, l);
      data := data[l := d];
    }

    /** Data that is stored can be stored again, even on a fresh page. */
    lemma DataFits(l: Location)
      requires Valid() && l in data
      ensures FitsPage(|data[l]|)
    {
      assert Linked(rm.records, nodes, data, max, l) && OnVariablePage(rm.contents, l);
      rm.LiveRecord(l);
      VariablePage.BlockFits(rm.pages[l.pageNumber], l.loc);
    }

    method ReadData(l: Location) returns (d: seq<byte>)
      requires Valid() && l in data
      ensures d == data[l]
    {
      assert Linked(rm.records, nodes, data, max, l) && OnVariablePage(rm.contents, l);
      d := rm.GetRecord(l);
    }

    /** updateOneRecord of data: the new bytes may go to another location. */
    method ReplaceData(l: Location, d: seq<byte>) returns (newLoc: Location)
      requires Valid() && l in data && Room() >= 2 && FitsPage(|d|)
      modifies this, rm
      ensures Valid() && newLoc !in old(nodes) && newLoc !in old(data) - {l} && newLoc != NULL_LOCATION
      ensures data == (old(data) - {l})[newLoc := d] && nodes == old(nodes)
      ensures Room() >= old(Room()) - 2
    {
      assert Linked(rm.records, nodes, data, max, l);
      ghost var records, contents := rm.records, rm.contents;
      newLoc := rm.UpdateOneRecord(l, d, false);
      assert Linked(records, nodes, data, max, newLoc);
      RecordErased(records, nodes, data, max, l);
      DataWritten(records - {l}, nodes, data - {l}, max, newLoc, d);
      StillVariable(records, contents, rm.records, rm.contents, newLoc);
      data := (data - {l})[newLoc := d];
    }

    /** updateRecordNoResize of data. */
    method OverwriteData(l: Location, d: seq<byte>)
      requires Valid() && l in data && |d| == |data[l]|
      modifies this, rm
      ensures Valid()
      ensures data == old(data)[l := d] && nodes == old(nodes)
      ensures Room() == old(Room())
    {
      assert Linked(rm.records, nodes, data, max, l) && OnVariablePage(rm.contents, l);
      ghost var records, contents := rm.records, rm.contents;
      rm.UpdateRecordNoResize(l, d);
      DataWritten(records, nodes, data, max, l, d);
      StillVariable(records, contents, rm.records, rm.contents, l);
      data := data[l := d];
    }

    method DeleteData(l: Location)
      requires Valid() && l in data
      modifies this, rm
      ensures Valid()
      ensures data == old(data) - {l} && nodes == old(nodes)
      ensures Room() == old(Room())
    {
      assert Linked(rm.records, nodes, data, max, l);
      ghost var records, contents := rm.records, rm.contents;
      rm.DeleteRecord(l);
      RecordErased(records, nodes, data, max, l);
      StillVariable(records, contents, rm.records, rm.contents, l);
      data := data - {l};
    }
  }
}
