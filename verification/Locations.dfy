/** Addresses of records in a table file (src/RecordManage/RecordManager.h), their order, and lists of them. */
module Locations {

  datatype Option<+T> = None | Some(value: T)

  type uint32 = x: int | 0 <= x < 0x1_0000_0000

  type uint16 = x: int | 0 <= x < 0x1_0000

  /**
   A page number and a byte offset inside that page. The source declares both as `int` and stores them in 4 and 2 bytes;
   no file comes near those bounds.
   */
  datatype Location = Location(pageNumber: uint32, loc: uint16)

  /** Page 0 never holds a record, so (0, 0) stands for "no location". */
  const NULL_LOCATION: Location := Location(0, 0)

  /** No element occurs at two positions. */
  ghost predicate NoDuplicates<T(!new)>(s: seq<T>) {
    forall i, j :: 0 <= i < j < |s| ==> s[i] != s[j]
  }

  /** The order in which a scan of the file meets locations: page after page, and on a page by offset. */
  predicate Before(a: Location, b: Location) {
    a.pageNumber < b.pageNumber || (a.pageNumber == b.pageNumber && a.loc < b.loc)
  }

  ghost predicate InTurn(s: seq<Location>, i: nat, j: nat) {
    i < j < |s| ==> Before(s[i], s[j])
  }

  ghost predicate Ordered(s: seq<Location>) {
    forall i: nat, j: nat {:trigger InTurn(s, i, j)} :: InTurn(s, i, j)
  }

  lemma OrderedPart(s: seq<Location>, from: nat, to: nat)
    requires Ordered(s) && from <= to <= |s|
    ensures Ordered(s[from..to])
  {
    var t := s[from..to];
    forall i: nat, j: nat ensures InTurn(t, i, j) {
      assert InTurn(s, i + from, j + from);
    }
  }

  /** One ordered list behind another. */
  lemma OrderedJoin(s: seq<Location>, t: seq<Location>)
    requires Ordered(s) && Ordered(t) && forall a, b :: a in s && b in t ==> Before(a, b)
    ensures Ordered(s + t)
  {
    var all := s + t;
    forall i: nat, j: nat ensures InTurn(all, i, j) {
      if i < j < |all| {
        if j < |s| {
          assert InTurn(s, i, j);
        } else if i < |s| {
          assert s[i] in s && t[j - |s|] in t;
        } else {
          assert InTurn(t, i - |s|, j - |s|);
        }
      }
    }
  }

  lemma FirstListed(s: seq<Location>)
    ensures s == [] || exists l :: l in s
  {
    assert s == [] || s[0] in s;
  }

  lemma LastIsHighest(s: seq<Location>)
    requires Ordered(s) && s != []
    ensures forall l :: l in s && l != s[|s| - 1] ==> Before(l, s[|s| - 1])
  {
    forall l | l in s && l != s[|s| - 1] ensures Before(l, s[|s| - 1]) {
      var i :| 0 <= i < |s| && s[i] == l;
      assert InTurn(s, i, |s| - 1);
    }
  }

  lemma FrontMember(s: seq<Location>, l: Location)
    requires Ordered(s) && s != []
    ensures l in s[..|s| - 1] <==> l in s && l != s[|s| - 1]
  {
    var a := |s| - 1;
    if l in s[..a] {
      var i :| 0 <= i < a && s[i] == l;
      assert InTurn(s, i, a);
    }
  }

  /** A set of locations can be listed in order in one way only. */
  lemma {:induction false} OrderedUnique(s: seq<Location>, t: seq<Location>)
    requires Ordered(s) && Ordered(t) && forall l :: l in s <==> l in t
    ensures s == t
  {
    if s == [] {
      FirstListed(t);
    } else if t == [] {
      FirstListed(s);
    } else {
      var a, b := |s| - 1, |t| - 1;
      LastIsHighest(s);
      LastIsHighest(t);
      assert s[a] in t && t[b] in s;
      OrderedPart(s, 0, a);
      OrderedPart(t, 0, b);
      forall l ensures l in s[..a] <==> l in t[..b] {
        FrontMember(s, l);
        FrontMember(t, l);
      }
      OrderedUnique(s[..a], t[..b]);
      assert s == s[..a] + [s[a]] && t == t[..b] + [t[b]];
    }
  }
}
