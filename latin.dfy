/** The Latin-square rotation of get_list_items: which condition of an item
    is shown in which list. */
module Latin {
  import Arith

  /** The condition of item `id` shown in list `listNo` of `noLists`: one plus
      the remainder of `id`, moved back by `listNo - 1` and wrapped into range.
      Python's `%` with a positive divisor is Dafny's `%`. */
  function Cond(id: int, listNo: int, noLists: int): (c: int)
    requires noLists > 0
    ensures 1 <= listNo <= noLists ==> 1 <= c <= noLists
  {
    var c := id % noLists + 1 - (listNo - 1);
    if c <= 0 then c + noLists else c
  }

  /** The rotation is one plus the remainder of `id - listNo + 1`. */
  lemma CondClosedForm(id: int, listNo: int, noLists: int)
    requires 1 <= listNo <= noLists
    ensures Cond(id, listNo, noLists) == (id - listNo + 1) % noLists + 1
  {
    var r, q := id % noLists, id / noLists;
    assert id == q * noLists + r;
    if r - listNo + 1 >= 0 {
      Arith.ModUnique(id - listNo + 1, q, r - listNo + 1, noLists);
    } else {
      assert (q - 1) * noLists == q * noLists - noLists;
      Arith.ModUnique(id - listNo + 1, q - 1, r - listNo + 1 + noLists, noLists);
    }
  }

  /** The list in which item `id` shows condition `c`. */
  function ListShowing(id: int, c: int, noLists: int): (k: int)
    requires noLists > 0 && 1 <= c <= noLists
    ensures 1 <= k <= noLists
  {
    var r := id % noLists;
    if c <= r + 1 then r + 2 - c else r + 2 - c + noLists
  }

  /** For a fixed item, different lists show different conditions. */
  lemma CondInjectiveAcrossLists(id: int, k1: int, k2: int, noLists: int)
    requires 1 <= k1 <= noLists && 1 <= k2 <= noLists
    requires Cond(id, k1, noLists) == Cond(id, k2, noLists)
    ensures k1 == k2
  {
  }

  /** Across lists 1..noLists every condition of an item is shown exactly
      once: in list `ListShowing(id, c, noLists)` and in no other. */
  lemma EachConditionInExactlyOneList(id: int, c: int, noLists: int)
    requires noLists > 0 && 1 <= c <= noLists
    ensures (set k | 1 <= k <= noLists && Cond(id, k, noLists) == c) == {ListShowing(id, c, noLists)}
  {
    var k0 := ListShowing(id, c, noLists);
    assert Cond(id, k0, noLists) == c;
    forall k | 1 <= k <= noLists && Cond(id, k, noLists) == c
      ensures k == k0
    {
      CondInjectiveAcrossLists(id, k, k0, noLists);
    }
  }

  /** Within one list, which remainder of the item number shows condition `c`. */
  lemma CondIsResidue(id: int, listNo: int, c: int, noLists: int)
    requires 1 <= listNo <= noLists && 1 <= c <= noLists
    ensures Cond(id, listNo, noLists) == c <==> id % noLists == (c + listNo - 2) % noLists
  {
    var t := c + listNo - 2;
    if t < noLists {
      Arith.ModUnique(t, 0, t, noLists);
    } else {
      Arith.ModUnique(t, 1, t - noLists, noLists);
    }
  }

  /** The item number in `start..start+noLists-1` that shows condition `c` in list `listNo`. */
  function ItemShowing(start: int, listNo: int, c: int, noLists: int): (id: int)
    requires 1 <= listNo <= noLists && 1 <= c <= noLists
    ensures start <= id < start + noLists
  {
    Arith.ResidueInWindow(start, (c + listNo - 2) % noLists, noLists);
    start + ((c + listNo - 2) % noLists - start) % noLists
  }

  /** The balanced Latin square: in one list, any `noLists` consecutive item
      numbers show each condition 1..noLists exactly once. */
  lemma EachConditionOnceInWindow(start: int, listNo: int, c: int, noLists: int)
    requires 1 <= listNo <= noLists && 1 <= c <= noLists
    ensures (set id | start <= id < start + noLists && Cond(id, listNo, noLists) == c)
      == {ItemShowing(start, listNo, c, noLists)}
  {
    var t := (c + listNo - 2) % noLists;
    var id0 := ItemShowing(start, listNo, c, noLists);
    Arith.ResidueInWindow(start, t, noLists);
    CondIsResidue(id0, listNo, c, noLists);
    forall id | start <= id < start + noLists && Cond(id, listNo, noLists) == c
      ensures id == id0
    {
      CondIsResidue(id, listNo, c, noLists);
      if id >= id0 {
        Arith.SameResidueClose(id, id0, noLists);
      } else {
        Arith.SameResidueClose(id0, id, noLists);
      }
    }
  }
}
