/** get_list_items: the entries of one Latin-square list, one per item. */
module Assign {
  import opened Types
  import opened Text
  import opened Latin

  /** `str(key)`: the text of an identifier as the order log writes it. */
  function KeyText(k: Key): string {
    match k
    case Compound(id, cond) => IntToString(id) + "-" + IntToString(cond)
    case Number(n) => IntToString(n)
  }

  /** The entry of one item in list `listNo`: its compound identifier and the
      text of the condition the rotation selects; a condition the item does
      not have is the KeyError of `item[1][this_cond]`. */
  function AssignOne(item: Item, listNo: int, noLists: int): Result<Entry>
    requires noLists > 0
  {
    var c := Cond(item.id, listNo, noLists);
    if 1 <= c <= |item.conds| then Ok(Entry(Compound(item.id, c), item.conds[c - 1]))
    else Err(MissingCondition(item.id, c))
  }

  /** The entries of `items` in order; the first item without its condition stops the run. */
  function AssignAll(items: seq<Item>, listNo: int, noLists: int): Result<seq<Entry>>
    requires noLists > 0
    decreases |items|
  {
    if items == [] then Ok([])
    else
      match AssignAll(items[..|items| - 1], listNo, noLists)
      case Err(e) => Err(e)
      case Ok(es) =>
        match AssignOne(items[|items| - 1], listNo, noLists)
        case Err(e) => Err(e)
        case Ok(entry) => Ok(es + [entry])
  }

  /** What get_list_items(items, list_no, no_lists) returns, or why it stops the run. */
  function ListItems(items: seq<Item>, listNo: int, noLists: int): Result<seq<Entry>> {
    if listNo < 1 || listNo > noLists then Err(ListNumberOutOfRange(listNo))
    else AssignAll(items, listNo, noLists)
  }

  lemma {:induction false} AssignErrorPersists(items: seq<Item>, j: nat, listNo: int, noLists: int)
    requires noLists > 0 && j <= |items| && AssignAll(items[..j], listNo, noLists).Err?
    ensures AssignAll(items, listNo, noLists) == AssignAll(items[..j], listNo, noLists)
    decreases |items| - j
  {
    if j < |items| {
      assert items[..j + 1][..j] == items[..j];
      AssignErrorPersists(items, j + 1, listNo, noLists);
    } else {
      assert items[..j] == items;
    }
  }

  /** get_list_items: the range check on `list_no`, then one entry per item. */
  method GetListItems(items: seq<Item>, listNo: int, noLists: int) returns (r: Result<seq<Entry>>)
    ensures r == ListItems(items, listNo, noLists)
  {
    if listNo < 1 || listNo > noLists {
      return Err(ListNumberOutOfRange(listNo));
    }
    var entries: seq<Entry> := [];
    for i := 0 to |items|
      invariant AssignAll(items[..i], listNo, noLists) == Ok(entries)
    {
      var item := items[i];
      var thisCond := item.id % noLists + 1;
      thisCond := thisCond - (listNo - 1);
      if thisCond <= 0 {
        thisCond := thisCond + noLists;
      }
      assert items[..i + 1][..i] == items[..i];
      if !(1 <= thisCond <= |item.conds|) {
        r := Err(MissingCondition(item.id, thisCond));
        AssignErrorPersists(items, i + 1, listNo, noLists);
        return;
      }
      entries := entries + [Entry(Compound(item.id, thisCond), item.conds[thisCond - 1])];
    }
    assert items[..|items|] == items;
    r := Ok(entries);
  }

  /** The condition item `item` has in list `listNo`. */
  predicate HasCond(item: Item, listNo: int, noLists: int)
    requires noLists > 0
  {
    Cond(item.id, listNo, noLists) <= |item.conds|
  }

  /** A list is returned exactly when `list_no` is in 1..no_lists and every
      item has the condition the rotation selects for it; no list at all is
      returned otherwise. */
  lemma {:induction false} ListItemsOkIff(items: seq<Item>, listNo: int, noLists: int)
    ensures ListItems(items, listNo, noLists).Ok? <==>
      1 <= listNo <= noLists && forall j :: 0 <= j < |items| ==> HasCond(items[j], listNo, noLists)
    ensures (listNo < 1 || listNo > noLists) ==> ListItems(items, listNo, noLists) == Err(ListNumberOutOfRange(listNo))
  {
    if 1 <= listNo <= noLists {
      AssignAllOkIff(items, listNo, noLists);
    }
  }

  lemma {:induction false} AssignAllOkIff(items: seq<Item>, listNo: int, noLists: int)
    requires 1 <= listNo <= noLists
    ensures AssignAll(items, listNo, noLists).Ok? <==> forall j :: 0 <= j < |items| ==> HasCond(items[j], listNo, noLists)
    decreases |items|
  {
    if items != [] {
      var init, last := items[..|items| - 1], items[|items| - 1];
      AssignAllOkIff(init, listNo, noLists);
      assert forall j :: 0 <= j < |init| ==> init[j] == items[j];
      assert AssignOne(last, listNo, noLists).Ok? <==> HasCond(last, listNo, noLists);
      assert AssignAll(items, listNo, noLists).Ok? <==>
        AssignAll(init, listNo, noLists).Ok? && AssignOne(last, listNo, noLists).Ok?;
      if AssignAll(items, listNo, noLists).Ok? {
        forall j | 0 <= j < |items|
          ensures HasCond(items[j], listNo, noLists)
        {
          if j < |init| { assert HasCond(init[j], listNo, noLists); }
        }
      } else if !AssignAll(init, listNo, noLists).Ok? {
        var j :| 0 <= j < |init| && !HasCond(init[j], listNo, noLists);
        assert !HasCond(items[j], listNo, noLists);
      } else {
        assert !HasCond(items[|items| - 1], listNo, noLists);
      }
    }
  }

  /** The entry of item `j`: the key `"id-cond"` and the text of condition `cond`. */
  predicate EntryFor(e: Entry, item: Item, listNo: int, noLists: int)
    requires noLists > 0
  {
    var c := Cond(item.id, listNo, noLists);
    1 <= c <= |item.conds| && e == Entry(Compound(item.id, c), item.conds[c - 1])
  }

  /** A returned list has one entry per item, in item order, each keyed
      `"id-cond"` and holding the text of the item's condition for this list. */
  lemma {:induction false} ListItemsEntries(items: seq<Item>, listNo: int, noLists: int)
    requires ListItems(items, listNo, noLists).Ok?
    ensures var es := ListItems(items, listNo, noLists).value;
      |es| == |items| && forall j :: 0 <= j < |items| ==> EntryFor(es[j], items[j], listNo, noLists)
  {
    AssignAllEntries(items, listNo, noLists);
  }

  lemma {:induction false} AssignAllEntries(items: seq<Item>, listNo: int, noLists: int)
    requires noLists > 0 && AssignAll(items, listNo, noLists).Ok?
    ensures var es := AssignAll(items, listNo, noLists).value;
      |es| == |items| && forall j :: 0 <= j < |items| ==> EntryFor(es[j], items[j], listNo, noLists)
    decreases |items|
  {
    if items != [] {
      var init, last := items[..|items| - 1], items[|items| - 1];
      var es := AssignAll(items, listNo, noLists).value;
      AssignAllEntries(init, listNo, noLists);
      var es0 := AssignAll(init, listNo, noLists).value;
      var e := AssignOne(last, listNo, noLists).value;
      assert es == es0 + [e];
      assert EntryFor(e, last, listNo, noLists);
      forall j | 0 <= j < |items|
        ensures EntryFor(es[j], items[j], listNo, noLists)
      {
        if j < |init| {
          assert es[j] == es0[j] && items[j] == init[j];
          assert EntryFor(es0[j], init[j], listNo, noLists);
        }
      }
    }
  }

  /** Items parsed with `noConds` conditions. */
  predicate AllHaveConds(items: seq<Item>, noConds: int) {
    forall j :: 0 <= j < |items| ==> |items[j].conds| == noConds
  }

  /** With no more lists than conditions every list is returned. */
  lemma ListItemsSucceed(items: seq<Item>, listNo: int, noLists: int, noConds: int)
    requires AllHaveConds(items, noConds) && 1 <= listNo <= noLists <= noConds
    ensures ListItems(items, listNo, noLists).Ok?
  {
    ListItemsOkIff(items, listNo, noLists);
  }

  lemma NatTextHasNoDash(n: int)
    requires n >= 0
    ensures '-' !in IntToString(n)
  {
    assert AllDigits(IntToString(n));
  }

  /** The identifier strings are unambiguous: with nonnegative numbers, two
      keys with the same text are the same key, and an item's `"id-cond"`
      never equals a filler's number. */
  lemma KeyTextInjective(k1: Key, k2: Key)
    requires k1.Compound? ==> k1.id >= 0 && k1.cond >= 0
    requires k2.Compound? ==> k2.id >= 0 && k2.cond >= 0
    requires k1.Number? ==> k1.n >= 0
    requires k2.Number? ==> k2.n >= 0
    requires KeyText(k1) == KeyText(k2)
    ensures k1 == k2
  {
    match k1
    case Number(n1) =>
      NatTextHasNoDash(n1);
      if k2.Number? {
        IntToStringInjective(n1, k2.n);
      }
    case Compound(a1, c1) =>
      if k2.Number? {
        NatTextHasNoDash(k2.n);
      } else {
        CompoundTextInjective(a1, c1, k2.id, k2.cond);
      }
  }

  lemma CompoundTextInjective(a1: int, c1: int, a2: int, c2: int)
    requires a1 >= 0 && a2 >= 0 && c1 >= 0 && c2 >= 0
    requires IntToString(a1) + "-" + IntToString(c1) == IntToString(a2) + "-" + IntToString(c2)
    ensures a1 == a2 && c1 == c2
  {
    var p1, p2 := [IntToString(a1), IntToString(c1)], [IntToString(a2), IntToString(c2)];
    NatTextHasNoDash(a1);
    NatTextHasNoDash(c1);
    NatTextHasNoDash(a2);
    NatTextHasNoDash(c2);
    assert JoinWith(p1, '-') == JoinWith(p2, '-') by {
      assert JoinWith(p1[1..], '-') == IntToString(c1);
      assert JoinWith(p2[1..], '-') == IntToString(c2);
    }
    SplitOfJoin(p1, '-');
    SplitOfJoin(p2, '-');
    assert p1 == p2;
    IntToStringInjective(a1, a2);
    IntToStringInjective(c1, c2);
  }

  /** The Latin square over the lists get_list_items returns: with
      `noLists <= noConds`, every list 1..noLists is returned, and each
      condition 1..noLists of item `j` is keyed in exactly one of them. */
  lemma EachConditionInOneList(items: seq<Item>, noLists: int, noConds: int, j: int, c: int)
    requires AllHaveConds(items, noConds) && 1 <= noLists <= noConds
    requires 0 <= j < |items| && 1 <= c <= noLists
    ensures forall k :: 1 <= k <= noLists ==>
      ListItems(items, k, noLists).Ok? && |ListItems(items, k, noLists).value| == |items|
    ensures (set k | 1 <= k <= noLists && ListItems(items, k, noLists).Ok? && |ListItems(items, k, noLists).value| == |items|
                && ListItems(items, k, noLists).value[j].key == Compound(items[j].id, c))
      == {ListShowing(items[j].id, c, noLists)}
  {
    var id := items[j].id;
    forall k | 1 <= k <= noLists
      ensures ListItems(items, k, noLists).Ok? && |ListItems(items, k, noLists).value| == |items|
      ensures ListItems(items, k, noLists).value[j].key == Compound(id, Cond(id, k, noLists))
    {
      ListItemsSucceed(items, k, noLists, noConds);
      ListItemsEntries(items, k, noLists);
    }
    EachConditionInExactlyOneList(id, c, noLists);
  }
}
