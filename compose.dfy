/** The per-list steps of main: compose the assigned items with the fillers,
    shuffle them, render them in order (write_likert_document) and write the
    order log. */
module Compose {
  import opened Types
  import opened Text
  import opened Assign

  // ---------------------------------------------------------------------------
  // random.shuffle

  method Swap<T>(a: array<T>, i: int, j: int)
    requires 0 <= i < a.Length && 0 <= j < a.Length
    modifies a
    ensures a[..] == old(a[..])[i := old(a[j])][j := old(a[i])]
    ensures multiset(a[..]) == old(multiset(a[..]))
  {
    a[i], a[j] := a[j], a[i];
  }

  /** Python 2's `random.shuffle(x)`: for `i` from `len(x) - 1` down to 1, swap
      `x[i]` with `x[j]` for a random `j` in `0..i`. The random draws are a
      parameter: `draws[i] % (i + 1)` is the `j` chosen at step `i`. */
  method Shuffle<T>(a: array<T>, draws: seq<nat>)
    requires |draws| >= a.Length
    modifies a
    ensures multiset(a[..]) == old(multiset(a[..]))
  {
    var i := a.Length - 1;
    while i >= 1
      invariant -1 <= i < a.Length
      invariant multiset(a[..]) == old(multiset(a[..]))
    {
      var j := draws[i] % (i + 1);
      Swap(a, i, j);
      i := i - 1;
    }
  }

  /** Lines 245-246: the assigned items followed by the fillers, shuffled in
      place. The result holds exactly those entries, each as often as before. */
  method ComposeList(listItems: seq<Entry>, fillers: seq<Entry>, draws: seq<nat>) returns (presented: seq<Entry>)
    requires |draws| >= |listItems| + |fillers|
    ensures |presented| == |listItems| + |fillers|
    ensures multiset(presented) == multiset(listItems + fillers)
  {
    var all := listItems + fillers;
    var a := new Entry[|all|](i requires 0 <= i < |all| => all[i]);
    assert a[..] == all;
    Shuffle(a, draws);
    presented := a[..];
  }

  // ---------------------------------------------------------------------------
  // write_likert_document

  /** The rendered blocks of `entries`, one per entry, in order; `render` stands
      for exify_item followed by the Likert scale markup. */
  function RenderAll(entries: seq<Entry>, render: string -> string): string {
    if entries == [] then [] else render(entries[0].text) + RenderAll(entries[1..], render)
  }

  /** Rendering a list is rendering its parts one after the other. */
  lemma {:induction false} RenderAllAppend(a: seq<Entry>, b: seq<Entry>, render: string -> string)
    ensures RenderAll(a + b, render) == RenderAll(a, render) + RenderAll(b, render)
  {
    if a != [] {
      assert (a + b)[1..] == a[1..] + b;
      RenderAllAppend(a[1..], b, render);
    } else {
      assert a + b == b;
    }
  }

  /** Appending the next entry's markup keeps the built text a prefix of the whole markup. */
  lemma RenderAllStep(entries: seq<Entry>, i: int, render: string -> string, built: string)
    requires 0 <= i < |entries| && built + RenderAll(entries[i..], render) == RenderAll(entries, render)
    ensures (built + render(entries[i].text)) + RenderAll(entries[i + 1..], render) == RenderAll(entries, render)
  {
    var item, rest := render(entries[i].text), RenderAll(entries[i + 1..], render);
    assert entries[i..][1..] == entries[i + 1..];
    assert RenderAll(entries[i..], render) == item + rest;
    assert (built + item) + rest == built + (item + rest);
  }

  /** The identifiers of `entries`, in order. */
  function KeysOf(entries: seq<Entry>): (keys: seq<Key>)
    ensures |keys| == |entries|
    ensures forall i :: 0 <= i < |entries| ==> keys[i] == entries[i].key
  {
    seq(|entries|, i requires 0 <= i < |entries| => entries[i].key)
  }

  /** write_likert_document's loop (lines 146-158, 178): returns the first
      component of every entry, in input order, and the items markup built
      from their texts in that same order. */
  method WriteLikertDocument(entries: seq<Entry>, render: string -> string) returns (order: seq<Key>, itemsList: string)
    ensures |order| == |entries| && forall i :: 0 <= i < |entries| ==> order[i] == entries[i].key
    ensures itemsList == RenderAll(entries, render)
  {
    order := [];
    itemsList := "";
    for i := 0 to |entries|
      invariant |order| == i && forall k :: 0 <= k < i ==> order[k] == entries[k].key
      invariant itemsList + RenderAll(entries[i..], render) == RenderAll(entries, render)
    {
      order := order + [entries[i].key];
      var thisItem := render(entries[i].text);
      RenderAllStep(entries, i, render, itemsList);
      itemsList := itemsList + thisItem;
    }
    assert entries[|entries|..] == [];
  }

  // ---------------------------------------------------------------------------
  // The order log

  /** The order log: `str(item) + "\n"` for every identifier, in order. */
  function OrderLog(order: seq<Key>): string {
    if order == [] then [] else KeyText(order[0]) + "\n" + OrderLog(order[1..])
  }

  /** Appending the next identifier's line keeps the written prefix a prefix of the log. */
  lemma OrderLogStep(order: seq<Key>, i: int, log: string)
    requires 0 <= i < |order| && log + OrderLog(order[i..]) == OrderLog(order)
    ensures (log + (KeyText(order[i]) + "\n")) + OrderLog(order[i + 1..]) == OrderLog(order)
  {
    var line, rest := KeyText(order[i]) + "\n", OrderLog(order[i + 1..]);
    assert order[i..][1..] == order[i + 1..];
    assert OrderLog(order[i..]) == line + rest;
    assert (log + line) + rest == log + (line + rest);
  }

  /** Lines 254-256: the order file's content. */
  method WriteOrderLog(order: seq<Key>) returns (log: string)
    ensures log == OrderLog(order)
  {
    log := "";
    assert order[0..] == order;
    for i := 0 to |order|
      invariant log + OrderLog(order[i..]) == OrderLog(order)
    {
      var line := KeyText(order[i]) + "\n";
      OrderLogStep(order, i, log);
      log := log + line;
    }
    assert order[|order|..] == [];
    assert log + [] == log;
  }

  /** The texts of the identifiers, in order. */
  function KeyTexts(order: seq<Key>): (ts: seq<string>)
    ensures |ts| == |order|
    ensures forall i :: 0 <= i < |order| ==> ts[i] == KeyText(order[i])
  {
    seq(|order|, i requires 0 <= i < |order| => KeyText(order[i]))
  }

  lemma KeyTextOneLine(k: Key)
    ensures '\n' !in KeyText(k)
  {
  }

  lemma {:induction false} OrderLogJoined(order: seq<Key>)
    ensures OrderLog(order) == JoinWith(KeyTexts(order) + [""], '\n')
  {
    if order != [] {
      OrderLogJoined(order[1..]);
      var ts := KeyTexts(order) + [""];
      assert ts[1..] == KeyTexts(order[1..]) + [""];
    }
  }

  /** Reading the order log back line by line gives the identifiers in the
      order they were rendered (the final newline leaves one empty piece). */
  lemma OrderLogReadBack(order: seq<Key>)
    ensures SplitOn(OrderLog(order), '\n') == KeyTexts(order) + [""]
  {
    OrderLogJoined(order);
    forall i | 0 <= i < |order| ensures '\n' !in KeyTexts(order)[i] {
      KeyTextOneLine(order[i]);
    }
    SplitOfJoin(KeyTexts(order) + [""], '\n');
  }

  // ---------------------------------------------------------------------------
  // No identifier is presented twice

  predicate DistinctKeys(entries: seq<Entry>) {
    forall i, j :: 0 <= i < j < |entries| ==> entries[i].key != entries[j].key
  }

  lemma {:induction false} CountOfDistinct(s: seq<Entry>, e: Entry)
    requires DistinctKeys(s)
    ensures multiset(s)[e] <= 1
  {
    if s != [] {
      var init := s[..|s| - 1];
      assert s == init + [s[|s| - 1]];
      assert DistinctKeys(init);
      CountOfDistinct(init, e);
      if e == s[|s| - 1] {
        assert forall k :: 0 <= k < |init| ==> init[k].key != e.key;
        assert e !in init;
      }
    }
  }

  lemma {:induction false} CountOfRepeated(s: seq<Entry>, i: int, j: int)
    requires 0 <= i < j < |s| && s[i] == s[j]
    ensures multiset(s)[s[i]] >= 2
  {
    var e := s[i];
    assert s == s[..j] + [e] + s[j + 1..];
    assert e in s[..j];
    assert multiset(s)[e] == multiset(s[..j])[e] + 1 + multiset(s[j + 1..])[e];
  }

  lemma SameKeySameEntry(s: seq<Entry>, x: Entry, y: Entry)
    requires DistinctKeys(s) && x in s && y in s && x.key == y.key
    ensures x == y
  {
    var a :| 0 <= a < |s| && s[a] == x;
    var b :| 0 <= b < |s| && s[b] == y;
    if a < b {
      assert s[a].key == s[b].key;
    } else if b < a {
      assert s[b].key == s[a].key;
    }
  }

  /** A rearrangement of entries with distinct identifiers has distinct identifiers. */
  lemma PermutationKeepsDistinctKeys(s: seq<Entry>, t: seq<Entry>)
    requires DistinctKeys(s) && multiset(t) == multiset(s)
    ensures DistinctKeys(t)
  {
    forall i, j | 0 <= i < j < |t|
      ensures t[i].key != t[j].key
    {
      if t[i].key == t[j].key {
        assert t[i] in multiset(t) && t[j] in multiset(t);
        SameKeySameEntry(s, t[i], t[j]);
        CountOfRepeated(t, i, j);
        CountOfDistinct(s, t[i]);
      }
    }
  }

  /** The items of a list come before any filler, item identifiers carry the
      item number and fillers carry theirs, so with distinct item numbers and
      distinct filler numbers the composed list names no identifier twice. */
  lemma ComposedKeysDistinct(listItems: seq<Entry>, fillers: seq<Entry>, presented: seq<Entry>)
    requires forall i :: 0 <= i < |listItems| ==> listItems[i].key.Compound?
    requires forall i, j :: 0 <= i < j < |listItems| ==> listItems[i].key.id != listItems[j].key.id
    requires forall i :: 0 <= i < |fillers| ==> fillers[i].key.Number?
    requires DistinctKeys(fillers)
    requires multiset(presented) == multiset(listItems + fillers)
    ensures DistinctKeys(presented)
  {
    var all := listItems + fillers;
    forall i, j | 0 <= i < j < |all|
      ensures all[i].key != all[j].key
    {
      if j < |listItems| {
      } else if i >= |listItems| {
        assert all[i] == fillers[i - |listItems|] && all[j] == fillers[j - |listItems|];
      } else {
        assert all[j] == fillers[j - |listItems|];
      }
    }
    PermutationKeepsDistinctKeys(all, presented);
  }

  // ---------------------------------------------------------------------------
  // One list, lines 242-256

  /** What one iteration of main's list loop produces: the presented sequence,
      the identifiers write_likert_document returns, the items markup and the
      order log text. */
  datatype ListOutput = ListOutput(presented: seq<Entry>, order: seq<Key>, itemsList: string, log: string)

  /** `out` is what list `listNo` presents: its assigned items and the
      fillers in some order, rendered and logged in that order. */
  ghost predicate Presents(items: seq<Item>, fillers: seq<Entry>, listNo: int, noLists: int,
                           render: string -> string, out: ListOutput)
  {
    && ListItems(items, listNo, noLists).Ok?
    && multiset(out.presented) == multiset(ListItems(items, listNo, noLists).value + fillers)
    && out.order == KeysOf(out.presented)
    && out.itemsList == RenderAll(out.presented, render)
    && out.log == OrderLog(out.order)
  }

  /** How one iteration of main's list loop ends: the error of get_list_items,
      else the KeyError of `config['ex_name']` when the experiment name is not
      configured, else success. */
  function ListStatus(items: seq<Item>, listNo: int, noLists: int, exName: Option<string>): Outcome {
    match ListItems(items, listNo, noLists)
    case Err(e) => Fail(e)
    case Ok(_) => if exName.None? then Fail(MissingConfigKey("ex_name")) else Pass
  }

  /** One iteration of main's list loop: the list's items, composed with the
      fillers and shuffled, rendered, and logged. `exName` is the configured
      experiment name, if any; it names the output files only. The rendered
      order and the logged order are the presented order. */
  method GenerateList(items: seq<Item>, fillers: seq<Entry>, listNo: int, noLists: int,
                      exName: Option<string>, draws: seq<nat>, render: string -> string)
    returns (r: Result<ListOutput>)
    requires |draws| >= |items| + |fillers|
    ensures r.Ok? <==> ListStatus(items, listNo, noLists, exName).Pass?
    ensures r.Err? ==> ListStatus(items, listNo, noLists, exName) == Fail(r.error)
    ensures r.Ok? ==> Presents(items, fillers, listNo, noLists, render, r.value)
  {
    var listItems := GetListItems(items, listNo, noLists);
    if listItems.Err? {
      return Err(listItems.error);
    }
    ListItemsEntries(items, listNo, noLists);
    var presented := ComposeList(listItems.value, fillers, draws);
    if exName.None? {
      return Err(MissingConfigKey("ex_name"));
    }
    var order, itemsList := WriteLikertDocument(presented, render);
    var log := WriteOrderLog(order);
    r := Ok(ListOutput(presented, order, itemsList, log));
  }

  /** For items numbered 1..k as parse_stimuli numbers them and fillers
      numbered 1..n as parse_fillers numbers them, a generated list presents
      every item and filler, names no identifier twice, and its order log
      reads back as the identifiers in the order they were rendered. */
  lemma PresentedList(items: seq<Item>, fillers: seq<Entry>, listNo: int, noLists: int,
                      render: string -> string, out: ListOutput)
    requires Presents(items, fillers, listNo, noLists, render, out)
    requires forall j :: 0 <= j < |items| ==> items[j].id == j + 1
    requires forall i :: 0 <= i < |fillers| ==> fillers[i].key == Number(i + 1)
    ensures |out.presented| == |items| + |fillers|
    ensures DistinctKeys(out.presented)
    ensures |out.order| == |out.presented| && forall i :: 0 <= i < |out.order| ==> out.order[i] == out.presented[i].key
    ensures SplitOn(out.log, '\n') == KeyTexts(out.order) + [""]
  {
    var listItems := ListItems(items, listNo, noLists).value;
    ListItemsEntries(items, listNo, noLists);
    assert |multiset(out.presented)| == |multiset(listItems + fillers)|;
    ComposedKeysDistinct(listItems, fillers, out.presented);
    OrderLogReadBack(out.order);
  }

  // ---------------------------------------------------------------------------
  // All lists, lines 233-256

  /** `outputs[k]` is what list `k + 1` presents, for every k. */
  ghost predicate AllPresent(items: seq<Item>, fillers: seq<Entry>, noLists: int,
                             render: string -> string, outputs: seq<ListOutput>)
    decreases |outputs|
  {
    outputs == [] ||
    (AllPresent(items, fillers, noLists, render, outputs[..|outputs| - 1])
     && Presents(items, fillers, |outputs|, noLists, render, outputs[|outputs| - 1]))
  }

  lemma {:induction false} AllPresentEach(items: seq<Item>, fillers: seq<Entry>, noLists: int,
                                          render: string -> string, outputs: seq<ListOutput>, k: int)
    requires AllPresent(items, fillers, noLists, render, outputs) && 0 <= k < |outputs|
    ensures Presents(items, fillers, k + 1, noLists, render, outputs[k])
    decreases |outputs|
  {
    if k < |outputs| - 1 {
      var init := outputs[..|outputs| - 1];
      AllPresentEach(items, fillers, noLists, render, init, k);
      assert init[k] == outputs[k];
    }
  }

  /** Lists that were all produced passed, provided the experiment name is set. */
  lemma ProducedListsPassed(items: seq<Item>, fillers: seq<Entry>, noLists: int, exName: Option<string>,
                            render: string -> string, outputs: seq<ListOutput>)
    requires AllPresent(items, fillers, noLists, render, outputs)
    requires outputs != [] ==> exName.Some?
    ensures forall listNo :: 1 <= listNo <= |outputs| ==> ListStatus(items, listNo, noLists, exName).Pass?
  {
    forall listNo | 1 <= listNo <= |outputs|
      ensures ListStatus(items, listNo, noLists, exName).Pass?
    {
      AllPresentEach(items, fillers, noLists, render, outputs, listNo - 1);
    }
  }

  /** main's list loop: list numbers 1..`noLists` in turn, each holding that
      list's items composed with the fillers. The loop stops at the first list
      that fails; the lists before it have been produced and are returned. */
  method GenerateLists(items: seq<Item>, fillers: seq<Entry>, noLists: int, exName: Option<string>,
                       draws: seq<seq<nat>>, render: string -> string)
    returns (outputs: seq<ListOutput>, status: Outcome)
    requires |draws| >= noLists
    requires forall k :: 0 <= k < |draws| ==> |draws[k]| >= |items| + |fillers|
    ensures AllPresent(items, fillers, noLists, render, outputs)
    ensures forall listNo :: 1 <= listNo <= |outputs| ==> ListStatus(items, listNo, noLists, exName).Pass?
    ensures status.Pass? <==> forall listNo :: 1 <= listNo <= noLists ==> ListStatus(items, listNo, noLists, exName).Pass?
    ensures status.Pass? ==> |outputs| == (if noLists > 0 then noLists else 0)
    ensures status.Fail? ==> |outputs| < noLists && ListStatus(items, |outputs| + 1, noLists, exName) == status
  {
    var lists := if noLists > 0 then noLists else 0;
    outputs := [];
    for currList := 1 to lists + 1
      invariant |outputs| == currList - 1
      invariant AllPresent(items, fillers, noLists, render, outputs)
      invariant outputs != [] ==> exName.Some?
    {
      var out := GenerateList(items, fillers, currList, noLists, exName, draws[currList - 1], render);
      if out.Err? {
        status := Fail(out.error);
        ProducedListsPassed(items, fillers, noLists, exName, render, outputs);
        return;
      }
      assert (outputs + [out.value])[..|outputs|] == outputs;
      outputs := outputs + [out.value];
    }
    status := Pass;
    ProducedListsPassed(items, fillers, noLists, exName, render, outputs);
  }
}
