/** The three input parsers of likertator.py, over the lines of their files:
    parse_config, parse_stimuli and parse_fillers. */
module Parsers {
  import opened Types
  import opened Text
  import Arith

  // ---------------------------------------------------------------------------
  // parse_config

  /** `l.strip().split()`: the fields of one configuration line. */
  function Fields(line: string): seq<string> {
    Words(Strip(line))
  }

  /** Every line has at least the two fields parse_config reads. */
  predicate WellFormedConfig(lines: seq<string>) {
    forall j :: 0 <= j < |lines| ==> |Fields(lines[j])| >= 2
  }

  /** The configuration a sequence of lines denotes: each line binds its first
      field to its second, a later binding replacing an earlier one; the first
      line with fewer than two fields stops the run. */
  function ConfigOf(lines: seq<string>): Result<map<string, string>>
    decreases |lines|
  {
    if lines == [] then Ok(map[])
    else
      match ConfigOf(lines[..|lines| - 1])
      case Err(e) => Err(e)
      case Ok(m) =>
        var f := Fields(lines[|lines| - 1]);
        if |f| < 2 then Err(MalformedConfigLine(|lines| - 1)) else Ok(m[f[0] := f[1]])
  }

  lemma {:induction false} ConfigErrorPersists(lines: seq<string>, j: nat)
    requires j <= |lines| && ConfigOf(lines[..j]).Err?
    ensures ConfigOf(lines) == ConfigOf(lines[..j])
    decreases |lines| - j
  {
    if j < |lines| {
      assert lines[..j + 1][..j] == lines[..j];
      ConfigErrorPersists(lines, j + 1);
    } else {
      assert lines[..j] == lines;
    }
  }

  /** parse_config over the lines of config.txt. */
  method ParseConfig(lines: seq<string>) returns (r: Result<map<string, string>>)
    ensures r == ConfigOf(lines)
  {
    var config: map<string, string> := map[];
    var i := 0;
    while i < |lines|
      invariant 0 <= i <= |lines|
      invariant ConfigOf(lines[..i]) == Ok(config)
    {
      var line := Words(Strip(lines[i]));
      assert lines[..i + 1][..i] == lines[..i];
      if |line| < 2 {
        r := Err(MalformedConfigLine(i));
        ConfigErrorPersists(lines, i + 1);
        return;
      }
      config := config[line[0] := line[1]];
      i := i + 1;
    }
    assert lines[..i] == lines;
    r := Ok(config);
  }

  /** The run goes on exactly when every line has two fields. */
  lemma {:induction false} ConfigOkIff(lines: seq<string>)
    ensures ConfigOf(lines).Ok? <==> WellFormedConfig(lines)
  {
    if lines != [] {
      var init := lines[..|lines| - 1];
      ConfigOkIff(init);
      assert forall i :: 0 <= i < |init| ==> init[i] == lines[i];
    }
  }

  /** Otherwise the run stops at the first line with fewer than two fields. */
  lemma ConfigStopsAtFirstBadLine(lines: seq<string>, i: int)
    requires 0 <= i < |lines| && |Fields(lines[i])| < 2
    requires forall j :: 0 <= j < i ==> |Fields(lines[j])| >= 2
    ensures ConfigOf(lines) == Err(MalformedConfigLine(i))
  {
    ConfigOkIff(lines[..i]);
    assert lines[..i + 1][..i] == lines[..i];
    ConfigErrorPersists(lines, i + 1);
  }

  /** No line after line `i` binds the key of line `i`. */
  predicate LastBinding(lines: seq<string>, i: int)
    requires 0 <= i < |lines| && WellFormedConfig(lines)
  {
    forall j :: i < j < |lines| ==> Fields(lines[j])[0] != Fields(lines[i])[0]
  }

  /** The keys of the configuration are the first fields of its lines. */
  lemma {:induction false} ConfigKeys(lines: seq<string>)
    requires WellFormedConfig(lines)
    ensures ConfigOf(lines).Ok?
    ensures forall key :: key in ConfigOf(lines).value <==>
      exists i :: 0 <= i < |lines| && Fields(lines[i])[0] == key
  {
    ConfigOkIff(lines);
    if lines != [] {
      var n := |lines| - 1;
      var init := lines[..n];
      assert forall i :: 0 <= i < n ==> init[i] == lines[i];
      ConfigKeys(init);
      var m := ConfigOf(init).value;
      assert ConfigOf(lines).value == m[Fields(lines[n])[0] := Fields(lines[n])[1]];
      forall key | key in m
        ensures exists i :: 0 <= i < |lines| && Fields(lines[i])[0] == key
      {
        var i :| 0 <= i < n && Fields(init[i])[0] == key;
        assert Fields(lines[i])[0] == key;
      }
    }
  }

  /** Each key holds the second field of the last line that binds it: a later
      line with the same key wins. */
  lemma {:induction false} ConfigLastBindingWins(lines: seq<string>, i: int)
    requires WellFormedConfig(lines) && 0 <= i < |lines| && LastBinding(lines, i)
    ensures ConfigOf(lines).Ok?
    ensures Fields(lines[i])[0] in ConfigOf(lines).value
    ensures ConfigOf(lines).value[Fields(lines[i])[0]] == Fields(lines[i])[1]
  {
    ConfigOkIff(lines);
    var n := |lines| - 1;
    var init := lines[..n];
    assert forall j :: 0 <= j < n ==> init[j] == lines[j];
    assert ConfigOf(lines).value == ConfigOf(init).value[Fields(lines[n])[0] := Fields(lines[n])[1]];
    if i < n {
      assert LastBinding(init, i);
      ConfigLastBindingWins(init, i);
    }
  }

  // ---------------------------------------------------------------------------
  // parse_fillers

  /** parse_fillers over the lines of the fillers file: the count, and the
      fillers numbered 1..count in file order with their stripped text. */
  method ParseFillers(lines: seq<string>) returns (count: int, fillers: seq<Entry>)
    ensures count == |lines| && |fillers| == |lines|
    ensures forall i :: 0 <= i < |lines| ==> fillers[i] == Entry(Number(i + 1), Strip(lines[i]))
  {
    fillers := [];
    var fillCount := 1;
    for i := 0 to |lines|
      invariant fillCount == i + 1 && |fillers| == i
      invariant forall j :: 0 <= j < i ==> fillers[j] == Entry(Number(j + 1), Strip(lines[j]))
    {
      fillers := fillers + [Entry(Number(fillCount), Strip(lines[i]))];
      fillCount := fillCount + 1;
    }
    count := fillCount - 1;
  }

  // ---------------------------------------------------------------------------
  // parse_stimuli

  /** The conditions of one block: condition `c` is its `c`-th line, stripped
      (the dictionary `this_item`, whose keys are always `1..len(this_item)`). */
  function BlockConds(block: seq<string>): (m: seq<string>)
    ensures |m| == |block|
  {
    seq(|block|, i requires 0 <= i < |block| => Strip(block[i]))
  }

  /** Items numbered from `id`: a block of `n` lines, then, if anything is
      left, one separator line that is skipped, and the items of the rest.
      A last block shorter than `n` lines stops the run. */
  function Group(lines: seq<string>, n: int, id: int): Result<seq<Item>>
    requires n >= 1
    decreases |lines|
  {
    if |lines| < n then Err(ConditionCountMismatch)
    else
      var item := Item(id, BlockConds(lines[..n]));
      if |lines| == n then Ok([item])
      else
        match Group(lines[n + 1..], n, id + 1)
        case Err(e) => Err(e)
        case Ok(rest) => Ok([item] + rest)
  }

  /** The stimuli file read with `n` conditions: the item count and the items. */
  function StimuliOf(lines: seq<string>, n: int): Result<(int, seq<Item>)> {
    if n <= 1 then Err(TooFewConditions)
    else
      match Group(lines, n, 1)
      case Err(e) => Err(e)
      case Ok(items) => Ok((|items|, items))
  }

  /** The run goes on exactly when there are at least two conditions and the
      file is whole blocks of `n` lines with one separator line between
      consecutive blocks, that is `|lines| + 1` is a multiple of `n + 1`. */
  lemma StimuliOkIff(lines: seq<string>, n: int)
    ensures StimuliOf(lines, n).Ok? <==> n >= 2 && (|lines| + 1) % (n + 1) == 0
  {
    if n >= 2 {
      GroupOkIff(lines, n, 1);
    }
  }

  lemma {:induction false} GroupOkIff(lines: seq<string>, n: int, id: int)
    requires n >= 1
    ensures Group(lines, n, id).Ok? <==> (|lines| + 1) % (n + 1) == 0
    decreases |lines|
  {
    if |lines| < n {
      Arith.ModUnique(|lines| + 1, 0, |lines| + 1, n + 1);
    } else if |lines| == n {
      Arith.ModUnique(|lines| + 1, 1, 0, n + 1);
    } else {
      GroupOkIff(lines[n + 1..], n, id + 1);
      Arith.ModShift(|lines| - n, n + 1);
    }
  }

  /** Every item of a successful parse has the next number and exactly `n` conditions. */
  lemma {:induction false} GroupShape(lines: seq<string>, n: int, id: int)
    requires n >= 1 && Group(lines, n, id).Ok?
    ensures var items := Group(lines, n, id).value;
      |items| >= 1 && forall j :: 0 <= j < |items| ==> items[j].id == id + j && |items[j].conds| == n
    decreases |lines|
  {
    if |lines| > n {
      GroupShape(lines[n + 1..], n, id + 1);
    }
  }

  /** A successful parse returns its item count and items numbered 1..count,
      each with exactly `noConds` conditions. */
  lemma StimuliShape(lines: seq<string>, noConds: int)
    requires StimuliOf(lines, noConds).Ok?
    ensures var (count, items) := StimuliOf(lines, noConds).value;
      count == |items| >= 1 && forall j :: 0 <= j < count ==> items[j].id == j + 1 && |items[j].conds| == noConds
  {
    GroupShape(lines, noConds, 1);
  }

  /** Blocks laid out one after another with one separator line between them. */
  function Layout(blocks: seq<seq<string>>, seps: seq<string>): seq<string>
    requires |blocks| >= 1 && |seps| == |blocks| - 1
  {
    if |blocks| == 1 then blocks[0] else blocks[0] + [seps[0]] + Layout(blocks[1..], seps[1..])
  }

  lemma {:induction false} GroupOfLayout(blocks: seq<seq<string>>, seps: seq<string>, n: int, id: int)
    requires n >= 1 && |blocks| >= 1 && |seps| == |blocks| - 1
    requires forall j :: 0 <= j < |blocks| ==> |blocks[j]| == n
    ensures Group(Layout(blocks, seps), n, id)
      == Ok(seq(|blocks|, j requires 0 <= j < |blocks| => Item(id + j, BlockConds(blocks[j]))))
  {
    var lines := Layout(blocks, seps);
    if |blocks| == 1 {
      assert lines[..n] == blocks[0];
      assert [Item(id, BlockConds(blocks[0]))]
        == seq(|blocks|, j requires 0 <= j < |blocks| => Item(id + j, BlockConds(blocks[j])));
    } else {
      var rest := Layout(blocks[1..], seps[1..]);
      assert lines == blocks[0] + [seps[0]] + rest;
      assert lines[..n] == blocks[0];
      assert lines[n + 1..] == rest;
      GroupOfLayout(blocks[1..], seps[1..], n, id + 1);
      var tail := seq(|blocks| - 1, j requires 0 <= j < |blocks| - 1 => Item(id + 1 + j, BlockConds(blocks[1..][j])));
      var whole := seq(|blocks|, j requires 0 <= j < |blocks| => Item(id + j, BlockConds(blocks[j])));
      assert [Item(id, BlockConds(blocks[0]))] + tail == whole;
    }
  }

  /** Reading `k` blocks of `n` lines separated by single lines, whatever those
      separator lines hold, gives the count `k` and items numbered 1..k whose
      condition `c` is the `c`-th line of their block, stripped. */
  lemma StimuliOfLayout(blocks: seq<seq<string>>, seps: seq<string>, n: int)
    requires n >= 2 && |blocks| >= 1 && |seps| == |blocks| - 1
    requires forall j :: 0 <= j < |blocks| ==> |blocks[j]| == n
    ensures StimuliOf(Layout(blocks, seps), n)
      == Ok((|blocks|, seq(|blocks|, j requires 0 <= j < |blocks| => Item(j + 1, BlockConds(blocks[j])))))
  {
    GroupOfLayout(blocks, seps, n, 1);
    assert seq(|blocks|, j requires 0 <= j < |blocks| => Item(1 + j, BlockConds(blocks[j])))
        == seq(|blocks|, j requires 0 <= j < |blocks| => Item(j + 1, BlockConds(blocks[j])));
  }

  function Prefixed(items: seq<Item>, r: Result<seq<Item>>): Result<seq<Item>> {
    match r
    case Err(e) => Err(e)
    case Ok(rest) => Ok(items + rest)
  }

  lemma PrefixedAppend(items: seq<Item>, item: Item, r: Result<seq<Item>>)
    ensures Prefixed(items, Prefixed([item], r)) == Prefixed(items + [item], r)
  {
    if r.Ok? {
      assert items + ([item] + r.value) == (items + [item]) + r.value;
    }
  }

  /** One full block and a separator: the block is the next item. */
  lemma GroupStep(lines: seq<string>, n: int, id: int)
    requires n >= 1 && |lines| > n
    ensures Group(lines, n, id) == Prefixed([Item(id, BlockConds(lines[..n]))], Group(lines[n + 1..], n, id + 1))
  {
  }

  /** parse_stimuli over the lines of the stimuli file: the state machine of
      `item_ctr`, `item_count` and `this_item`. */
  method ParseStimuli(lines: seq<string>, noConds: int) returns (r: Result<(int, seq<Item>)>)
    ensures r == StimuliOf(lines, noConds)
  {
    if noConds <= 1 {
      return Err(TooFewConditions);
    }
    var itemCtr := 1;
    var itemCount := 1;
    var items: seq<Item> := [];
    var thisItem: seq<string> := [];
    ghost var start := 0;
    assert lines[start..] == lines;
    assert Prefixed(items, Group(lines, noConds, 1)) == Group(lines, noConds, 1) by {
      var g := Group(lines, noConds, 1);
      if g.Ok? { assert items + g.value == g.value; }
    }
    for p := 0 to |lines|
      invariant 1 <= itemCtr <= noConds + 1 && start + itemCtr - 1 == p
      invariant itemCount == |items| + 1
      invariant thisItem == BlockConds(lines[start..p]) && |thisItem| == itemCtr - 1
      invariant Group(lines, noConds, 1) == Prefixed(items, Group(lines[start..], noConds, itemCount))
    {
      if itemCtr > noConds {
        // The guard of line 60 can never fire: `this_item` holds exactly `no_conds` entries here.
        assert |thisItem| == noConds;
        GroupStep(lines[start..], noConds, itemCount);
        assert lines[start..][..noConds] == lines[start..p];
        assert lines[start..][noConds + 1..] == lines[p + 1..];
        PrefixedAppend(items, Item(itemCount, thisItem), Group(lines[p + 1..], noConds, itemCount + 1));
        items := items + [Item(itemCount, thisItem)];
        thisItem := [];
        itemCtr := 1;
        itemCount := itemCount + 1;
        start := p + 1;
      } else {
        assert lines[start..p] + [lines[p]] == lines[start..p + 1];
        thisItem := thisItem + [Strip(lines[p])];
        itemCtr := itemCtr + 1;
      }
    }
    assert lines[start..|lines|] == lines[start..];
    if |thisItem| != noConds {
      return Err(ConditionCountMismatch);
    }
    assert lines[start..][..noConds] == lines[start..];
    assert Group(lines[start..], noConds, itemCount) == Ok([Item(itemCount, thisItem)]);
    items := items + [Item(itemCount, thisItem)];
    itemCount := itemCount + 1;
    r := Ok((itemCount - 1, items));
  }
}
