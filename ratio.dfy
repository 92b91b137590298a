/** check_ratio: the filler:item ratio gate that runs before any list is built. */
module Ratio {
  import opened Types
  import opened Text
  import opened Arith

  /** check_ratio(ratio, fillers_count, items_count). Python 2 evaluates
      `fillers_count / items_count` first, then `int(f_ratio[0])`, the index
      `f_ratio[1]`, `int(f_ratio[1])` and the second division; the first of
      these to raise stops the run, as does a difference of the quotients. */
  function CheckRatio(ratio: string, fillersCount: int, itemsCount: int): Outcome {
    var parts := SplitOn(ratio, ':');
    if itemsCount == 0 then Fail(DivisionByZero)
    else
      match ParseInt(parts[0])
      case None => Fail(MalformedRatio)
      case Some(f) =>
        if |parts| < 2 then Fail(MalformedRatio)
        else
          match ParseInt(parts[1])
          case None => Fail(MalformedRatio)
          case Some(i) =>
            if i == 0 then Fail(DivisionByZero)
            else if FloorDiv(fillersCount, itemsCount) == FloorDiv(f, i) then Pass
            else Fail(RatioMismatch)
  }

  /** The ratio string `"f:i"` as config.txt spells it. */
  function RatioText(f: int, i: int): string {
    IntToString(f) + ":" + IntToString(i)
  }

  /** For a ratio written `"f:i"`, the gate passes exactly when both divisors
      are nonzero and the floor quotients of the counts and of the ratio agree;
      otherwise the run stops with the matching error. */
  lemma CheckRatioSpec(f: int, i: int, fillersCount: int, itemsCount: int)
    ensures CheckRatio(RatioText(f, i), fillersCount, itemsCount) ==
      if itemsCount == 0 || i == 0 then Fail(DivisionByZero)
      else if FloorDiv(fillersCount, itemsCount) == FloorDiv(f, i) then Pass
      else Fail(RatioMismatch)
  {
    var parts := [IntToString(f), IntToString(i)];
    assert RatioText(f, i) == JoinWith(parts, ':') by {
      assert JoinWith(parts[1..], ':') == IntToString(i);
    }
    assert ':' !in IntToString(f) && ':' !in IntToString(i);
    SplitOfJoin(parts, ':');
    ParseIntOfString(f);
    ParseIntOfString(i);
  }

  /** 10 fillers and 3 items do not fit the ratio 1:1 (quotient 3 against 1). */
  lemma RatioExampleMismatch()
    ensures CheckRatio("1:1", 10, 3) == Fail(RatioMismatch)
  {
    assert RatioText(1, 1) == "1:1";
    CheckRatioSpec(1, 1, 10, 3);
  }

  /** 9 fillers and 3 items fit the ratio 3:1 (quotient 3 against 3). */
  lemma RatioExamplePass()
    ensures CheckRatio("3:1", 9, 3) == Pass
  {
    assert RatioText(3, 1) == "3:1";
    CheckRatioSpec(3, 1, 9, 3);
  }

  /** A ratio string without a colon never passes. */
  lemma RatioNeedsColon(ratio: string, fillersCount: int, itemsCount: int)
    requires ':' !in ratio
    ensures CheckRatio(ratio, fillersCount, itemsCount).Fail?
  {
    assert SplitOn(ratio, ':') == [ratio];
  }
}
