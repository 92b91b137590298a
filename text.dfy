/** The Python 2 string operations the program applies to its input lines:
    `str.strip()`, `str.split()`, `str.split(sep)`, `str(int)` and `int(str)`. */
module Text {
  import opened Types

  /** The characters `str.isspace()` accepts in a Python 2 byte string. */
  predicate IsSpace(c: char) {
    c == ' ' || c == '\t' || c == '\n' || c == '\r' || c == '\U{000B}' || c == '\U{000C}'
  }

  predicate IsDigit(c: char) {
    '0' <= c <= '9'
  }

  predicate AllDigits(s: string) {
    forall i :: 0 <= i < |s| ==> IsDigit(s[i])
  }

  // ---------------------------------------------------------------------------
  // str.strip()

  function TrimLeft(s: string): string {
    if s != [] && IsSpace(s[0]) then TrimLeft(s[1..]) else s
  }

  function TrimRight(s: string): string {
    if s != [] && IsSpace(s[|s| - 1]) then TrimRight(s[..|s| - 1]) else s
  }

  /** `lstrip()` drops a whitespace prefix and stops at the first other character. */
  lemma {:induction false} TrimLeftSpec(s: string)
    ensures var r := TrimLeft(s);
      && |r| <= |s| && r == s[|s| - |r|..]
      && (forall i :: 0 <= i < |s| - |r| ==> IsSpace(s[i]))
      && (r == [] || !IsSpace(r[0]))
  {
    if s != [] && IsSpace(s[0]) {
      var t := s[1..];
      TrimLeftSpec(t);
      var r := TrimLeft(t);
      assert TrimLeft(s) == r;
      assert t[|t| - |r|..] == s[|s| - |r|..];
      forall i | 0 <= i < |s| - |r|
        ensures IsSpace(s[i])
      {
        if i > 0 {
          assert s[i] == t[i - 1];
        }
      }
    }
  }

  /** `rstrip()` drops a whitespace suffix and stops at the last other character. */
  lemma {:induction false} TrimRightSpec(s: string)
    ensures var r := TrimRight(s);
      && |r| <= |s| && r == s[..|r|]
      && (forall i :: |r| <= i < |s| ==> IsSpace(s[i]))
      && (r == [] || !IsSpace(r[|r| - 1]))
  {
    if s != [] && IsSpace(s[|s| - 1]) {
      TrimRightSpec(s[..|s| - 1]);
    }
  }

  /** Number of whitespace characters `strip()` removes at the front of `s`. */
  function StripStart(s: string): (n: nat)
    ensures n <= |s|
  {
    TrimLeftSpec(s);
    |s| - |TrimLeft(s)|
  }

  /** `s.strip()`: `s` with its leading and trailing whitespace removed. */
  function Strip(s: string): string {
    TrimRight(TrimLeft(s))
  }

  /** What `strip()` returns: the slice of `s` that starts at `StripStart(s)`,
      with only whitespace around it, and neither starting nor ending with
      whitespace. */
  lemma StripSpec(s: string)
    ensures var r := Strip(s);
      && StripStart(s) + |r| <= |s| && r == s[StripStart(s)..StripStart(s) + |r|]
      && (forall k :: 0 <= k < StripStart(s) ==> IsSpace(s[k]))
      && (forall k :: StripStart(s) + |r| <= k < |s| ==> IsSpace(s[k]))
      && (r == [] || (!IsSpace(r[0]) && !IsSpace(r[|r| - 1])))
  {
    var t := TrimLeft(s);
    var r := TrimRight(t);
    TrimLeftSpec(s);
    TrimRightSpec(t);
    var n := |s| - |t|;
    assert StripStart(s) == n;
    assert t == s[n..];
    assert r == s[n..n + |r|] by { assert r == t[..|r|]; }
    forall k | n + |r| <= k < |s|
      ensures IsSpace(s[k])
    {
      assert s[k] == t[k - n];
    }
  }

  /** A string without surrounding whitespace is left alone by `strip()`. */
  lemma StripKeeps(s: string)
    requires s == [] || (!IsSpace(s[0]) && !IsSpace(s[|s| - 1]))
    ensures Strip(s) == s
  {
  }

  // ---------------------------------------------------------------------------
  // str.split() with no argument: maximal runs of non-whitespace

  predicate IsWord(w: string) {
    w != [] && forall i :: 0 <= i < |w| ==> !IsSpace(w[i])
  }

  /** Length of the run of non-whitespace that starts `s`. */
  function WordLength(s: string): (n: nat)
    ensures n <= |s|
    ensures forall i :: 0 <= i < n ==> !IsSpace(s[i])
    ensures n == |s| || IsSpace(s[n])
  {
    if s == [] || IsSpace(s[0]) then 0 else 1 + WordLength(s[1..])
  }

  /** `s.split()`: the whitespace-separated fields of `s`, in order. */
  function Words(s: string): (ws: seq<string>)
    ensures forall j :: 0 <= j < |ws| ==> IsWord(ws[j])
    decreases |s|
  {
    if s == [] then []
    else if IsSpace(s[0]) then Words(s[1..])
    else
      var n := WordLength(s);
      [s[..n]] + Words(s[n..])
  }

  /** Fields written out, each followed by one blank. */
  function Unwords(ws: seq<string>): string {
    if ws == [] then [] else ws[0] + " " + Unwords(ws[1..])
  }

  lemma {:induction false} WordLengthOfWord(w: string, t: string)
    requires IsWord(w) && (t == [] || IsSpace(t[0]))
    ensures WordLength(w + t) == |w|
  {
    if |w| > 1 {
      assert (w + t)[1..] == w[1..] + t;
      WordLengthOfWord(w[1..], t);
    } else {
      assert (w + t)[1..] == t;
    }
  }

  /** `split()` recovers the fields of a line written as blank-separated fields. */
  lemma {:induction false} WordsOfUnwords(ws: seq<string>)
    requires forall j :: 0 <= j < |ws| ==> IsWord(ws[j])
    ensures Words(Unwords(ws)) == ws
  {
    if ws != [] {
      var w, rest := ws[0], Unwords(ws[1..]);
      var s := w + " " + rest;
      assert s == w + (" " + rest);
      WordLengthOfWord(w, " " + rest);
      assert s[..|w|] == w;
      assert s[|w|..] == " " + rest;
      assert (" " + rest)[1..] == rest;
      WordsOfUnwords(ws[1..]);
    }
  }

  /** `split()` recovers the fields of a line whose fields are separated by
      single blanks. */
  lemma {:induction false} WordsOfJoin(ws: seq<string>)
    requires |ws| >= 1 && forall j :: 0 <= j < |ws| ==> IsWord(ws[j])
    ensures Words(JoinWith(ws, ' ')) == ws
  {
    var w := ws[0];
    if |ws| == 1 {
      WordLengthOfWord(w, []);
      assert w + [] == w;
      assert w[..|w|] == w && w[|w|..] == [];
    } else {
      var rest := JoinWith(ws[1..], ' ');
      var s := w + [' '] + rest;
      assert s == w + ([' '] + rest);
      WordLengthOfWord(w, [' '] + rest);
      assert s[..|w|] == w;
      assert s[|w|..] == [' '] + rest;
      assert ([' '] + rest)[1..] == rest;
      WordsOfJoin(ws[1..]);
    }
  }

  lemma {:induction false} JoinWithEnds(ws: seq<string>, c: char)
    requires |ws| >= 1 && forall j :: 0 <= j < |ws| ==> ws[j] != []
    ensures var s := JoinWith(ws, c);
      s != [] && s[0] == ws[0][0] && s[|s| - 1] == ws[|ws| - 1][|ws[|ws| - 1]| - 1]
  {
    if |ws| > 1 {
      JoinWithEnds(ws[1..], c);
    }
  }

  /** A configuration line written as fields separated by single blanks,
      with or without its line break, splits back into those fields. */
  lemma FieldsOfLine(ws: seq<string>)
    requires |ws| >= 1 && forall j :: 0 <= j < |ws| ==> IsWord(ws[j])
    ensures Words(Strip(JoinWith(ws, ' '))) == ws
    ensures Words(Strip(JoinWith(ws, ' ') + "\n")) == ws
  {
    var x := JoinWith(ws, ' ');
    JoinWithEnds(ws, ' ');
    assert !IsSpace(x[0]) && !IsSpace(x[|x| - 1]);
    StripKeeps(x);
    WordsOfJoin(ws);
    var y := x + "\n";
    assert TrimLeft(y) == y;
    assert y[..|y| - 1] == x;
    assert TrimRight(y) == TrimRight(x) == x;
  }

  // ---------------------------------------------------------------------------
  // str.split(sep) with an explicit one-character separator

  function FirstIndex(s: string, c: char): (i: nat)
    requires c in s
    ensures i < |s| && s[i] == c && c !in s[..i]
  {
    if s[0] == c then 0 else 1 + FirstIndex(s[1..], c)
  }

  /** `sep.join(ps)`. */
  function JoinWith(ps: seq<string>, c: char): string
    requires |ps| >= 1
  {
    if |ps| == 1 then ps[0] else ps[0] + [c] + JoinWith(ps[1..], c)
  }

  /** `s.split(c)`: at least one piece, no piece contains `c`, and joining
      the pieces with `c` gives `s` back. */
  function SplitOn(s: string, c: char): (ps: seq<string>)
    ensures |ps| >= 1
    ensures forall j :: 0 <= j < |ps| ==> c !in ps[j]
    ensures JoinWith(ps, c) == s
    decreases |s|
  {
    if c in s then
      var i := FirstIndex(s, c);
      var ps := [s[..i]] + SplitOn(s[i + 1..], c);
      assert ps[1..] == SplitOn(s[i + 1..], c);
      assert s == s[..i] + [c] + s[i + 1..];
      ps
    else [s]
  }

  /** Splitting pieces joined by a separator that none of them contains gives the pieces. */
  lemma {:induction false} SplitOfJoin(ps: seq<string>, c: char)
    requires |ps| >= 1
    requires forall j :: 0 <= j < |ps| ==> c !in ps[j]
    ensures SplitOn(JoinWith(ps, c), c) == ps
  {
    if |ps| > 1 {
      var s := JoinWith(ps, c);
      var rest := JoinWith(ps[1..], c);
      assert s == ps[0] + [c] + rest;
      assert s[|ps[0]|] == c;
      assert s[..|ps[0]|] == ps[0];
      var i := FirstIndex(s, c);
      assert i == |ps[0]|;
      assert s[i + 1..] == rest;
      SplitOfJoin(ps[1..], c);
    }
  }

  // ---------------------------------------------------------------------------
  // str(int) and int(str), base 10

  function DigitChar(d: int): (c: char)
    requires 0 <= d < 10
    ensures IsDigit(c)
  {
    ('0' as int + d) as char
  }

  function DigitValue(c: char): (d: nat)
    requires IsDigit(c)
    ensures d < 10 && DigitChar(d) == c
  {
    c as int - '0' as int
  }

  /** The decimal digits of `n`, most significant first, no leading zero. */
  function NatToString(n: nat): (s: string)
    ensures s != [] && AllDigits(s)
  {
    if n < 10 then [DigitChar(n)] else NatToString(n / 10) + [DigitChar(n % 10)]
  }

  /** The number a string of decimal digits denotes. */
  function DigitsValue(s: string): nat
    requires AllDigits(s)
  {
    if s == [] then 0 else DigitsValue(s[..|s| - 1]) * 10 + DigitValue(s[|s| - 1])
  }

  /** Reading back the digits of `n` gives `n`. */
  lemma {:induction false} DigitsValueOfNat(n: nat)
    ensures DigitsValue(NatToString(n)) == n
  {
    if n >= 10 {
      var s := NatToString(n);
      assert s[..|s| - 1] == NatToString(n / 10);
      DigitsValueOfNat(n / 10);
    }
  }

  lemma NatToStringInjective(a: nat, b: nat)
    requires NatToString(a) == NatToString(b)
    ensures a == b
  {
    DigitsValueOfNat(a);
    DigitsValueOfNat(b);
  }

  /** Python `str(i)` for an integer. */
  function IntToString(i: int): (s: string)
    ensures s != [] && '\n' !in s && !IsSpace(s[0]) && !IsSpace(s[|s| - 1])
    ensures i >= 0 <==> AllDigits(s)
  {
    if i < 0 then "-" + NatToString(-i) else NatToString(i)
  }

  /** An optional sign followed by at least one decimal digit. */
  function ParseSigned(t: string): (r: Option<int>)
  {
    if t != [] && (t[0] == '-' || t[0] == '+') then
      var ds := t[1..];
      if ds != [] && AllDigits(ds) then
        var v: int := DigitsValue(ds);
        Some(if t[0] == '-' then -v else v)
      else None
    else if t != [] && AllDigits(t) then Some(DigitsValue(t))
    else None
  }

  /** Python `int(s)` in base 10: surrounding whitespace, an optional sign and
      at least one digit; anything else is a ValueError (None). A parsed
      string always holds a digit. */
  function ParseInt(s: string): (r: Option<int>)
    ensures r.Some? ==> exists i :: 0 <= i < |s| && IsDigit(s[i])
  {
    var t := Strip(s);
    var r := ParseSigned(t);
    StripSpec(s);
    if r.Some? then
      var k := StripStart(s);
      assert t == s[k..k + |t|];
      if t[0] == '-' || t[0] == '+' then
        assert t[1..] != [] && AllDigits(t[1..]);
        assert IsDigit(t[1..][0]) && t[1..][0] == t[1] == s[k + 1];
        r
      else
        assert t != [] && AllDigits(t);
        assert IsDigit(t[0]) && t[0] == s[k];
        r
    else r
  }

  lemma ParseSignedOfString(i: int)
    ensures ParseSigned(IntToString(i)) == Some(i)
  {
    var s := IntToString(i);
    if i < 0 {
      var ds := NatToString(-i);
      assert s == "-" + ds && s[1..] == ds;
      DigitsValueOfNat(-i);
    } else {
      assert s[0] != '-' && s[0] != '+' by { assert IsDigit(s[0]); }
      DigitsValueOfNat(i);
    }
  }

  /** `int(str(i)) == i`. */
  lemma ParseIntOfString(i: int)
    ensures ParseInt(IntToString(i)) == Some(i)
  {
    var s := IntToString(i);
    StripKeeps(s);
    ParseSignedOfString(i);
  }

  lemma IntToStringInjective(a: int, b: int)
    requires IntToString(a) == IntToString(b)
    ensures a == b
  {
    ParseIntOfString(a);
    ParseIntOfString(b);
  }
}
