/** The enumeration behind `BinaryRegister.enumerate_states`: a depth-first
    expansion of a sequence of cell states into every bit-string consistent
    with it, stated on values. */
module Enumeration {
  import opened Possibility

  /** The character a determined cell contributes: "0" for state 0 and
      "1" for the other determined state. */
  function BitOf(s: State): (c: char)
    requires s != Superposed
    ensures c == '0' <==> s == Zero
    ensures c == '0' || c == '1'
  {
    if s == Zero then '0' else '1'
  }

  /** Whether character `c` may stand at a position whose cell holds `s`:
      a superposed cell allows both bits, a determined cell only its own. */
  predicate Allows(s: State, c: char)
  {
    match s
    case Zero => c == '0'
    case One => c == '1'
    case Superposed => c == '0' || c == '1'
  }

  /** Whether `w` is a concrete bit-string consistent with the cells `s`. */
  predicate Matches(s: seq<State>, w: string)
  {
    |w| == |s| && forall j :: 0 <= j < |s| ==> Allows(s[j], w[j])
  }

  /** The number of superposed cells in `s`. */
  function CountSuperposed(s: seq<State>): (k: nat)
    ensures k <= |s|
  {
    if s == [] then 0
    else (if s[0] == Superposed then 1 else 0) + CountSuperposed(s[1..])
  }

  function Pow2(k: nat): (r: nat)
    ensures r >= 1
  {
    if k == 0 then 1 else 2 * Pow2(k - 1)
  }

  /** The nested `generate_states(i, partial_state)`: the strings it
      appends, in order, when started at position `i` with prefix
      `partial`. A superposed cell explores "0" before "1". */
  function Expand(s: seq<State>, i: nat, partial: string): (r: seq<string>)
    requires i <= |s|
    ensures |r| == Pow2(CountSuperposed(s[i..]))
    decreases |s| - i
  {
    assert i < |s| ==> s[i..][1..] == s[i + 1..];
    if i == |s| then [partial]
    else if s[i] == Superposed then
      Expand(s, i + 1, partial + "0") + Expand(s, i + 1, partial + "1")
    else
      Expand(s, i + 1, partial + [BitOf(s[i])])
  }

  /** `enumerate_states` on a register holding the states `s`: the empty
      list for an empty register, and otherwise a non-empty list of
      2^k strings, where k is the number of superposed cells. */
  function Enumerate(s: seq<State>): (r: seq<string>)
    ensures r == [] <==> |s| == 0
    ensures |s| > 0 ==> |r| == Pow2(CountSuperposed(s))
  {
    if |s| == 0 then [] else Expand(s, 0, "")
  }

  /** Python's `<` on strings: lexicographic by character code, a proper
      prefix coming first. */
  predicate LexLess(a: string, b: string)
  {
    if |a| == 0 then |b| > 0
    else |b| > 0 && (a[0] < b[0] || (a[0] == b[0] && LexLess(a[1..], b[1..])))
  }

  /** Each string is strictly below every later one. */
  predicate StrictlyAscending(xs: seq<string>)
  {
    forall a, b :: 0 <= a < b < |xs| ==> LexLess(xs[a], xs[b])
  }

  /** No string appears twice. */
  predicate Distinct(xs: seq<string>)
  {
    forall a, b :: 0 <= a < b < |xs| ==> xs[a] != xs[b]
  }

  /** The bits of a fully determined register, in order. */
  function Bits(s: seq<State>): (w: string)
    requires forall j :: 0 <= j < |s| ==> s[j] != Superposed
    ensures |w| == |s|
  {
    seq(|s|, j requires 0 <= j < |s| => BitOf(s[j]))
  }

  // ---------------------------------------------------------------------
  // Lexicographic order

  lemma {:induction false} LexLessIrreflexive(a: string)
    ensures !LexLess(a, a)
    decreases |a|
  {
    if |a| > 0 {
      LexLessIrreflexive(a[1..]);
    }
  }

  /** Two strings that agree before position k and differ at k in favour
      of `a` are ordered `a` first. */
  lemma {:induction false} LexLessAtFork(a: string, b: string, k: nat)
    requires k < |a| && k < |b|
    requires a[..k] == b[..k] && a[k] < b[k]
    ensures LexLess(a, b)
    decreases k
  {
    if k > 0 {
      assert a[0] == a[..k][0] == b[..k][0] == b[0];
      assert a[1..][..k - 1] == a[1..k] == b[1..k] == b[1..][..k - 1];
      LexLessAtFork(a[1..], b[1..], k - 1);
    }
  }

  lemma AscendingDistinct(xs: seq<string>)
    requires StrictlyAscending(xs)
    ensures Distinct(xs)
  {
    forall a, b | 0 <= a < b < |xs|
      ensures xs[a] != xs[b]
    {
      LexLessIrreflexive(xs[a]);
    }
  }

  lemma AscendingConcat(xs: seq<string>, ys: seq<string>)
    requires StrictlyAscending(xs) && StrictlyAscending(ys)
    requires forall x, y :: x in xs && y in ys ==> LexLess(x, y)
    ensures StrictlyAscending(xs + ys)
  {
  }

  // ---------------------------------------------------------------------
  // The expansion

  /** Matching a non-empty suffix of the cells splits into its first
      position and the rest. */
  lemma MatchesStep(s: seq<State>, i: nat, w: string, n: nat)
    requires i < |s| && n < |w|
    ensures Matches(s[i..], w[n..]) <==> Allows(s[i], w[n]) && Matches(s[i + 1..], w[n + 1..])
  {
  }

  /** A string is produced by `Expand(s, i, partial)` exactly when it
      extends `partial` by a bit-string consistent with the cells from
      position i on. */
  lemma {:induction false} ExpandMembers(s: seq<State>, i: nat, partial: string, w: string)
    requires i <= |s|
    ensures w in Expand(s, i, partial) <==>
            |w| >= |partial| && w[..|partial|] == partial && Matches(s[i..], w[|partial|..])
    decreases |s| - i
  {
    var n := |partial|;
    if i == |s| {
      if |w| >= n && w[..n] == partial && Matches(s[i..], w[n..]) {
        assert w == w[..n];
      }
    } else {
      ExpandMembers(s, i + 1, partial + "0", w);
      ExpandMembers(s, i + 1, partial + "1", w);
      if s[i] != Superposed {
        ExpandMembers(s, i + 1, partial + [BitOf(s[i])], w);
      }
      if |w| > n {
        MatchesStep(s, i, w, n);
        forall c: char
          ensures w[..n + 1] == partial + [c] <==> w[..n] == partial && w[n] == c
        {
          if w[..n] == partial && w[n] == c {
            assert w[..n + 1] == w[..n] + [w[n]];
          }
          if w[..n + 1] == partial + [c] {
            assert w[..n] == w[..n + 1][..n];
          }
        }
      }
    }
  }

  /** Every string `Expand(s, i, partial)` produces starts with `partial`. */
  lemma ExpandPrefix(s: seq<State>, i: nat, partial: string, w: string)
    requires i <= |s| && w in Expand(s, i, partial)
    ensures |w| == |partial| + |s| - i && w[..|partial|] == partial
  {
    ExpandMembers(s, i, partial, w);
  }

  /** The expansion explores 0 before 1, so its output is strictly ascending. */
  lemma {:induction false} ExpandAscending(s: seq<State>, i: nat, partial: string)
    requires i <= |s|
    ensures StrictlyAscending(Expand(s, i, partial))
    decreases |s| - i
  {
    if i < |s| {
      if s[i] == Superposed {
        var zeros := Expand(s, i + 1, partial + "0");
        var ones := Expand(s, i + 1, partial + "1");
        ExpandAscending(s, i + 1, partial + "0");
        ExpandAscending(s, i + 1, partial + "1");
        var n := |partial|;
        forall x, y | x in zeros && y in ones
          ensures LexLess(x, y)
        {
          ExpandPrefix(s, i + 1, partial + "0", x);
          ExpandPrefix(s, i + 1, partial + "1", y);
          assert x[..n] == x[..n + 1][..n] == partial;
          assert y[..n] == y[..n + 1][..n] == partial;
          assert x[n] == x[..n + 1][n] == '0';
          assert y[n] == y[..n + 1][n] == '1';
          LexLessAtFork(x, y, n);
        }
        AscendingConcat(zeros, ones);
      } else {
        ExpandAscending(s, i + 1, partial + [BitOf(s[i])]);
      }
    }
  }

  /** With no superposed cell left, the expansion yields the single
      string of the cells' own bits. */
  lemma {:induction false} ExpandDetermined(s: seq<State>, i: nat, partial: string)
    requires i <= |s|
    requires forall j :: i <= j < |s| ==> s[j] != Superposed
    ensures Expand(s, i, partial) == [partial + Bits(s[i..])]
    decreases |s| - i
  {
    if i == |s| {
      assert Bits(s[i..]) == [];
      assert partial + [] == partial;
    } else {
      var b := BitOf(s[i]);
      ExpandDetermined(s, i + 1, partial + [b]);
      assert Bits(s[i..]) == [b] + Bits(s[i + 1..]);
      assert partial + [b] + Bits(s[i + 1..]) == partial + Bits(s[i..]);
    }
  }

  // ---------------------------------------------------------------------
  // Properties of the enumeration

  /** The enumeration holds exactly the bit-strings consistent with the
      cells: of the register's length, over "0" and "1", with each
      determined cell's own bit at its position. */
  lemma EnumerateMembers(s: seq<State>, w: string)
    ensures w in Enumerate(s) <==> |s| > 0 && Matches(s, w)
  {
    if |s| > 0 {
      ExpandMembers(s, 0, "", w);
      assert s[0..] == s && w[0..] == w;
    }
  }

  /** Every string of the enumeration has the register's length, uses only
      "0" and "1", and shows "0" at a cell holding 0 and "1" at a cell
      holding 1. */
  lemma EnumerateShape(s: seq<State>, w: string)
    requires w in Enumerate(s)
    ensures |w| == |s|
    ensures forall j :: 0 <= j < |w| ==> w[j] == '0' || w[j] == '1'
    ensures forall j :: 0 <= j < |s| && s[j] == Zero ==> w[j] == '0'
    ensures forall j :: 0 <= j < |s| && s[j] == One ==> w[j] == '1'
  {
    EnumerateMembers(s, w);
  }

  /** The enumeration is strictly ascending in string order, so no string
      appears twice. */
  lemma EnumerateAscending(s: seq<State>)
    ensures StrictlyAscending(Enumerate(s))
    ensures Distinct(Enumerate(s))
  {
    if |s| > 0 {
      ExpandAscending(s, 0, "");
    }
    AscendingDistinct(Enumerate(s));
  }

  /** A fully determined, non-empty register enumerates to the single
      string of its own bits. */
  lemma EnumerateDetermined(s: seq<State>)
    requires |s| > 0
    requires forall j :: 0 <= j < |s| ==> s[j] != Superposed
    ensures Enumerate(s) == [Bits(s)]
  {
    ExpandDetermined(s, 0, "");
    assert s[0..] == s;
    assert "" + Bits(s) == Bits(s);
  }

  /** Every cell of a freshly built register is superposed, so all of its
      cells count. */
  lemma {:induction false} CountAllSuperposed(n: nat)
    ensures CountSuperposed(seq(n, _ => Superposed)) == n
  {
    if n > 0 {
      CountAllSuperposed(n - 1);
      assert seq(n, _ => Superposed)[1..] == seq(n - 1, _ => Superposed);
    }
  }

  /** A freshly built register of n bits enumerates all 2^n bit-strings
      of length n. */
  lemma EnumerateFresh(n: nat, w: string)
    requires n > 0
    ensures |Enumerate(seq(n, _ => Superposed))| == Pow2(n)
    ensures w in Enumerate(seq(n, _ => Superposed)) <==>
            |w| == n && forall j :: 0 <= j < n ==> w[j] == '0' || w[j] == '1'
  {
    CountAllSuperposed(n);
    EnumerateMembers(seq(n, _ => Superposed), w);
  }

  /** The worked example: cells [None, 1, None]. */
  lemma EnumerateExample()
    ensures Enumerate([Superposed, One, Superposed]) == ["010", "011", "110", "111"]
  {
    var s := [Superposed, One, Superposed];
    assert "01" + "0" == "010" && "01" + "1" == "011";
    assert "11" + "0" == "110" && "11" + "1" == "111";
    assert "0" + [BitOf(One)] == "01" && "1" + [BitOf(One)] == "11";
    assert "" + "0" == "0" && "" + "1" == "1";
    assert Expand(s, 2, "01") == ["010", "011"];
    assert Expand(s, 2, "11") == ["110", "111"];
  }
}
