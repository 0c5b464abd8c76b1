/** `shuffle($pages)` followed by `array_slice($pages, 0, $count)`.
    PHP's `shuffle` is a Fisher-Yates pass: for each position from the last
    down to the second it draws an index between 0 and that position and
    swaps the two entries. The random draws are a parameter here. */
module Selection {
  import opened Common

  /** A random source as the shuffle consumes it: the index drawn for
      position `k` lies in `0..k`. */
  type Picks = nat -> nat

  ghost predicate ValidPicks(pick: Picks) {
    forall k :: pick(k) <= k
  }

  /** Exchange the entries at `i` and `j`. */
  function Swap<T>(s: seq<T>, i: nat, j: nat): (r: seq<T>)
    requires i < |s| && j < |s|
    ensures |r| == |s|
    ensures r[i] == s[j] && r[j] == s[i]
    ensures forall k :: 0 <= k < |s| && k != i && k != j ==> r[k] == s[k]
    ensures multiset(r) == multiset(s)
  {
    s[i := s[j]][j := s[i]]
  }

  /** The Fisher-Yates pass over the first `n` positions: swap position
      `n - 1` with the drawn index, then continue with `n - 1` positions. */
  function ShuffleFirst<T>(s: seq<T>, n: nat, pick: Picks): (r: seq<T>)
    requires n <= |s|
    requires ValidPicks(pick)
    ensures |r| == |s|
    ensures multiset(r) == multiset(s)
    ensures r[n..] == s[n..]
    decreases n
  {
    if n <= 1 then s
    else ShuffleFirst(Swap(s, n - 1, pick(n - 1)), n - 1, pick)
  }

  /** `shuffle`: a permutation of the input chosen by the draws. */
  function Shuffle<T>(s: seq<T>, pick: Picks): (r: seq<T>)
    requires ValidPicks(pick)
    ensures |r| == |s|
    ensures multiset(r) == multiset(s)
  {
    ShuffleFirst(s, |s|, pick)
  }

  function Min(a: int, b: int): int {
    if a <= b then a else b
  }

  /** Shuffle, then keep the first `count` entries (all of them when there
      are fewer). */
  function Select<T>(pages: seq<T>, count: nat, pick: Picks): (selected: seq<T>)
    requires ValidPicks(pick)
    ensures |selected| == Min(count, |pages|)
    // the prefix of a permutation of `pages`
    ensures selected == Shuffle(pages, pick)[..|selected|]
    // nothing is drawn more often than it occurs
    ensures multiset(selected) <= multiset(pages)
    ensures forall p :: p in selected ==> p in pages
    // asking for at least as many as there are returns them all, reordered
    ensures count >= |pages| ==> multiset(selected) == multiset(pages)
  {
    var shuffled := Shuffle(pages, pick);
    var n := Min(count, |pages|);
    PrefixMultiset(shuffled, n);
    SubMultisetMembers(shuffled[..n], pages);
    assert shuffled[..|shuffled|] == shuffled;
    shuffled[..n]
  }

  lemma SubMultisetMembers<T>(a: seq<T>, b: seq<T>)
    requires multiset(a) <= multiset(b)
    ensures forall p :: p in a ==> p in b
  {
    forall p | p in a
      ensures p in b
    {
      assert p in multiset(a);
    }
  }

  lemma PrefixMultiset<T>(s: seq<T>, n: nat)
    requires n <= |s|
    ensures multiset(s[..n]) <= multiset(s)
  {
    assert s == s[..n] + s[n..];
  }

  /** A sequence without repeats has every multiplicity at most one. */
  lemma {:induction false} DistinctMultiplicity<T>(s: seq<T>, x: T)
    requires Distinct(s)
    ensures multiset(s)[x] <= 1
    decreases |s|
  {
    if s != [] {
      assert s == [s[0]] + s[1..];
      assert Distinct(s[1..]);
      DistinctMultiplicity(s[1..], x);
      if x == s[0] {
        assert x !in s[1..];
      }
    }
  }

  /** A repeated element has multiplicity at least two. */
  lemma RepeatMultiplicity<T>(s: seq<T>, i: nat, j: nat)
    requires i < j < |s| && s[i] == s[j]
    ensures multiset(s)[s[i]] >= 2
  {
    var x := s[i];
    assert s == s[..j] + [s[j]] + s[j + 1..];
    assert x in s[..j];
    assert multiset(s) == multiset(s[..j]) + multiset{x} + multiset(s[j + 1..]);
  }

  /** Without repeats among the pages, the selection has none either. */
  lemma SelectDistinct<T>(pages: seq<T>, count: nat, pick: Picks)
    requires ValidPicks(pick)
    requires Distinct(pages)
    ensures Distinct(Select(pages, count, pick))
  {
    var selected := Select(pages, count, pick);
    forall i, j | 0 <= i < j < |selected|
      ensures selected[i] != selected[j]
    {
      if selected[i] == selected[j] {
        RepeatMultiplicity(selected, i, j);
        DistinctMultiplicity(pages, selected[i]);
        assert false;
      }
    }
  }

  /** The pass reads the draws only for positions below `n`. */
  lemma {:induction false} ShuffleFirstReadsBelow<T>(s: seq<T>, n: nat, p1: Picks, p2: Picks)
    requires n <= |s|
    requires ValidPicks(p1) && ValidPicks(p2)
    requires forall k: nat :: k < n ==> p1(k) == p2(k)
    ensures ShuffleFirst(s, n, p1) == ShuffleFirst(s, n, p2)
    decreases n
  {
    if n > 1 {
      ShuffleFirstReadsBelow(Swap(s, n - 1, p1(n - 1)), n - 1, p1, p2);
    }
  }

  /** With at most one open position, agreeing multisets mean equal sequences. */
  lemma ReachesTrivially<T>(s: seq<T>, t: seq<T>, n: nat)
    requires n <= 1 && n <= |s| == |t|
    requires multiset(s[..n]) == multiset(t[..n])
    requires s[n..] == t[n..]
    ensures s == t
  {
    if n == 1 {
      assert s[..1] == [s[0]] && t[..1] == [t[0]];
      assert s[0] in multiset(t[..1]);
    }
    assert s == s[..n] + s[n..] && t == t[..n] + t[n..];
  }

  lemma SplitMultiset<T>(s: seq<T>, k: nat)
    requires k <= |s|
    ensures multiset(s) == multiset(s[..k]) + multiset(s[k..])
  {
    assert s == s[..k] + s[k..];
  }

  lemma MultisetCancel<T>(a: multiset<T>, b: multiset<T>, c: multiset<T>)
    requires a + c == b + c
    ensures a == b
  {
    forall y
      ensures a[y] == b[y]
    {
      assert (a + c)[y] == (b + c)[y];
    }
  }

  /** Swapping the wanted entry into position `n - 1` settles that position
      and leaves the open positions a rearrangement of the target's. */
  lemma SwapIntoPlace<T>(s: seq<T>, t: seq<T>, n: nat, j: nat)
    requires 1 < n <= |s| == |t|
    requires multiset(s[..n]) == multiset(t[..n])
    requires s[n..] == t[n..]
    requires j < n && s[j] == t[n - 1]
    ensures Swap(s, n - 1, j)[n - 1..] == t[n - 1..]
    ensures multiset(Swap(s, n - 1, j)[..n - 1]) == multiset(t[..n - 1])
  {
    SwapSettlesSuffix(s, t, n, j);
    var s' := Swap(s, n - 1, j);
    calc {
      multiset(s'[..n - 1]) + multiset(t[n - 1..]);
      { SplitMultiset(s', n - 1); }
      multiset(s');
      multiset(s);
      { SplitMultiset(s, n); }
      multiset(t[..n]) + multiset(t[n..]);
      { SplitMultiset(t, n); }
      multiset(t);
      { SplitMultiset(t, n - 1); }
      multiset(t[..n - 1]) + multiset(t[n - 1..]);
    }
    MultisetCancel(multiset(s'[..n - 1]), multiset(t[..n - 1]), multiset(t[n - 1..]));
  }

  lemma SwapSettlesSuffix<T>(s: seq<T>, t: seq<T>, n: nat, j: nat)
    requires 1 < n <= |s| == |t|
    requires s[n..] == t[n..]
    requires j < n && s[j] == t[n - 1]
    ensures Swap(s, n - 1, j)[n - 1..] == t[n - 1..]
  {
    var s' := Swap(s, n - 1, j);
    assert |s'[n - 1..]| == |t[n - 1..]|;
    forall k | n - 1 <= k < |s|
      ensures s'[k] == t[k]
    {
      if k >= n {
        assert s[n..][k - n] == t[n..][k - n];
      }
    }
  }

  /** Draws that answer `j` for position `m` and agree with `rest` below it. */
  lemma ExtendPicks(rest: Picks, m: nat, j: nat) returns (pick: Picks)
    requires ValidPicks(rest) && j <= m
    ensures ValidPicks(pick)
    ensures pick(m) == j
    ensures forall k: nat :: k < m ==> pick(k) == rest(k)
  {
    pick := k => if k == m then j else rest(k);
  }

  /** The entry the target wants at position `n - 1` is somewhere in `s[..n]`. */
  lemma FindInPrefix<T>(s: seq<T>, t: seq<T>, n: nat) returns (j: nat)
    requires 0 < n <= |s| && n <= |t|
    requires multiset(s[..n]) == multiset(t[..n])
    ensures j < n && s[j] == t[n - 1]
  {
    var x := t[n - 1];
    assert t[..n][n - 1] == x;
    assert x in multiset(t[..n]);
    assert x in s[..n];
    j :| 0 <= j < n && s[..n][j] == x;
  }

  /** Every rearrangement of the first `n` positions is produced by some
      valid draws: the shuffle can return any order. */
  lemma {:induction false} ShuffleFirstReaches<T>(s: seq<T>, t: seq<T>, n: nat) returns (pick: Picks)
    requires n <= |s| == |t|
    requires multiset(s[..n]) == multiset(t[..n])
    requires s[n..] == t[n..]
    ensures ValidPicks(pick)
    ensures ShuffleFirst(s, n, pick) == t
    decreases n
  {
    if n <= 1 {
      pick := ReachBase(s, t, n);
    } else {
      var j := FindInPrefix(s, t, n);
      SwapIntoPlace(s, t, n, j);
      var rest := ShuffleFirstReaches(Swap(s, n - 1, j), t, n - 1);
      pick := ReachStep(s, t, n, j, rest);
    }
  }

  /** With at most one open position any valid draws reach the target. */
  lemma ReachBase<T>(s: seq<T>, t: seq<T>, n: nat) returns (pick: Picks)
    requires n <= 1 && n <= |s| == |t|
    requires multiset(s[..n]) == multiset(t[..n])
    requires s[n..] == t[n..]
    ensures ValidPicks(pick)
    ensures ShuffleFirst(s, n, pick) == t
  {
    pick := k => 0;
    ReachesTrivially(s, t, n);
  }

  /** Draws that reach `t` after swapping `j` into position `n - 1` extend to
      draws that reach `t` from `s`. */
  lemma ReachStep<T>(s: seq<T>, t: seq<T>, n: nat, j: nat, rest: Picks) returns (pick: Picks)
    requires 1 < n <= |s| && j < n
    requires ValidPicks(rest)
    requires ShuffleFirst(Swap(s, n - 1, j), n - 1, rest) == t
    ensures ValidPicks(pick)
    ensures ShuffleFirst(s, n, pick) == t
  {
    pick := ExtendPicks(rest, n - 1, j);
    ShuffleFirstStep(s, n, pick, rest);
  }

  /** One step of the pass: with draws that answer `j` at position `n - 1`,
      the pass over `n` is the swap followed by the pass over `n - 1`, for any
      draws that agree below. */
  lemma ShuffleFirstStep<T>(s: seq<T>, n: nat, pick: Picks, rest: Picks)
    requires 1 < n <= |s|
    requires ValidPicks(pick) && ValidPicks(rest)
    requires forall k: nat :: k < n - 1 ==> pick(k) == rest(k)
    ensures ShuffleFirst(s, n, pick) == ShuffleFirst(Swap(s, n - 1, pick(n - 1)), n - 1, rest)
  {
    ShuffleFirstReadsBelow(Swap(s, n - 1, pick(n - 1)), n - 1, pick, rest);
  }

  /** Any arrangement of the pages can come out of the shuffle, so any
      `min(count, |pages|)` of them, in any order, can be selected. */
  lemma SelectReaches<T>(pages: seq<T>, count: nat, t: seq<T>) returns (pick: Picks)
    requires multiset(t) == multiset(pages)
    ensures ValidPicks(pick)
    ensures Select(pages, count, pick) == t[..Min(count, |t|)]
  {
    assert |t| == |multiset(t)| == |pages|;
    assert pages[..|pages|] == pages && t[..|t|] == t;
    pick := ShuffleFirstReaches(pages, t, |pages|);
  }
}
