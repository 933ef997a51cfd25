/**
 * Reference semantics of approximate matching. `Lev` is the Levenshtein
 * distance between a pattern prefix and a slice of the text; `Dist` is the
 * column recurrence both approximate matchers compute (Sellers' table, where
 * the empty pattern prefix costs nothing at every text position). The main
 * theorem, `DistIsBestSuffix`, says the recurrence yields the least distance
 * between the pattern prefix and any substring ending at the current position.
 */
module EditDistance {
  import opened Types
  import opened Text

  function Min(a: nat, b: nat): nat {
    if a <= b then a else b
  }

  function Min3(a: nat, b: nat, c: nat): nat {
    Min(a, Min(b, c))
  }

  /** 1 when the two bytes differ: the cost of substituting one for the other. */
  function Diff(a: byte, b: byte): nat {
    if a == b then 0 else 1
  }

  /**
   * The Levenshtein distance between `p[..i]` and `t[lo..hi]`: the fewest
   * one-byte insertions, deletions and substitutions turning one into the other.
   */
  function Lev(p: seq<byte>, i: nat, t: seq<byte>, lo: nat, hi: nat): nat
    requires i <= |p| && lo <= hi <= |t|
    decreases i + hi
  {
    if i == 0 then hi - lo
    else if hi == lo then i
    else Min3(Lev(p, i - 1, t, lo, hi) + 1,
              Lev(p, i, t, lo, hi - 1) + 1,
              Lev(p, i - 1, t, lo, hi - 1) + Diff(p[i - 1], t[hi - 1]))
  }

  /** `Dist(p, t, n, i)`: the entry `i` of the column after reading `t[..n]`. */
  function Dist(p: seq<byte>, t: seq<byte>, n: nat, i: nat): nat
    requires i <= |p| && n <= |t|
    decreases n, i
  {
    if i == 0 then 0
    else if n == 0 then i
    else Min3(Dist(p, t, n - 1, i) + 1, Dist(p, t, n, i - 1) + 1, Dist(p, t, n - 1, i - 1) + Diff(p[i - 1], t[n - 1]))
  }

  /** One step of `Lev` bounds it by each of its three candidates. */
  lemma LevUpper(p: seq<byte>, i: nat, t: seq<byte>, lo: nat, hi: nat)
    requires 0 < i <= |p| && lo <= hi <= |t|
    ensures Lev(p, i, t, lo, hi) <= Lev(p, i - 1, t, lo, hi) + 1
    ensures lo < hi ==> Lev(p, i, t, lo, hi) <= Lev(p, i, t, lo, hi - 1) + 1
    ensures lo < hi ==> Lev(p, i, t, lo, hi) <= Lev(p, i - 1, t, lo, hi - 1) + Diff(p[i - 1], t[hi - 1])
  {
  }

  /** Each entry is at most one more than the entry above it, and at most its row number. */
  lemma {:induction false} DistBounds(p: seq<byte>, t: seq<byte>, n: nat, i: nat)
    requires 0 < i <= |p| && n <= |t|
    ensures Dist(p, t, n, i) <= Dist(p, t, n, i - 1) + 1
    ensures Dist(p, t, n, i) <= i
  {
    if i > 1 {
      DistBounds(p, t, n, i - 1);
    }
  }

  /** One step of `Dist` bounds it by each of its three candidates. */
  lemma DistUpper(p: seq<byte>, t: seq<byte>, n: nat, i: nat)
    requires 0 < i <= |p| && 0 < n <= |t|
    ensures Dist(p, t, n, i) <= Dist(p, t, n - 1, i) + 1
    ensures Dist(p, t, n, i) <= Dist(p, t, n, i - 1) + 1
    ensures Dist(p, t, n, i) <= Dist(p, t, n - 1, i - 1) + Diff(p[i - 1], t[n - 1])
  {
  }

  /** `Lev` is the least of its three candidates. */
  lemma LevUnfold(p: seq<byte>, i: nat, t: seq<byte>, lo: nat, hi: nat)
    requires 0 < i <= |p| && lo < hi <= |t|
    ensures Lev(p, i, t, lo, hi) == Min3(Lev(p, i - 1, t, lo, hi) + 1, Lev(p, i, t, lo, hi - 1) + 1,
                                        Lev(p, i - 1, t, lo, hi - 1) + Diff(p[i - 1], t[hi - 1]))
  {
  }

  /** The column entry is no more than the distance to any slice ending at `n`. */
  lemma {:induction false} DistLowerBound(p: seq<byte>, t: seq<byte>, n: nat, i: nat, r: nat)
    requires i <= |p| && r <= n <= |t|
    ensures Dist(p, t, n, i) <= Lev(p, i, t, r, n)
    decreases n, i, 1
  {
    if i > 0 {
      if r == n {
        DistBounds(p, t, n, i);
      } else {
        LowerBoundStep(p, t, n, i, r);
      }
    }
  }

  /** The inductive step of `DistLowerBound`: the three neighbouring cells already satisfy it. */
  lemma {:induction false} LowerBoundStep(p: seq<byte>, t: seq<byte>, n: nat, i: nat, r: nat)
    requires 0 < i <= |p| && r < n <= |t|
    ensures Dist(p, t, n, i) <= Lev(p, i, t, r, n)
    decreases n, i, 0
  {
    var d, l := Dist(p, t, n, i), Lev(p, i, t, r, n);
    var d1, d2, d3 := Dist(p, t, n, i - 1), Dist(p, t, n - 1, i), Dist(p, t, n - 1, i - 1);
    var l1, l2, l3 := Lev(p, i - 1, t, r, n), Lev(p, i, t, r, n - 1), Lev(p, i - 1, t, r, n - 1);
    var c := Diff(p[i - 1], t[n - 1]);
    assert d1 <= l1 by { DistLowerBound(p, t, n, i - 1, r); }
    assert d2 <= l2 by { DistLowerBound(p, t, n - 1, i, r); }
    assert d3 <= l3 by { DistLowerBound(p, t, n - 1, i - 1, r); }
    assert l == Min3(l1 + 1, l2 + 1, l3 + c) by { LevUnfold(p, i, t, r, n); }
    assert d <= d1 + 1 && d <= d2 + 1 && d <= d3 + c by { DistUpper(p, t, n, i); }
    MinBelow(d, l, d1, d2, d3, l1, l2, l3, c);
  }

  /** A value below each of three candidates, each below its counterpart, is below their minimum. */
  lemma MinBelow(d: nat, l: nat, d1: nat, d2: nat, d3: nat, l1: nat, l2: nat, l3: nat, c: nat)
    requires d <= d1 + 1 && d <= d2 + 1 && d <= d3 + c
    requires d1 <= l1 && d2 <= l2 && d3 <= l3
    requires l == Min3(l1 + 1, l2 + 1, l3 + c)
    ensures d <= l
  {
  }

  /** Some slice ending at `n` attains the column entry. */
  lemma {:induction false} DistWitness(p: seq<byte>, t: seq<byte>, n: nat, i: nat) returns (r: nat)
    requires i <= |p| && n <= |t|
    ensures r <= n && Lev(p, i, t, r, n) <= Dist(p, t, n, i)
    decreases n, i
  {
    if i == 0 {
      r := n;
    } else if n == 0 {
      r := 0;
    } else {
      var d := Dist(p, t, n, i);
      var a, b, c := Dist(p, t, n - 1, i) + 1, Dist(p, t, n, i - 1) + 1,
                     Dist(p, t, n - 1, i - 1) + Diff(p[i - 1], t[n - 1]);
      assert d == Min3(a, b, c);
      if d == a {
        r := DistWitness(p, t, n - 1, i);
        assert Lev(p, i, t, r, n) <= Lev(p, i, t, r, n - 1) + 1 by { LevUpper(p, i, t, r, n); }
      } else if d == b {
        r := DistWitness(p, t, n, i - 1);
        assert Lev(p, i, t, r, n) <= Lev(p, i - 1, t, r, n) + 1 by { LevUpper(p, i, t, r, n); }
      } else {
        assert d == c;
        r := DistWitness(p, t, n - 1, i - 1);
        assert Lev(p, i, t, r, n) <= Lev(p, i - 1, t, r, n - 1) + Diff(p[i - 1], t[n - 1]) by {
          LevUpper(p, i, t, r, n);
        }
      }
    }
  }

  /**
   * The column recurrence computes approximate matching: entry `i` after
   * reading `t[..n]` is the least Levenshtein distance between `p[..i]` and a
   * slice `t[r..n]`.
   */
  lemma DistIsBestSuffix(p: seq<byte>, t: seq<byte>, n: nat, i: nat)
    requires i <= |p| && n <= |t|
    ensures forall r :: 0 <= r <= n ==> Dist(p, t, n, i) <= Lev(p, i, t, r, n)
    ensures exists r :: 0 <= r <= n && Lev(p, i, t, r, n) == Dist(p, t, n, i)
  {
    forall r | 0 <= r <= n ensures Dist(p, t, n, i) <= Lev(p, i, t, r, n) {
      DistLowerBound(p, t, n, i, r);
    }
    var r := DistWitness(p, t, n, i);
    DistLowerBound(p, t, n, i, r);
  }

  /** The distance is 0 exactly between equal words. */
  lemma {:induction false} LevZero(p: seq<byte>, i: nat, t: seq<byte>, lo: nat, hi: nat)
    requires i <= |p| && lo <= hi <= |t|
    ensures Lev(p, i, t, lo, hi) == 0 <==> hi - lo == i && t[lo..hi] == p[..i]
    decreases i + hi
  {
    if i > 0 && hi > lo {
      LevZero(p, i - 1, t, lo, hi - 1);
      if hi - lo == i && t[lo..hi] == p[..i] {
        assert t[lo..hi - 1] == t[lo..hi][..i - 1] && p[..i - 1] == p[..i][..i - 1];
        assert t[hi - 1] == t[lo..hi][i - 1];
      }
      if Lev(p, i - 1, t, lo, hi - 1) == 0 && p[i - 1] == t[hi - 1] {
        assert t[lo..hi] == t[lo..hi - 1] + [t[hi - 1]];
        assert p[..i] == p[..i - 1] + [p[i - 1]];
      }
    }
  }

  /** Zero errors is exact matching: entry `i` is 0 iff `p[..i]` ends at `n`. */
  lemma DistZero(p: seq<byte>, t: seq<byte>, n: nat, i: nat)
    requires i <= |p| && n <= |t|
    ensures Dist(p, t, n, i) == 0 <==> EndsAt(t, p[..i], n)
  {
    DistIsBestSuffix(p, t, n, i);
    if Dist(p, t, n, i) == 0 {
      var r :| 0 <= r <= n && Lev(p, i, t, r, n) == Dist(p, t, n, i);
      LevZero(p, i, t, r, n);
    }
    if EndsAt(t, p[..i], n) {
      LevZero(p, i, t, n - i, n);
    }
  }

  /** A byte that the pattern prefix does not contain matches nothing: the entry is `i`. */
  lemma {:induction false} DistForeignByte(p: seq<byte>, c: byte, i: nat)
    requires i <= |p|
    requires forall j :: 0 <= j < i ==> p[j] != c
    ensures Dist(p, [c], 1, i) == i
  {
    if i > 0 {
      DistForeignByte(p, c, i - 1);
    }
  }

  /**
   * The end positions `e <= n` where some substring ending at `t[e - 1]` is
   * within edit distance `k` of the whole pattern, ascending.
   */
  function ApproxEndsBelow(t: seq<byte>, p: seq<byte>, k: nat, n: nat): seq<nat>
    requires n <= |t|
  {
    if n == 0 then []
    else ApproxEndsBelow(t, p, k, n - 1) + (if Dist(p, t, n, |p|) <= k then [n] else [])
  }

  /** One more position counts one more end exactly when an approximate match ends there. */
  lemma ApproxEndsBelowCount(t: seq<byte>, p: seq<byte>, k: nat, n: nat)
    requires n < |t|
    ensures |ApproxEndsBelow(t, p, k, n + 1)| == |ApproxEndsBelow(t, p, k, n)| + (if Dist(p, t, n + 1, |p|) <= k then 1 else 0)
  {
  }

  /** Every approximate-match end position in `t`, ascending. */
  function ApproxEnds(t: seq<byte>, p: seq<byte>, k: nat): seq<nat> {
    ApproxEndsBelow(t, p, k, |t|)
  }

  /** With no errors allowed, approximate matching is exact matching. */
  lemma {:induction false} ApproxEndsExact(t: seq<byte>, p: seq<byte>, n: nat)
    requires n <= |t|
    ensures ApproxEndsBelow(t, p, 0, n) == EndsBelow(t, p, n)
  {
    if n > 0 {
      ApproxEndsExact(t, p, n - 1);
      DistZero(p, t, n, |p|);
      assert p[..|p|] == p;
    }
  }

  /**
   * The meaning of `ApproxEndsBelow`: a position is listed iff some substring
   * ending there is within distance `k` of the pattern.
   */
  lemma {:induction false} ApproxEndsMember(t: seq<byte>, p: seq<byte>, k: nat, n: nat, e: nat)
    requires n <= |t|
    ensures e in ApproxEndsBelow(t, p, k, n) <==>
      0 < e <= n && exists r :: 0 <= r <= e && Lev(p, |p|, t, r, e) <= k
  {
    if n > 0 {
      ApproxEndsMember(t, p, k, n - 1, e);
      if e == n {
        DistIsBestSuffix(p, t, n, |p|);
      }
    }
  }

  /** Allowing more errors never loses a position. */
  lemma ApproxEndsMonotone(t: seq<byte>, p: seq<byte>, k: nat, k': nat, e: nat)
    requires k <= k'
    ensures e in ApproxEnds(t, p, k) ==> e in ApproxEnds(t, p, k')
  {
    ApproxEndsMember(t, p, k, |t|, e);
    ApproxEndsMember(t, p, k', |t|, e);
  }
}
