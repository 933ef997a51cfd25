/**
 * Reference semantics of exact matching over a whole text. The matchers
 * report an occurrence either where it ends (the bit-parallel and automaton
 * matchers) or where it starts (brute force); overlapping occurrences all
 * count. Positions are indices into the text, so a text read in pieces is
 * described by its prefix length.
 */
module Text {
  import opened Types

  /** `u` is what `t` holds just before position `n`: `t[n - |u|..n] == u`. */
  predicate EndsAt(t: seq<byte>, u: seq<byte>, n: nat)
    requires n <= |t|
  {
    |u| <= n && t[n - |u|..n] == u
  }

  /** `p` occurs in `t` starting at index `i`. */
  predicate OccursAt(t: seq<byte>, p: seq<byte>, i: nat) {
    i + |p| <= |t| && t[i..i + |p|] == p
  }

  /**
   * The end positions `e <= n` of the occurrences of `p` in `t`, ascending:
   * `e` is listed when the occurrence's last byte is `t[e - 1]`.
   */
  function EndsBelow(t: seq<byte>, p: seq<byte>, n: nat): seq<nat>
    requires n <= |t|
  {
    if n == 0 then []
    else EndsBelow(t, p, n - 1) + (if EndsAt(t, p, n) then [n] else [])
  }

  /** Occurrence ends up to `m` depend only on the text up to `m`. */
  lemma {:induction false} EndsBelowPrefix(t: seq<byte>, p: seq<byte>, n: nat, m: nat)
    requires m <= n <= |t|
    ensures EndsBelow(t[..n], p, m) == EndsBelow(t, p, m)
  {
    if m > 0 {
      EndsBelowPrefix(t, p, n, m - 1);
      if |p| <= m {
        assert t[..n][m - |p|..m] == t[m - |p|..m];
      }
    }
  }

  /** Every end position of an occurrence of `p` in `t`, ascending. */
  function Ends(t: seq<byte>, p: seq<byte>): seq<nat> {
    EndsBelow(t, p, |t|)
  }

  /** The occurrences in a prefix of the text are those ending inside it. */
  lemma EndsPrefix(t: seq<byte>, p: seq<byte>, n: nat)
    requires n <= |t|
    ensures Ends(t[..n], p) == EndsBelow(t, p, n)
  {
    EndsBelowPrefix(t, p, n, n);
  }

  /** The start indices below `n` of the occurrences of `p` in `t`, ascending. */
  function StartsBelow(t: seq<byte>, p: seq<byte>, n: nat): seq<nat>
    requires n <= |t|
  {
    if n == 0 then []
    else StartsBelow(t, p, n - 1) + (if OccursAt(t, p, n - 1) then [n - 1] else [])
  }

  /** Every start index of an occurrence of `p` in `t`, ascending. */
  function Occurrences(t: seq<byte>, p: seq<byte>): seq<nat> {
    StartsBelow(t, p, |t|)
  }

  /** An occurrence ends where it starts plus its length. */
  lemma OccursEnds(t: seq<byte>, p: seq<byte>, i: nat)
    requires i + |p| <= |t|
    ensures OccursAt(t, p, i) <==> EndsAt(t, p, i + |p|)
  {
  }

  /** Extending `p[..j]` by one byte: `p[..j+1]` ends at `n + 1` iff `t[n] == p[j]` and `p[..j]` ends at `n`. */
  lemma EndsAtStep(t: seq<byte>, p: seq<byte>, j: nat, n: nat)
    requires j < |p| && n < |t|
    ensures EndsAt(t, p[..j + 1], n + 1) <==> t[n] == p[j] && EndsAt(t, p[..j], n)
  {
    if EndsAt(t, p[..j + 1], n + 1) {
      assert t[n] == t[n - j..n + 1][j] == p[..j + 1][j];
      assert t[n - j..n] == t[n - j..n + 1][..j];
      assert p[..j + 1][..j] == p[..j];
    }
    if t[n] == p[j] && EndsAt(t, p[..j], n) {
      assert t[n - j..n + 1] == t[n - j..n] + [t[n]];
      assert p[..j + 1] == p[..j] + [p[j]];
    }
  }

  /** The meaning of `EndsBelow`: exactly the positions up to `n` that complete an occurrence, strictly ascending. */
  lemma {:induction false} EndsBelowMeaning(t: seq<byte>, p: seq<byte>, n: nat)
    requires n <= |t|
    ensures forall e: nat :: e in EndsBelow(t, p, n) <==> 0 < e <= n && EndsAt(t, p, e)
    ensures forall a :: 0 <= a < |EndsBelow(t, p, n)| ==> EndsBelow(t, p, n)[a] <= n
    ensures forall a, b :: 0 <= a < b < |EndsBelow(t, p, n)| ==> EndsBelow(t, p, n)[a] < EndsBelow(t, p, n)[b]
  {
    if n > 0 {
      EndsBelowMeaning(t, p, n - 1);
      var E := EndsBelow(t, p, n - 1);
      forall a, b | 0 <= a < b < |EndsBelow(t, p, n)|
        ensures EndsBelow(t, p, n)[a] < EndsBelow(t, p, n)[b]
      {
        if b == |E| {
          assert E[a] <= n - 1;
        }
      }
    }
  }

  /** The meaning of `StartsBelow`: exactly the starts below `n`, strictly ascending. */
  lemma {:induction false} StartsBelowMeaning(t: seq<byte>, p: seq<byte>, n: nat)
    requires n <= |t|
    ensures forall i: nat :: i in StartsBelow(t, p, n) <==> i < n && OccursAt(t, p, i)
    ensures forall a :: 0 <= a < |StartsBelow(t, p, n)| ==> StartsBelow(t, p, n)[a] < n
    ensures forall a, b :: 0 <= a < b < |StartsBelow(t, p, n)| ==> StartsBelow(t, p, n)[a] < StartsBelow(t, p, n)[b]
  {
    if n > 0 {
      StartsBelowMeaning(t, p, n - 1);
      var S := StartsBelow(t, p, n - 1);
      forall a, b | 0 <= a < b < |StartsBelow(t, p, n)|
        ensures StartsBelow(t, p, n)[a] < StartsBelow(t, p, n)[b]
      {
        if b == |S| {
          assert S[a] < n - 1;
        }
      }
    }
  }

  /** A sequence with a constant added to every element. */
  function Shifted(s: seq<nat>, d: nat): (r: seq<nat>)
    ensures |r| == |s|
  {
    if |s| == 0 then [] else Shifted(s[..|s| - 1], d) + [s[|s| - 1] + d]
  }

  /** Element `i` of the moved sequence is element `i` of the original plus `d`. */
  lemma {:induction false} ShiftedAt(s: seq<nat>, d: nat, i: nat)
    requires i < |s|
    ensures Shifted(s, d)[i] == s[i] + d
  {
    if i < |s| - 1 {
      ShiftedAt(s[..|s| - 1], d, i);
    }
  }

  /** End positions and start positions list the same occurrences, offset by the pattern length. */
  lemma {:induction false} EndsAreStarts(t: seq<byte>, p: seq<byte>)
    requires |p| > 0
    ensures Ends(t, p) == Shifted(Occurrences(t, p), |p|)
  {
    var n := |t|;
    if n + 1 >= |p| {
      EndsBelowStarts(t, p, n);
      StartsBelowTail(t, p, n + 1 - |p|);
    } else {
      EndsBelowShort(t, p, n);
      StartsBelowTail(t, p, 0);
    }
  }

  /** No occurrence starts in the last `|p| - 1` bytes. */
  lemma {:induction false} StartsBelowTail(t: seq<byte>, p: seq<byte>, n: nat)
    requires |p| > 0
    requires n <= |t| && n + |p| >= |t| + 1
    ensures StartsBelow(t, p, n) == StartsBelow(t, p, |t|)
    decreases |t| - n
  {
    if n < |t| {
      StartsBelowTail(t, p, n + 1);
    }
  }

  /** Appending one element commutes with adding the constant. */
  lemma ShiftedAppend(s: seq<nat>, x: nat, d: nat)
    ensures Shifted(s + [x], d) == Shifted(s, d) + [x + d]
  {
    assert (s + [x])[..|s|] == s;
  }

  /** No occurrence ends before the pattern fits. */
  lemma {:induction false} EndsBelowShort(t: seq<byte>, p: seq<byte>, m: nat)
    requires m <= |t| && m < |p|
    ensures EndsBelow(t, p, m) == []
  {
    if m > 0 {
      EndsBelowShort(t, p, m - 1);
    }
  }

  /** The ends up to `m` are the starts up to `m - |p|`, moved by `|p|`. */
  lemma {:induction false} EndsBelowStarts(t: seq<byte>, p: seq<byte>, m: nat)
    requires |p| > 0 && m <= |t| && m + 1 >= |p|
    ensures EndsBelow(t, p, m) == Shifted(StartsBelow(t, p, m + 1 - |p|), |p|)
  {
    if m + 1 == |p| {
      EndsBelowShort(t, p, m);
    } else {
      EndsBelowStarts(t, p, m - 1);
      var j := m - |p|;
      var prev, s := EndsBelow(t, p, m - 1), StartsBelow(t, p, j);
      OccursEnds(t, p, j);
      if OccursAt(t, p, j) {
        ShiftedAppend(s, j, |p|);
      } else {
        assert s + [] == s;
        assert prev + [] == prev;
      }
    }
  }

  /** Occurrences are counted with overlaps: "ana" occurs twice in "banana", at 1 and at 3. */
  lemma OverlappingOccurrences()
    ensures Occurrences([98, 97, 110, 97, 110, 97], [97, 110, 97]) == [1, 3]
  {
    var t: seq<byte> := [98, 97, 110, 97, 110, 97];
    var p: seq<byte> := [97, 110, 97];
    assert t[0..3][0] != p[0] && t[2..5][0] != p[0];
    assert t[1..4] == p && t[3..6] == p;
    assert StartsBelow(t, p, 2) == [1];
    assert StartsBelow(t, p, 4) == [1, 3];
  }
}
