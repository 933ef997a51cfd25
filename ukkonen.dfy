/**
 * Ukkonen's automaton for approximate matching (Ukkonen, 1985), after
 * src/algorithms/ukkonen.c. A state is a column of the edit-distance table
 * clamped at `k + 1`; `build_dfa` discovers the states breadth first from
 * the initial column, following all 256 bytes, and keeps them unique through
 * a chained hash table keyed on the column. Scanning walks the automaton one
 * byte at a time and counts every final state it enters.
 *
 * States are indices into the arena of columns, final flags and transition
 * rows that the builder fills; state 0 is the start state. Column entries are
 * unbounded naturals here: the `uint_8` entries of the source wrap for large
 * `k`, which `NextColumnUpToAsWritten` models.
 */
module Ukkonen {
  import opened Types
  import opened EditDistance
  import opened Queues

  const HASH_MASK: nat := 0x1FFF
  const HASH_SIZE: nat := HASH_MASK + 1
  /** Values of a `usize` are taken modulo this. */
  const USIZE_MOD: nat := 0x1_0000_0000_0000_0000

  type Column = seq<nat>

  // ---------------------------------------------------------------- columns

  /** A column of the automaton for `p`: one entry per pattern prefix, none above `k + 1`. */
  ghost predicate IsColumn(col: Column, p: seq<byte>, k: nat) {
    |col| == |p| + 1 && forall i :: 0 <= i < |col| ==> col[i] <= k + 1
  }

  /** `col` is the column after reading `t[..n]`: every entry of the distance column, clamped at `k + 1`. */
  ghost predicate ColumnAfter(col: Column, p: seq<byte>, t: seq<byte>, n: nat, k: nat)
    requires n <= |t|
  {
    |col| == |p| + 1 && forall i :: 0 <= i <= |p| ==> col[i] == Min(Dist(p, t, n, i), k + 1)
  }

  /**
   * The start column of `build_dfa`: entry `i` is `min(i, k + 1)`. It is a
   * column of the automaton, and the start state is final exactly when the
   * whole pattern fits in the edit budget.
   */
  function InitialColumn(p: seq<byte>, k: nat): (col: Column)
    ensures IsColumn(col, p, k)
    ensures col[|p|] <= k <==> |p| <= k
  {
    seq(|p| + 1, i requires 0 <= i <= |p| => Min(i, k + 1))
  }

  /** The entries `0..i` of `next_column(p, prev, k, c)`. */
  function NextColumnUpTo(p: seq<byte>, prev: Column, k: nat, c: byte, i: nat): (col: Column)
    requires |prev| == |p| + 1 && i <= |p|
    ensures |col| == i + 1
  {
    if i == 0 then [0]
    else
      var col := NextColumnUpTo(p, prev, k, c, i - 1);
      col + [Min(prev[i] + 1, Min(col[i - 1] + 1, Min(prev[i - 1] + Diff(p[i - 1], c), k + 1)))]
  }

  /**
   * `next_column(p, prev, k, c)`: the column reached from `prev` by the byte
   * `c`. Whatever `prev` holds, the result is a column of the automaton whose
   * entry 0 is 0.
   */
  function NextColumn(p: seq<byte>, prev: Column, k: nat, c: byte): (col: Column)
    requires |prev| == |p| + 1
    ensures IsColumn(col, p, k) && col[0] == 0
  {
    NextColumnShape(p, prev, k, c, |p|);
    NextColumnUpTo(p, prev, k, c, |p|)
  }

  /** Entry 0 is 0, no entry exceeds `k + 1`, and each entry exceeds the one before by at most 1. */
  lemma {:induction false} NextColumnShape(p: seq<byte>, prev: Column, k: nat, c: byte, i: nat)
    requires |prev| == |p| + 1 && i <= |p|
    ensures NextColumnUpTo(p, prev, k, c, i)[0] == 0
    ensures forall j :: 0 <= j <= i ==> NextColumnUpTo(p, prev, k, c, i)[j] <= k + 1
    ensures forall j :: 0 < j <= i ==> NextColumnUpTo(p, prev, k, c, i)[j] <= NextColumnUpTo(p, prev, k, c, i)[j - 1] + 1
  {
    if i > 0 {
      NextColumnShape(p, prev, k, c, i - 1);
    }
  }

  /** The start column is the clamped distance column of the empty text. */
  lemma InitialColumnAfter(p: seq<byte>, t: seq<byte>, k: nat)
    ensures ColumnAfter(InitialColumn(p, k), p, t, 0, k)
  {
  }

  /** Clamping the three candidates at `m` before taking their minimum changes nothing once the result is clamped too. */
  lemma ClampMin(a: nat, b: nat, c: nat, d: nat, m: nat)
    ensures Min(Min(a, m) + 1, Min(Min(b, m) + 1, Min(Min(c, m) + d, m))) == Min(Min3(a + 1, b + 1, c + d), m)
  {
  }

  /**
   * The clamped recurrence: stepping the clamped column of `t[..n]` by
   * `t[n]` yields the clamped column of `t[..n + 1]`, entry by entry.
   */
  lemma {:induction false} NextColumnUpToAfter(p: seq<byte>, prev: Column, t: seq<byte>, n: nat, k: nat, i: nat)
    requires n < |t| && i <= |p| && ColumnAfter(prev, p, t, n, k)
    ensures forall j :: 0 <= j <= i ==> NextColumnUpTo(p, prev, k, t[n], i)[j] == Min(Dist(p, t, n + 1, j), k + 1)
  {
    if i > 0 {
      NextColumnUpToAfter(p, prev, t, n, k, i - 1);
      var col := NextColumnUpTo(p, prev, k, t[n], i - 1);
      EntryAfter(p, prev, t, n, k, i, col[i - 1]);
      NextColumnUpToStep(p, prev, k, t[n], i, col);
    }
  }

  /** Entry `i` of the recurrence, from the clamped entries around it, is the clamped distance after one more byte. */
  lemma EntryAfter(p: seq<byte>, prev: Column, t: seq<byte>, n: nat, k: nat, i: nat, before: nat)
    requires n < |t| && 0 < i <= |p| && ColumnAfter(prev, p, t, n, k)
    requires before == Min(Dist(p, t, n + 1, i - 1), k + 1)
    ensures Min(prev[i] + 1, Min(before + 1, Min(prev[i - 1] + Diff(p[i - 1], t[n]), k + 1))) == Min(Dist(p, t, n + 1, i), k + 1)
  {
    var a, b, c, d := Dist(p, t, n, i), Dist(p, t, n + 1, i - 1), Dist(p, t, n, i - 1), Diff(p[i - 1], t[n]);
    assert Dist(p, t, n + 1, i) == Min3(a + 1, b + 1, c + d);
    ClampMin(a, b, c, d, k + 1);
  }

  /** `next_column` maps the clamped column of `t[..n]` to that of `t[..n + 1]`. */
  lemma NextColumnAfter(p: seq<byte>, prev: Column, t: seq<byte>, n: nat, k: nat)
    requires n < |t| && ColumnAfter(prev, p, t, n, k)
    ensures ColumnAfter(NextColumn(p, prev, k, t[n]), p, t, n + 1, k)
  {
    NextColumnUpToAfter(p, prev, t, n, k, |p|);
  }

  /** The last entry of the column after `t[..n]` is at most `k` iff a substring ending at `n` is within distance `k`. */
  lemma ColumnAfterFinal(col: Column, p: seq<byte>, t: seq<byte>, n: nat, k: nat)
    requires n <= |t| && ColumnAfter(col, p, t, n, k)
    ensures col[|p|] <= k <==> Dist(p, t, n, |p|) <= k
  {
  }

  /**
   * `next_column` as written, entries `0..i`: the candidates `x`, `y`, `z` and
   * the stored entry are `uint_8`, so each is taken modulo 256.
   */
  function NextColumnUpToAsWritten(p: seq<byte>, prev: Column, k: nat, c: byte, i: nat): (col: Column)
    requires |prev| == |p| + 1 && i <= |p|
    ensures |col| == i + 1
  {
    if i == 0 then [0]
    else
      var col := NextColumnUpToAsWritten(p, prev, k, c, i - 1);
      col + [EntryAsWritten(prev[i], col[i - 1], prev[i - 1], Diff(p[i - 1], c), k)]
  }

  /**
   * One entry of `next_column` as written, from the entry above in `prev`,
   * the entry before in the new column and the diagonal entry: the candidates
   * `x`, `y`, `z` and the result are each cut to a `uint_8`.
   */
  function EntryAsWritten(above: nat, before: nat, diagonal: nat, d: nat, k: nat): nat {
    var x, y, z := Byte(above + 1), Byte(before + 1), Byte(diagonal + d);
    Byte(Min(x, Min(y, Min(z, k + 1))))
  }

  /** The conversion of a non-negative value to `uint_8`: 256 is taken off until it fits. */
  function Byte(x: nat): (r: nat)
    ensures r < 256 && (x < 256 ==> r == x)
  {
    if x < 256 then x else Byte(x - 256)
  }

  /** The conversion keeps the value modulo 256. */
  lemma {:induction false} ByteIsMod(x: nat)
    ensures Byte(x) == x % 256
  {
    if x >= 256 {
      ByteIsMod(x - 256);
    }
  }

  /** Entry `i` of `next_column` extends entries `0..i - 1`, given as `col`, by the recurrence. */
  lemma NextColumnUpToStep(p: seq<byte>, prev: Column, k: nat, c: byte, i: nat, col: Column)
    requires |prev| == |p| + 1 && 0 < i <= |p| && col == NextColumnUpTo(p, prev, k, c, i - 1)
    ensures NextColumnUpTo(p, prev, k, c, i) == col + [Min(prev[i] + 1, Min(col[i - 1] + 1, Min(prev[i - 1] + Diff(p[i - 1], c), k + 1)))]
  {
  }

  /** Entry `i` as written extends entries `0..i - 1` as written, given as `col`. */
  lemma AsWrittenStep(p: seq<byte>, prev: Column, k: nat, c: byte, i: nat, col: Column)
    requires |prev| == |p| + 1 && 0 < i <= |p| && col == NextColumnUpToAsWritten(p, prev, k, c, i - 1)
    ensures NextColumnUpToAsWritten(p, prev, k, c, i) == col + [EntryAsWritten(prev[i], col[i - 1], prev[i - 1], Diff(p[i - 1], c), k)]
  {
  }

  /** One entry as written equals the recurrence's entry when no candidate reaches 256. */
  lemma NoWrapEntry(a: nat, b: nat, c: nat, d: nat, k: nat)
    requires a <= 254 && b <= 254 && c <= 254 && d <= 1 && k <= 253
    ensures EntryAsWritten(a, b, c, d, k) == Min(a + 1, Min(b + 1, Min(c + d, k + 1)))
  {
  }

  /** With `k <= 253` no entry exceeds 254, so nothing wraps and the code computes the recurrence. */
  lemma {:induction false} NoWrapBelow(p: seq<byte>, prev: Column, k: nat, c: byte, i: nat)
    requires IsColumn(prev, p, k) && k <= 253 && i <= |p|
    ensures NextColumnUpToAsWritten(p, prev, k, c, i) == NextColumnUpTo(p, prev, k, c, i)
  {
    if i > 0 {
      NoWrapBelow(p, prev, k, c, i - 1);
      var col := NextColumnUpTo(p, prev, k, c, i - 1);
      assert col[i - 1] <= 254 by {
        NextColumnShape(p, prev, k, c, i - 1);
      }
      assert prev[i] <= 254 && prev[i - 1] <= 254;
      NoWrapEntry(prev[i], col[i - 1], prev[i - 1], Diff(p[i - 1], c), k);
      AsWrittenStep(p, prev, k, c, i, col);
      NextColumnUpToStep(p, prev, k, c, i, col);
    }
  }

  /**
   * The start column as `build_dfa` stores it: each `min(i, k + 1)` is cut to
   * a `uint_8`. Up to `k = 254` nothing is cut and this is the start column.
   */
  function InitialColumnAsWritten(p: seq<byte>, k: nat): (col: Column)
    ensures |col| == |p| + 1
    ensures forall i :: 0 <= i <= |p| ==> col[i] < 256
    ensures k <= 254 ==> col == InitialColumn(p, k)
  {
    seq(|p| + 1, i requires 0 <= i <= |p| => Byte(Min(i, k + 1)))
  }

  /**
   * With `k = 255` the cut reaches the start column: for the pattern of 256
   * zero bytes its last entry is stored as 0 instead of 256, although the
   * start state is created as not final. After the text "\x01" the code's
   * column ends at most at 255 and so is final, although the distance is 256.
   */
  lemma StartWrapAt255()
    ensures var p := seq(256, _ => 0 as byte);
      && InitialColumnAsWritten(p, 255)[256] == 0
      && InitialColumn(p, 255)[256] == 256
      && NextColumnUpToAsWritten(p, InitialColumnAsWritten(p, 255), 255, 1, 256)[256] <= 255
      && Dist(p, [1], 1, 256) == 256
  {
    var p := seq(256, _ => 0 as byte);
    assert Min(256, 256) == 256 && Byte(256) == Byte(0);
    DistForeignByte(p, 1, 256);
  }

  /**
   * With `k = 254` the wrap is already reachable: for the pattern of 255 zero
   * bytes the start column ends in 255, one more byte wraps `x` to 0, and the
   * code reports a match after the text "\x01" although the distance is 255.
   */
  lemma WrapAt254()
    ensures var p := seq(255, _ => 0 as byte);
      && NextColumnUpToAsWritten(p, InitialColumn(p, 254), 254, 1, 255)[255] <= 254
      && NextColumn(p, InitialColumn(p, 254), 254, 1)[255] == 255
      && Dist(p, [1], 1, 255) == 255
  {
    var p := seq(255, _ => 0 as byte);
    var prev := InitialColumn(p, 254);
    assert prev[255] == 255;
    InitialColumnAfter(p, [1], 254);
    NextColumnAfter(p, prev, [1], 0, 254);
    DistForeignByte(p, 1, 255);
  }

  // ------------------------------------------------------------------- hash

  /** The value of `h` in `hash_column` after the first `n` entries: `h = 5 * h + column[i]` in a `usize`. */
  function HashPrefix(col: Column, n: nat): (h: nat)
    requires n <= |col|
    ensures h < USIZE_MOD
  {
    if n == 0 then 0 else (HashPrefix(col, n - 1) * 5 + col[n - 1]) % USIZE_MOD
  }

  /** `hash_column`: the running hash masked with `HASH_MASK`, a bucket index. */
  function HashColumn(col: Column): (h: nat)
    ensures h < HASH_SIZE
  {
    HashPrefix(col, |col|) % HASH_SIZE
  }

  /**
   * The table of `hash_new`/`hash_get`/`hash_add`: `HASH_SIZE` buckets, each
   * the list of states whose column hashes there (the NULL-terminated arrays
   * of the source). The columns themselves live in the builder's arena.
   */
  class StateTable {
    var buckets: array<seq<nat>>

    /** Every stored state is in range and sits in the bucket of its column, and every state is stored. */
    ghost predicate Valid(columns: seq<Column>)
      reads this, buckets
    {
      && buckets.Length == HASH_SIZE
      && (forall h, j :: 0 <= h < HASH_SIZE && 0 <= j < |buckets[h]| ==>
            buckets[h][j] < |columns| && HashColumn(columns[buckets[h][j]]) == h)
      && (forall s :: 0 <= s < |columns| ==> s in buckets[HashColumn(columns[s])])
    }

    /** `hash_new`: every bucket empty. */
    constructor ()
      ensures Valid([]) && fresh(buckets)
    {
      buckets := new seq<nat>[HASH_SIZE](_ => []);
    }

    /**
     * `hash_get`: walk the bucket of `col` and return the first state whose
     * column equals it; NULL only when no state has that column.
     */
    method Get(columns: seq<Column>, col: Column) returns (r: Option<nat>)
      requires Valid(columns)
      ensures r.Some? ==> r.value < |columns| && columns[r.value] == col
      ensures r.None? ==> forall s :: 0 <= s < |columns| ==> columns[s] != col
    {
      var h := HashColumn(col);
      var bucket := buckets[h];
      var j := 0;
      while j < |bucket|
        invariant 0 <= j <= |bucket|
        invariant forall j' :: 0 <= j' < j ==> columns[bucket[j']] != col
      {
        if columns[bucket[j]] == col {
          return Some(bucket[j]);
        }
        j := j + 1;
      }
      forall s | 0 <= s < |columns| ensures columns[s] != col {
        if HashColumn(columns[s]) == h {
          var j' :| 0 <= j' < |bucket| && bucket[j'] == s;
        }
      }
      return None;
    }

    /** `hash_add`: append the newest state to the bucket of its column. */
    method Add(columns: seq<Column>, s: nat)
      requires |columns| == s + 1 && Valid(columns[..s])
      modifies buckets
      ensures Valid(columns)
      ensures buckets[HashColumn(columns[s])] == old(buckets[HashColumn(columns[s])]) + [s]
      ensures forall h :: 0 <= h < HASH_SIZE && h != HashColumn(columns[s]) ==> buckets[h] == old(buckets[h])
    {
      var h := HashColumn(columns[s]);
      buckets[h] := buckets[h] + [s];
      forall s' | 0 <= s' < |columns| ensures s' in buckets[HashColumn(columns[s'])] {
        if s' < s {
          assert columns[s'] == columns[..s][s'];
        }
      }
    }
  }

  // -------------------------------------------------------------- automaton

  /** The automaton `build_dfa` returns: per state its column, whether it is final, and its 256 successors. */
  datatype Dfa = Dfa(columns: seq<Column>, finals: seq<bool>, transitions: seq<seq<nat>>)

  /** The arena invariant: columns of the automaton, final flags that match them, no column twice. */
  ghost predicate Arena(p: seq<byte>, k: nat, columns: seq<Column>, finals: seq<bool>) {
    && |finals| == |columns|
    && (forall s :: 0 <= s < |columns| ==> IsColumn(columns[s], p, k))
    && (forall s :: 0 <= s < |columns| ==> (finals[s] <==> columns[s][|p|] <= k))
    && (forall a, b :: 0 <= a < b < |columns| ==> columns[a] != columns[b])
  }

  /** Entry `c` of `row` is a state whose column `next_column` computes from `prev` and the byte `c`. */
  ghost predicate Targets(p: seq<byte>, k: nat, prev: Column, columns: seq<Column>, row: seq<nat>)
    requires |prev| == |p| + 1 && |row| <= 256
  {
    forall c :: 0 <= c < |row| ==> row[c] < |columns| && columns[row[c]] == NextColumn(p, prev, k, c as byte)
  }

  /** State `s` has all 256 transitions, each to the state of the column `next_column` computes. */
  ghost predicate Expanded(p: seq<byte>, k: nat, columns: seq<Column>, row: seq<nat>, s: nat)
    requires s < |columns| && |columns[s]| == |p| + 1
  {
    |row| == 256 && Targets(p, k, columns[s], columns, row)
  }

  /** Targets stay targets when the arena grows, and one more byte's target extends the row. */
  lemma TargetsExtend(p: seq<byte>, k: nat, prev: Column, columns: seq<Column>, columns': seq<Column>, row: seq<nat>, target: nat)
    requires |prev| == |p| + 1 && |row| < 256
    requires |columns| <= |columns'| && columns'[..|columns|] == columns
    requires Targets(p, k, prev, columns, row)
    requires target < |columns'| && columns'[target] == NextColumn(p, prev, k, |row| as byte)
    ensures Targets(p, k, prev, columns', row + [target])
  {
    forall c | 0 <= c < |row| ensures columns'[row[c]] == columns[row[c]] {
      assert columns'[..|columns|][row[c]] == columns'[row[c]];
    }
  }

  /** What `build_dfa` promises about the automaton. */
  ghost predicate WellFormed(d: Dfa, p: seq<byte>, k: nat) {
    && Arena(p, k, d.columns, d.finals)
    && |d.transitions| == |d.columns|
    && |d.columns| > 0
    && d.columns[0] == InitialColumn(p, k)
    && forall s :: 0 <= s < |d.columns| ==> Expanded(p, k, d.columns, d.transitions[s], s)
  }

  /** The state indices `lo, lo + 1, ..., hi - 1`. */
  function Range(lo: nat, hi: nat): (r: seq<nat>)
    requires lo <= hi
    ensures |r| == hi - lo
  {
    seq(hi - lo, i requires 0 <= i < hi - lo => lo + i)
  }

  /** Taking the first state off the range leaves the range above it. */
  lemma RangeTail(lo: nat, hi: nat)
    requires lo < hi
    ensures Range(lo, hi)[0] == lo && Range(lo, hi)[1..] == Range(lo + 1, hi)
  {
  }

  /** Adding the next state to the range puts it at the end. */
  lemma RangeAppend(lo: nat, hi: nat)
    requires lo <= hi
    ensures Range(lo, hi + 1) == Range(lo, hi) + [hi]
  {
  }

  /** Every sequence of `n` entries at most `m`. */
  ghost function Cols(n: nat, m: nat): set<Column> {
    if n == 0 then {[]} else set c, x | c in Cols(n - 1, m) && 0 <= x <= m :: c + [x]
  }

  lemma {:induction false} ColsMember(col: Column, m: nat)
    requires forall i :: 0 <= i < |col| ==> col[i] <= m
    ensures col in Cols(|col|, m)
  {
    if |col| > 0 {
      var n := |col| - 1;
      ColsMember(col[..n], m);
      assert col == col[..n] + [col[n]];
    }
  }

  /** The columns the arena holds, as a set. */
  ghost function Stored(columns: seq<Column>): set<Column> {
    set s | 0 <= s < |columns| :: columns[s]
  }

  /** Distinct columns make a set of the same size. */
  lemma {:induction false} StoredSize(columns: seq<Column>)
    requires forall a, b :: 0 <= a < b < |columns| ==> columns[a] != columns[b]
    ensures |Stored(columns)| == |columns|
  {
    if |columns| > 0 {
      var n := |columns| - 1;
      var front := columns[..n];
      StoredSize(front);
      assert Stored(columns) == Stored(front) + {columns[n]} by {
        forall x | x in Stored(columns) ensures x in Stored(front) + {columns[n]} {
          var s :| 0 <= s < |columns| && columns[s] == x;
          if s < n {
            assert front[s] == x;
          }
        }
      }
      assert columns[n] !in Stored(front);
    }
  }

  /**
   * The arena never holds more states than there are columns of the
   * automaton: its columns are distinct and each is one of `Cols(|p| + 1, k + 1)`.
   * So the breadth-first search ends.
   */
  lemma ArenaBound(p: seq<byte>, k: nat, columns: seq<Column>, finals: seq<bool>)
    requires Arena(p, k, columns, finals)
    ensures |columns| <= |Cols(|p| + 1, k + 1)|
  {
    var all, stored := Cols(|p| + 1, k + 1), Stored(columns);
    StoredSize(columns);
    forall x | x in stored ensures x in all {
      var s :| 0 <= s < |columns| && columns[s] == x;
      assert IsColumn(x, p, k);
      ColsMember(x, k + 1);
    }
    assert all == stored + (all - stored);
  }

  /** A column not stored yet can join the arena with its final flag. */
  lemma ArenaAppend(p: seq<byte>, k: nat, columns: seq<Column>, finals: seq<bool>, col: Column)
    requires Arena(p, k, columns, finals)
    requires IsColumn(col, p, k) && forall s :: 0 <= s < |columns| ==> columns[s] != col
    ensures Arena(p, k, columns + [col], finals + [col[|p|] <= k])
  {
  }

  /**
   * The branch of `build_dfa` for a column not seen before: a new state
   * (final iff the column's last entry is at most `k`) is stored in the hash
   * table and pushed onto the queue.
   */
  method AddState(p: seq<byte>, k: nat, table: StateTable, q: Queue, col: Column,
                  columns0: seq<Column>, finals0: seq<bool>, ghost done: nat)
    returns (columns: seq<Column>, finals: seq<bool>)
    requires Arena(p, k, columns0, finals0) && done <= |columns0|
    requires IsColumn(col, p, k) && forall s :: 0 <= s < |columns0| ==> columns0[s] != col
    requires table.Valid(columns0) && q.Valid() && q.Contents == Range(done, |columns0|)
    requires table !in q.Repr && table.buckets !in q.Repr
    modifies table.buckets, q.Repr
    ensures columns == columns0 + [col] && finals == finals0 + [col[|p|] <= k]
    ensures Arena(p, k, columns, finals)
    ensures table.Valid(columns) && q.Valid() && q.Contents == Range(done, |columns|)
    ensures fresh(q.Repr - old(q.Repr))
  {
    var t := |columns0|;
    ArenaAppend(p, k, columns0, finals0, col);
    columns := columns0 + [col];
    finals := finals0 + [col[|p|] <= k];
    assert columns[..t] == columns0;
    table.Add(columns, t);
    var head := Queue.Push(q, t);
    RangeAppend(done, t);
  }

  /**
   * The body of the inner loop of `build_dfa` for the dequeued state `s` and
   * the byte `c`: compute the next column, look it up, add a state when it
   * is new, and return the state it belongs to.
   */
  method Successor(p: seq<byte>, k: nat, s: nat, c: byte, table: StateTable, q: Queue,
                   columns0: seq<Column>, finals0: seq<bool>, ghost done: nat)
    returns (target: nat, columns: seq<Column>, finals: seq<bool>)
    requires Arena(p, k, columns0, finals0) && s < |columns0| && done <= |columns0|
    requires table.Valid(columns0) && q.Valid() && q.Contents == Range(done, |columns0|)
    requires table !in q.Repr && table.buckets !in q.Repr
    modifies table.buckets, q.Repr
    ensures Arena(p, k, columns, finals)
    ensures columns == columns0 || columns == columns0 + [NextColumn(p, columns0[s], k, c)]
    ensures target < |columns| && columns[target] == NextColumn(p, columns0[s], k, c)
    ensures table.Valid(columns) && q.Valid() && q.Contents == Range(done, |columns|)
    ensures fresh(q.Repr - old(q.Repr))
  {
    var col := NextColumn(p, columns0[s], k, c);
    var found := table.Get(columns0, col);
    if found.None? {
      target := |columns0|;
      columns, finals := AddState(p, k, table, q, col, columns0, finals0, done);
    } else {
      target := found.value;
      columns, finals := columns0, finals0;
    }
  }

  /**
   * The inner loop of `build_dfa` for the dequeued state `s`: the successor
   * of `s` for every byte, recorded in its row of transitions.
   */
  method ExpandState(p: seq<byte>, k: nat, s: nat, table: StateTable, q: Queue,
                     columns0: seq<Column>, finals0: seq<bool>, ghost done: nat)
    returns (columns: seq<Column>, finals: seq<bool>, row: seq<nat>)
    requires Arena(p, k, columns0, finals0) && s < |columns0| && done <= |columns0|
    requires table.Valid(columns0) && q.Valid() && q.Contents == Range(done, |columns0|)
    requires table !in q.Repr && table.buckets !in q.Repr
    modifies table.buckets, q.Repr
    ensures Arena(p, k, columns, finals)
    ensures |columns| >= |columns0| && columns[..|columns0|] == columns0
    ensures Expanded(p, k, columns, row, s)
    ensures table.Valid(columns) && q.Valid() && q.Contents == Range(done, |columns|)
    ensures table !in q.Repr && table.buckets !in q.Repr && fresh(q.Repr - old(q.Repr))
  {
    columns, finals := columns0, finals0;
    row := [];
    var c := 0;
    while c < 256
      invariant 0 <= c <= 256 && |row| == c
      invariant Arena(p, k, columns, finals)
      invariant |columns| >= |columns0| && columns[..|columns0|] == columns0
      invariant table.Valid(columns) && q.Valid() && q.Contents == Range(done, |columns|)
      invariant table !in q.Repr && table.buckets !in q.Repr
      invariant fresh(q.Repr - old(q.Repr))
      invariant Targets(p, k, columns0[s], columns, row)
    {
      ghost var before := columns;
      columns, finals, row := ExpandByte(p, k, s, c as byte, table, q, columns, finals, row, done, columns0[s]);
      PrefixTrans(columns0, before, columns);
      c := c + 1;
    }
  }

  /** A prefix of a prefix is a prefix. */
  lemma PrefixTrans(a: seq<Column>, b: seq<Column>, c: seq<Column>)
    requires |a| <= |b| <= |c| && b[..|a|] == a && c[..|b|] == b
    ensures c[..|a|] == a
  {
    assert c[..|a|] == c[..|b|][..|a|];
  }

  /**
   * One pass of the inner loop of `build_dfa`: the successor of state `s`
   * for the byte `c`, appended to its row.
   */
  method ExpandByte(p: seq<byte>, k: nat, s: nat, c: byte, table: StateTable, q: Queue,
                    columns0: seq<Column>, finals0: seq<bool>, row0: seq<nat>, ghost done: nat, ghost prev: Column)
    returns (columns: seq<Column>, finals: seq<bool>, row: seq<nat>)
    requires Arena(p, k, columns0, finals0) && s < |columns0| && done <= |columns0|
    requires prev == columns0[s] && |row0| == c as nat && Targets(p, k, prev, columns0, row0)
    requires table.Valid(columns0) && q.Valid() && q.Contents == Range(done, |columns0|)
    requires table !in q.Repr && table.buckets !in q.Repr
    modifies table.buckets, q.Repr
    ensures Arena(p, k, columns, finals)
    ensures |columns| >= |columns0| && columns[..|columns0|] == columns0
    ensures |row| == |row0| + 1 && Targets(p, k, prev, columns, row)
    ensures table.Valid(columns) && q.Valid() && q.Contents == Range(done, |columns|)
    ensures table !in q.Repr && table.buckets !in q.Repr && fresh(q.Repr - old(q.Repr))
  {
    var target;
    target, columns, finals := Successor(p, k, s, c, table, q, columns0, finals0, done);
    assert columns[..|columns0|] == columns0;
    TargetsExtend(p, k, prev, columns0, columns, row0, target);
    row := row0 + [target];
  }

  /** An expanded state stays expanded when the arena grows: its targets keep their columns. */
  lemma ExpandedGrows(p: seq<byte>, k: nat, columns: seq<Column>, columns': seq<Column>, row: seq<nat>, s: nat)
    requires s < |columns| <= |columns'| && columns'[..|columns|] == columns && |columns[s]| == |p| + 1
    requires Expanded(p, k, columns, row, s)
    ensures Expanded(p, k, columns', row, s)
  {
    assert columns'[s] == columns'[..|columns|][s];
    forall c | 0 <= c < 256 ensures columns'[row[c]] == columns[row[c]] {
      assert columns'[..|columns|][row[c]] == columns'[row[c]];
    }
  }

  /** The loop of `build_dfa` that fills the start column: entry `i` is `min(i, k + 1)`. */
  method StartColumn(p: seq<byte>, k: nat) returns (col: Column)
    ensures col == InitialColumn(p, k)
  {
    var column := new nat[|p| + 1];
    var i := 0;
    while i < |p| + 1
      invariant 0 <= i <= |p| + 1
      invariant forall j :: 0 <= j < i ==> column[j] == Min(j, k + 1)
    {
      column[i] := Min(i, k + 1);
      i := i + 1;
    }
    col := column[..];
  }

  /**
   * One round of the outer loop of `build_dfa`: expand the dequeued state
   * `done`, record its row, and pop the next state off the queue.
   */
  method ExpandNext(p: seq<byte>, k: nat, table: StateTable, q: Queue,
                    columns0: seq<Column>, finals0: seq<bool>, transitions0: seq<seq<nat>>, s: nat)
    returns (columns: seq<Column>, finals: seq<bool>, transitions: seq<seq<nat>>, next: Option<nat>)
    requires Arena(p, k, columns0, finals0) && |transitions0| == |columns0| && s < |columns0|
    requires forall s' :: 0 <= s' < s ==> Expanded(p, k, columns0, transitions0[s'], s')
    requires table.Valid(columns0) && Pending(q, table, s + 1, |columns0|)
    modifies table.buckets, q.Repr
    ensures Arena(p, k, columns, finals) && |transitions| == |columns|
    ensures |columns0| <= |columns| <= |Cols(|p| + 1, k + 1)| && columns[0] == columns0[0]
    ensures forall s' :: 0 <= s' <= s ==> Expanded(p, k, columns, transitions[s'], s')
    ensures table.Valid(columns)
    ensures next.None? ==> s + 1 == |columns|
    ensures next.Some? ==>
      && next.value == s + 1 < |columns|
      && Pending(q, table, s + 2, |columns|) && fresh(q.Repr - old(q.Repr))
  {
    var row;
    columns, finals, row := ExpandState(p, k, s, table, q, columns0, finals0, s + 1);
    transitions := transitions0[s := row] + seq(|columns| - |columns0|, _ => []);
    ExpandedAfterRow(p, k, columns0, columns, transitions0, row, transitions, s);
    ArenaBound(p, k, columns, finals);
    assert columns[0] == columns[..|columns0|][0];
    next := PopNext(q, s, |columns|);
  }

  /** The rows expanded before `s` keep their meaning as the arena grows, and `row` is that of `s`. */
  lemma ExpandedAfterRow(p: seq<byte>, k: nat, columns0: seq<Column>, columns: seq<Column>,
                         transitions0: seq<seq<nat>>, row: seq<nat>, transitions: seq<seq<nat>>, s: nat)
    requires s < |columns0| == |transitions0| <= |columns| && columns[..|columns0|] == columns0
    requires forall i :: 0 <= i < |columns0| ==> |columns0[i]| == |p| + 1
    requires forall s' :: 0 <= s' < s ==> Expanded(p, k, columns0, transitions0[s'], s')
    requires Expanded(p, k, columns, row, s)
    requires transitions == transitions0[s := row] + seq(|columns| - |columns0|, _ => [])
    ensures forall s' :: 0 <= s' <= s ==> Expanded(p, k, columns, transitions[s'], s')
  {
    forall s' | 0 <= s' <= s ensures Expanded(p, k, columns, transitions[s'], s') {
      if s' < s {
        assert transitions[s'] == transitions0[s'];
        ExpandedGrows(p, k, columns0, columns, transitions0[s'], s');
      } else {
        assert transitions[s'] == row;
      }
    }
  }

  /** The pop that ends a round of `build_dfa`: the next state in line, if any. */
  method PopNext(q: Queue, s: nat, n: nat) returns (next: Option<nat>)
    requires s < n && q.Valid() && q.Contents == Range(s + 1, n)
    modifies q.Repr
    ensures next.None? ==> s + 1 == n
    ensures next.Some? ==> next.value == s + 1 < n && q.Valid() && q.Contents == Range(s + 2, n)
    ensures next.Some? ==> q.Repr <= old(q.Repr)
  {
    if s + 1 < n {
      RangeTail(s + 1, n);
    }
    ghost var pending := q.Contents;
    assert |pending| == n - (s + 1);
    next := q.Pop();
    assert next.None? ==> pending == [];
  }

  /** The queue holds the states `lo..hi - 1` still to expand, apart from the hash table. */
  ghost predicate Pending(q: Queue, table: StateTable, lo: nat, hi: nat)
    reads q, q.Repr, table
  {
    lo <= hi && q.Valid() && q.Contents == Range(lo, hi) && table !in q.Repr && table.buckets !in q.Repr
  }

  /**
   * The set-up of `build_dfa`: the start state with the start column, stored
   * in a fresh hash table, pushed onto a fresh queue and popped off again.
   */
  method Seed(p: seq<byte>, k: nat)
    returns (table: StateTable, q: Queue, columns: seq<Column>, finals: seq<bool>, next: Option<nat>)
    ensures columns == [InitialColumn(p, k)] && finals == [|p| <= k]
    ensures Arena(p, k, columns, finals)
    ensures fresh(table) && fresh(table.buckets) && table.Valid(columns)
    ensures next == Some(0) && Pending(q, table, 1, 1) && fresh(q.Repr)
  {
    table := new StateTable();
    var start := StartColumn(p, k);
    InitialColumnAfter(p, [], k);
    columns, finals := [start], [start[|p|] <= k];
    table.Add(columns, 0);
    q := Queue.Push(null, 0);
    next := q.Pop();
  }

  /**
   * `build_dfa`: store the start state, then pop states off the queue and
   * expand each for all 256 bytes, creating a state for every column not yet
   * stored, until the queue is empty. Every state reachable from the start is
   * created once and fully expanded.
   */
  method BuildDfa(p: seq<byte>, k: nat) returns (d: Dfa)
    ensures WellFormed(d, p, k)
  {
    var table, q, columns, finals, next := Seed(p, k);
    var transitions: seq<seq<nat>> := [[]];
    ghost var done := 0;
    ghost var bound := |Cols(|p| + 1, k + 1)|;
    ArenaBound(p, k, columns, finals);
    while next.Some?
      invariant Arena(p, k, columns, finals) && |transitions| == |columns|
      invariant 0 < |columns| && columns[0] == InitialColumn(p, k)
      invariant fresh(table) && fresh(table.buckets) && table.Valid(columns)
      invariant done <= |columns| <= bound
      invariant forall s :: 0 <= s < done ==> Expanded(p, k, columns, transitions[s], s)
      invariant next.None? ==> done == |columns|
      invariant next.Some? ==>
        && next.value == done < |columns|
        && Pending(q, table, done + 1, |columns|) && fresh(q.Repr)
      decreases bound - |columns|, |columns| - done
    {
      columns, finals, transitions, next := ExpandNext(p, k, table, q, columns, finals, transitions, next.value);
      done := done + 1;
    }
    d := Dfa(columns, finals, transitions);
  }

  // ------------------------------------------------------------------- scan

  /**
   * The inner loop of `run_ukkonen` over one read: follow the transition of
   * every byte and count the final states entered. The state stands for the
   * clamped distance column of all the text read so far.
   */
  method ScanBuffer(d: Dfa, buffer: seq<byte>, p: seq<byte>, k: nat, s0: nat, ghost t: seq<byte>, base: nat, count0: nat)
    returns (s: nat, count: nat)
    requires WellFormed(d, p, k) && s0 < |d.columns|
    requires base + |buffer| <= |t| && t[base..base + |buffer|] == buffer
    requires ColumnAfter(d.columns[s0], p, t, base, k)
    requires count0 == |ApproxEndsBelow(t, p, k, base)|
    ensures s < |d.columns| && ColumnAfter(d.columns[s], p, t, base + |buffer|, k)
    ensures count == |ApproxEndsBelow(t, p, k, base + |buffer|)|
  {
    s, count := s0, count0;
    var i := 0;
    while i < |buffer|
      invariant 0 <= i <= |buffer| && s < |d.columns|
      invariant ColumnAfter(d.columns[s], p, t, base + i, k)
      invariant count == |ApproxEndsBelow(t, p, k, base + i)|
    {
      assert t[base + i] == buffer[i] by {
        assert t[base..base + |buffer|][i] == buffer[i];
      }
      TransitionAfter(d, p, k, s, t, base + i);
      s := d.transitions[s][buffer[i]];
      if d.finals[s] {
        count := count + 1;
      }
      i := i + 1;
    }
  }

  /**
   * One transition of the automaton: from the state of the column after
   * `t[..n]`, the byte `t[n]` leads to the state of the column after
   * `t[..n + 1]`, which is final iff an approximate match ends at `n + 1`.
   */
  lemma TransitionAfter(d: Dfa, p: seq<byte>, k: nat, s: nat, t: seq<byte>, n: nat)
    requires WellFormed(d, p, k) && s < |d.columns| && n < |t|
    requires ColumnAfter(d.columns[s], p, t, n, k)
    ensures d.transitions[s][t[n]] < |d.columns|
    ensures ColumnAfter(d.columns[d.transitions[s][t[n]]], p, t, n + 1, k)
    ensures d.finals[d.transitions[s][t[n]]] <==> Dist(p, t, n + 1, |p|) <= k
    ensures |ApproxEndsBelow(t, p, k, n + 1)| == |ApproxEndsBelow(t, p, k, n)| + (if d.finals[d.transitions[s][t[n]]] then 1 else 0)
  {
    assert Expanded(p, k, d.columns, d.transitions[s], s);
    NextColumnAfter(p, d.columns[s], t, n, k);
    ColumnAfterFinal(d.columns[d.transitions[s][t[n]]], p, t, n + 1, k);
    ApproxEndsBelowCount(t, p, k, n);
  }


  /**
   * `run_ukkonen` over the reads `chunks` of one file, starting in the start
   * state: a match is counted wherever some substring ending there is within
   * distance `k` of the pattern. Line mode calls a stub that prints nothing.
   */
  method RunUkkonen(d: Dfa, chunks: seq<seq<byte>>, p: seq<byte>, k: nat) returns (count: nat)
    requires WellFormed(d, p, k)
    ensures count == |ApproxEnds(Flatten(chunks), p, k)|
  {
    ghost var t := Flatten(chunks);
    InitialColumnAfter(p, t, k);
    var s: nat := 0;
    var totalRead := 0;
    count := 0;
    var r := 0;
    while r < |chunks|
      invariant 0 <= r <= |chunks|
      invariant totalRead == |Flatten(chunks[..r])| <= |t|
      invariant s < |d.columns| && ColumnAfter(d.columns[s], p, t, totalRead, k)
      invariant count == |ApproxEndsBelow(t, p, k, totalRead)|
    {
      var buffer := chunks[r];
      ReadAt(chunks, r);
      s, count := ScanBuffer(d, buffer, p, k, s, t, totalRead, count);
      FlattenPrefix(chunks, r);
      totalRead := totalRead + |buffer|;
      r := r + 1;
    }
    FlattenAll(chunks);
  }

  // ----------------------------------------------------------------- search

  /** The approximate matches of `p` over the first `n` files, summed. */
  ghost function FilesMatches(files: seq<seq<byte>>, p: seq<byte>, k: nat, n: nat): nat
    requires n <= |files|
  {
    if n == 0 then 0 else FilesMatches(files, p, k, n - 1) + |ApproxEnds(files[n - 1], p, k)|
  }

  /** Whether `ukkonen_search` searches for `p`: it is longer than the edit distance. */
  predicate Searched(p: seq<byte>, k: nat) {
    k < |p|
  }

  /** What `ukkonen_search` adds up over the first `n` patterns: nothing for a skipped pattern. */
  ghost function ExpectedTotal(files: seq<seq<byte>>, patterns: seq<seq<byte>>, k: nat, n: nat): nat
    requires n <= |patterns|
  {
    if n == 0 then 0
    else ExpectedTotal(files, patterns, k, n - 1) + (if Searched(patterns[n - 1], k) then FilesMatches(files, patterns[n - 1], k, |files|) else 0)
  }

  /** The warnings `ukkonen_search` logs for the first `n` patterns: one per pattern no longer than `k`, numbered from 1 in order. */
  function SkipWarnings(patterns: seq<seq<byte>>, k: nat, n: nat): (w: seq<Warning>)
    requires n <= |patterns|
    ensures |w| <= n
    ensures forall m :: 0 <= m < |w| ==> w[m].reason == EditTooLarge && 0 < w[m].patternNumber <= n
    ensures forall a, b :: 0 <= a < b < |w| ==> w[a].patternNumber < w[b].patternNumber
    ensures forall number {:trigger Warned(w, number)} :: 0 < number <= n ==> (Warned(w, number) <==> !Searched(patterns[number - 1], k))
  {
    if n == 0 then []
    else
      var prev := SkipWarnings(patterns, k, n - 1);
      assert !Warned(prev, n);
      if k >= |patterns[n - 1]| then WarnedAppend(prev, Skipped(n, EditTooLarge)); prev + [Skipped(n, EditTooLarge)]
      else prev
  }

  /** No match over the first `n` files iff none of them holds an approximate occurrence. */
  lemma {:induction false} FilesMatchesZero(files: seq<seq<byte>>, p: seq<byte>, k: nat, n: nat)
    requires n <= |files|
    ensures FilesMatches(files, p, k, n) == 0 <==> forall j :: 0 <= j < n ==> ApproxEnds(files[j], p, k) == []
  {
    if n > 0 {
      FilesMatchesZero(files, p, k, n - 1);
    }
  }

  /** The total is zero iff no pattern that is searched has an approximate occurrence in any file. */
  lemma {:induction false} ExpectedTotalZero(files: seq<seq<byte>>, patterns: seq<seq<byte>>, k: nat, n: nat)
    requires n <= |patterns|
    ensures ExpectedTotal(files, patterns, k, n) == 0 <==>
      forall i, j :: 0 <= i < n && 0 <= j < |files| && Searched(patterns[i], k) ==> ApproxEnds(files[j], patterns[i], k) == []
  {
    if n > 0 {
      ExpectedTotalZero(files, patterns, k, n - 1);
      FilesMatchesZero(files, patterns[n - 1], k, |files|);
    }
  }

  /**
   * `ukkonen_search`: refuse only-matching mode; otherwise build the
   * automaton of every pattern whose length exceeds the edit distance, run it
   * over every file, print the total in count mode, and report matches iff
   * the total is positive. Each file is read in pieces of `BUFFER_SIZE`.
   */
  method UkkonenSearch(ctx: SearchContext) returns (r: SearchResult)
    ensures ctx.onlyMatching ==> r == SearchResult(Mistake, 0, [], [])
    ensures !ctx.onlyMatching ==>
      && r.total == ExpectedTotal(ctx.files, ctx.patterns, ctx.editDistance, |ctx.patterns|)
      && r.code == Outcome(r.total)
      && r.output == CountOutput(ctx.onlyCount, r.total)
      && r.warnings == SkipWarnings(ctx.patterns, ctx.editDistance, |ctx.patterns|)
  {
    if ctx.onlyMatching {
      return SearchResult(Mistake, 0, [], []);
    }
    var k := ctx.editDistance;
    var total := 0;
    var warnings := [];
    var i := 0;
    while i < |ctx.patterns|
      invariant 0 <= i <= |ctx.patterns|
      invariant total == ExpectedTotal(ctx.files, ctx.patterns, k, i)
      invariant warnings == SkipWarnings(ctx.patterns, k, i)
    {
      var p := ctx.patterns[i];
      if k >= |p| {
        warnings := warnings + [Skipped(i + 1, EditTooLarge)];
      } else {
        var d := BuildDfa(p, k);
        var j := 0;
        ghost var before := total;
        while j < |ctx.files|
          invariant 0 <= j <= |ctx.files|
          invariant total == before + FilesMatches(ctx.files, p, k, j)
        {
          var chunks := Chunked(ctx.files[j], BUFFER_SIZE);
          var count := RunUkkonen(d, chunks, p, k);
          total := total + count;
          j := j + 1;
        }
      }
      i := i + 1;
    }
    r := SearchResult(Outcome(total), total, CountOutput(ctx.onlyCount, total), warnings);
  }
}
