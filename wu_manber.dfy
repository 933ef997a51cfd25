/**
 * Wu-Manber approximate matching (Wu and Manber, 1992), after
 * src/algorithms/wu_manber.c. Row `j` of the state holds, in bit `i`, a 0
 * exactly when the first `i + 1` pattern bytes are within edit distance `j`
 * of some substring ending at the current text position; the pattern
 * matches when bit `|p| - 1` of row `k` is 0. The rows of the previous byte
 * and of the current byte live in two arrays that are swapped after every
 * byte. Row 0 is the Shift-Or state.
 */
module WuManber {
  import opened Types
  import opened Bits
  import opened Text
  import opened EditDistance
  import opened ShiftOr

  /** Row 0 after a byte whose mask is `m`: the Shift-Or step restricted to the pattern bits. */
  function FirstRow(prev0: Word, m: Word, all: Word): Word {
    Or(And(Shl(prev0, 1), all), m)
  }

  /**
   * Row `j > 0` after the byte: a match extended by the byte, or a
   * substitution, a deletion or an insertion on top of row `j - 1`.
   */
  function NextRow(prevJ: Word, prevBelow: Word, curBelow: Word, m: Word, all: Word): Word {
    And(And(And(Or(And(Shl(prevJ, 1), all), m), And(Shl(prevBelow, 1), all)), And(Shl(curBelow, 1), all)), prevBelow)
  }

  /** The first `j` rows computed from the previous rows `prev` and the byte's mask. */
  function StepRows(prev: seq<Word>, m: Word, all: Word, j: nat): (rows: seq<Word>)
    requires 1 <= j <= |prev|
    ensures |rows| == j
  {
    if j == 1 then [FirstRow(prev[0], m, all)]
    else
      var below := StepRows(prev, m, all, j - 1);
      below + [NextRow(prev[j - 1], prev[j - 2], below[j - 2], m, all)]
  }

  /** Bit `i` of row `j` is 0 iff `p[..i + 1]` is within distance `j` of a substring ending at `n`. */
  ghost predicate RowsMeaning(rows: seq<Word>, p: seq<byte>, t: seq<byte>, n: nat)
    requires |p| <= W && n <= |t|
  {
    forall j, i :: 0 <= j < |rows| && 0 <= i < |p| ==> (!rows[j][i] <==> Dist(p, t, n, i + 1) <= j)
  }

  /** No row has a bit set at or above `|p|`. */
  ghost predicate WithinMask(rows: seq<Word>, p: seq<byte>) {
    forall j, i :: 0 <= j < |rows| && |p| <= i < W ==> !rows[j][i]
  }

  /** Every zero bit of a row is a zero bit of every row above it. */
  ghost predicate Monotone(rows: seq<Word>) {
    forall j1, j2, i :: 0 <= j1 <= j2 < |rows| && 0 <= i < W ==> (!rows[j1][i] ==> !rows[j2][i])
  }

  /** The rows the code starts from when all `k + 1` are set up: row `j` is the low-bits mask shifted by `j`. */
  function InitialRows(p: seq<byte>, k: nat): (rows: seq<Word>)
    requires k < |p| <= W
    ensures |rows| == k + 1
  {
    seq(k + 1, j requires 0 <= j <= k => Shl(BitMask(|p|), j))
  }

  /** Before any byte, row `j` says that `p[..i + 1]` is within distance `j` of the empty text iff `i < j`. */
  lemma InitialRowsMeaning(p: seq<byte>, t: seq<byte>, k: nat)
    requires k < |p| <= W
    ensures RowsMeaning(InitialRows(p, k), p, t, 0)
  {
  }

  /** The Levenshtein recurrence for entry `i + 1` after byte `n`, spelled out. */
  lemma DistStep(p: seq<byte>, t: seq<byte>, n: nat, i: nat, j: nat)
    requires i < |p| && n < |t|
    ensures Dist(p, t, n + 1, i + 1) <= j <==>
      Dist(p, t, n, i) + Diff(p[i], t[n]) <= j
      || Dist(p, t, n, i + 1) + 1 <= j
      || Dist(p, t, n + 1, i) + 1 <= j
  {
  }

  /** Bit `i` of row 0 after byte `n`: the exact match of `p[..i + 1]` ending there. */
  lemma FirstRowBit(prev: seq<Word>, p: seq<byte>, t: seq<byte>, n: nat, i: nat)
    requires 0 < |p| <= W && n < |t| && |prev| >= 1 && i < |p|
    requires RowsMeaning(prev, p, t, n)
    ensures !FirstRow(prev[0], CharMask(p, t[n]), BitMask(|p|))[i] <==> Dist(p, t, n + 1, i + 1) <= 0
  {
    DistStep(p, t, n, i, 0);
    if i > 0 {
      assert !prev[0][i - 1] <==> Dist(p, t, n, i) <= 0;
    }
  }

  /** Bit `i` of row `j > 0` after byte `n`, from the rows before the byte and row `j - 1` after it. */
  lemma NextRowBit(prev: seq<Word>, below: Word, p: seq<byte>, t: seq<byte>, n: nat, j: nat, i: nat)
    requires 0 < |p| <= W && n < |t| && 0 < j < |prev| && i < |p|
    requires RowsMeaning(prev, p, t, n)
    requires forall i' :: 0 <= i' < |p| ==> (!below[i'] <==> Dist(p, t, n + 1, i' + 1) <= j - 1)
    ensures !NextRow(prev[j], prev[j - 1], below, CharMask(p, t[n]), BitMask(|p|))[i] <==> Dist(p, t, n + 1, i + 1) <= j
  {
    DistStep(p, t, n, i, j);
    assert !prev[j - 1][i] <==> Dist(p, t, n, i + 1) <= j - 1;
    if i > 0 {
      assert !prev[j][i - 1] <==> Dist(p, t, n, i) <= j;
      assert !prev[j - 1][i - 1] <==> Dist(p, t, n, i) <= j - 1;
      assert !below[i - 1] <==> Dist(p, t, n + 1, i) <= j - 1;
    }
  }

  /** One byte keeps the meaning of every row and leaves no bit set above the pattern. */
  lemma {:induction false} StepRowsMeaning(prev: seq<Word>, p: seq<byte>, t: seq<byte>, n: nat, j: nat)
    requires 0 < |p| <= W && n < |t| && 1 <= j <= |prev|
    requires RowsMeaning(prev, p, t, n)
    ensures RowsMeaning(StepRows(prev, CharMask(p, t[n]), BitMask(|p|), j), p, t, n + 1)
    ensures WithinMask(StepRows(prev, CharMask(p, t[n]), BitMask(|p|), j), p)
  {
    var m, all := CharMask(p, t[n]), BitMask(|p|);
    var rows := StepRows(prev, m, all, j);
    if j == 1 {
      forall i | 0 <= i < |p| ensures !rows[0][i] <==> Dist(p, t, n + 1, i + 1) <= 0 {
        FirstRowBit(prev, p, t, n, i);
      }
    } else {
      StepRowsMeaning(prev, p, t, n, j - 1);
      var below := StepRows(prev, m, all, j - 1);
      assert rows == below + [NextRow(prev[j - 1], prev[j - 2], below[j - 2], m, all)];
      var top := rows[j - 1];
      forall i | 0 <= i < |p| ensures !top[i] <==> Dist(p, t, n + 1, i + 1) <= j - 1 {
        NextRowBit(prev, below[j - 2], p, t, n, j - 1, i);
      }
    }
  }

  /** Rows that mean something and stay within the mask are monotone in the error count. */
  lemma MeaningMonotone(rows: seq<Word>, p: seq<byte>, t: seq<byte>, n: nat)
    requires |p| <= W && n <= |t|
    requires RowsMeaning(rows, p, t, n) && WithinMask(rows, p)
    ensures Monotone(rows)
  {
  }

  /** Bit `|p| - 1` of row `k` is 0 iff a substring ending at `n` is within distance `k` of the pattern. */
  lemma RowMatch(rows: seq<Word>, p: seq<byte>, t: seq<byte>, n: nat, k: nat)
    requires 0 < |p| <= W && n <= |t| && k < |rows|
    requires RowsMeaning(rows, p, t, n)
    ensures !IsSet(rows[k], |p| - 1) <==> Dist(p, t, n, |p|) <= k
  {
  }

  /** With no errors allowed, row 0 reports exactly what Shift-Or reports. */
  lemma ExactIsShiftOr(t: seq<byte>, p: seq<byte>)
    ensures ApproxEnds(t, p, 0) == Ends(t, p)
  {
    ApproxEndsExact(t, p, |t|);
  }

  /** Row 0 and the Shift-Or word agree on every pattern bit after the same step. */
  lemma FirstRowIsShiftOrStep(s: Word, m: Word, p: seq<byte>, i: nat)
    requires |p| <= W && i < |p|
    ensures FirstRow(s, m, BitMask(|p|))[i] == Or(Shl(s, 1), m)[i]
  {
  }

  /**
   * The innermost loop of `run_wu_manber`: compute the `k + 1` rows for one
   * byte into `cur` from the rows of the previous byte in `prev`.
   */
  method UpdateRows(cur: array<Word>, prev: array<Word>, m: Word, all: Word)
    requires cur != prev && cur.Length == prev.Length >= 1
    modifies cur
    ensures cur[..] == StepRows(prev[..], m, all, prev.Length)
  {
    cur[0] := Or(And(Shl(prev[0], 1), all), m);
    var j := 1;
    while j < cur.Length
      invariant 1 <= j <= cur.Length
      invariant cur[..j] == StepRows(prev[..], m, all, j)
    {
      cur[j] := And(And(And(Or(And(Shl(prev[j], 1), all), m), And(Shl(prev[j - 1], 1), all)),
                        And(Shl(cur[j - 1], 1), all)), prev[j - 1]);
      assert cur[..j + 1] == cur[..j] + [cur[j]];
      j := j + 1;
    }
    assert cur[..] == cur[..cur.Length];
  }

  /**
   * One byte `t[n]` of the loop of `run_wu_manber`: the rows after the byte
   * are computed into `cur` from the rows before it in `prev`, and the
   * pattern matches at `n + 1` when bit `|p| - 1` of row `k` is clear.
   */
  method StepByte(masks: array<Word>, c: byte, p: seq<byte>, k: nat,
                  cur: array<Word>, prev: array<Word>, ghost t: seq<byte>, ghost n: nat)
    returns (matched: bool)
    requires 0 < |p| <= W && IsMaskTable(masks[..], p)
    requires masks != cur && cur != prev
    requires cur.Length == prev.Length == k + 1
    requires n < |t| && t[n] == c
    requires RowsMeaning(prev[..], p, t, n)
    modifies cur
    ensures RowsMeaning(cur[..], p, t, n + 1) && WithinMask(cur[..], p)
    ensures matched <==> Dist(p, t, n + 1, |p|) <= k
  {
    assert masks[c] == CharMask(p, c) by {
      assert masks[..][c] == CharMask(p, c);
    }
    UpdateRows(cur, prev, masks[c], BitMask(|p|));
    StepRowsMeaning(prev[..], p, t, n, k + 1);
    RowMatch(cur[..], p, t, n + 1, k);
    matched := !IsSet(cur[k], |p| - 1);
  }

  /**
   * The byte loop of `run_wu_manber` over one read, which sits at offset
   * `base` of the file `t`; the row arrays are swapped after each byte.
   */
  method ScanBuffer(masks: array<Word>, buffer: seq<byte>, p: seq<byte>, k: nat,
                    cur0: array<Word>, prev0: array<Word>, ghost t: seq<byte>, base: nat, count0: nat)
    returns (cur: array<Word>, prev: array<Word>, count: nat)
    requires 0 < |p| <= W && IsMaskTable(masks[..], p)
    requires masks != cur0 && masks != prev0 && cur0 != prev0
    requires cur0.Length == prev0.Length == k + 1
    requires base + |buffer| <= |t| && t[base..base + |buffer|] == buffer
    requires RowsMeaning(prev0[..], p, t, base)
    requires count0 == |ApproxEndsBelow(t, p, k, base)|
    modifies cur0, prev0
    ensures (cur == cur0 && prev == prev0) || (cur == prev0 && prev == cur0)
    ensures RowsMeaning(prev[..], p, t, base + |buffer|)
    ensures |buffer| > 0 ==> WithinMask(prev[..], p)
    ensures count == |ApproxEndsBelow(t, p, k, base + |buffer|)|
  {
    cur, prev, count := cur0, prev0, count0;
    var i := 0;
    ghost var n := base;
    while i < |buffer|
      invariant 0 <= i <= |buffer| && n == base + i
      invariant (cur == cur0 && prev == prev0) || (cur == prev0 && prev == cur0)
      invariant RowsMeaning(prev[..], p, t, n)
      invariant i > 0 ==> WithinMask(prev[..], p)
      invariant count == |ApproxEndsBelow(t, p, k, n)|
    {
      assert t[n] == buffer[i] by {
        assert t[base..base + |buffer|][i] == buffer[i];
      }
      var matched := StepByte(masks, buffer[i], p, k, cur, prev, t, n);
      if matched {
        count := count + 1;
      }
      cur, prev := prev, cur;
      i, n := i + 1, n + 1;
    }
  }

  /** Row `j` starts as the low-bits mask shifted left by `j`, for every `j <= k`. */
  method InitRows(prev: array<Word>, all: Word, k: nat)
    requires prev.Length == k + 1 && k < W
    modifies prev
    ensures forall j :: 0 <= j <= k ==> prev[j] == Shl(all, j)
  {
    prev[0] := all;
    var i := 1;
    while i <= k
      invariant 1 <= i <= k + 1
      invariant forall j :: 0 <= j < i ==> prev[j] == Shl(all, j)
    {
      prev[i] := Shl(prev[0], i);
      i := i + 1;
    }
  }

  /**
   * `run_wu_manber` over the reads `chunks` of one file, with every row set
   * up before the first byte: a match is counted wherever some substring
   * ending there is within distance `k` of the pattern. Line mode calls a
   * stub that prints nothing.
   */
  method RunWuManber(masks: array<Word>, chunks: seq<seq<byte>>, p: seq<byte>, k: nat)
    returns (count: nat)
    requires k < |p| <= W && IsMaskTable(masks[..], p)
    ensures count == |ApproxEnds(Flatten(chunks), p, k)|
  {
    ghost var t := Flatten(chunks);
    var all := BitMask(|p|);
    var cur := new Word[k + 1](_ => Zero());
    var prev := new Word[k + 1](_ => Zero());
    InitRows(prev, all, k);
    assert prev[..] == InitialRows(p, k);
    InitialRowsMeaning(p, t, k);
    var totalRead := 0;
    count := 0;
    var r := 0;
    while r < |chunks|
      invariant 0 <= r <= |chunks|
      invariant totalRead == |Flatten(chunks[..r])| <= |t|
      invariant cur != prev && cur != masks && prev != masks
      invariant cur.Length == prev.Length == k + 1
      invariant fresh(cur) && fresh(prev)
      invariant RowsMeaning(prev[..], p, t, totalRead)
      invariant count == |ApproxEndsBelow(t, p, k, totalRead)|
    {
      var buffer := chunks[r];
      ReadAt(chunks, r);
      cur, prev, count := ScanBuffer(masks, buffer, p, k, cur, prev, t, totalRead, count);
      FlattenPrefix(chunks, r);
      totalRead := totalRead + |buffer|;
      r := r + 1;
    }
    FlattenAll(chunks);
  }

  // ----------------------------------------------------------------- search

  /** The approximate matches of `p` over the first `n` files, summed. */
  ghost function FilesMatches(files: seq<seq<byte>>, p: seq<byte>, k: nat, n: nat): nat
    requires n <= |files|
  {
    if n == 0 then 0 else FilesMatches(files, p, k, n - 1) + |ApproxEnds(files[n - 1], p, k)|
  }

  /** Whether `wu_manber_search` searches for `p`: it fits the word and is longer than the edit distance. */
  predicate Searched(p: seq<byte>, k: nat) {
    |p| <= W && k < |p|
  }

  /** What `wu_manber_search` adds up over the first `n` patterns. */
  ghost function ExpectedTotal(files: seq<seq<byte>>, patterns: seq<seq<byte>>, k: nat, n: nat): nat
    requires n <= |patterns|
  {
    if n == 0 then 0
    else ExpectedTotal(files, patterns, k, n - 1) + (if Searched(patterns[n - 1], k) then FilesMatches(files, patterns[n - 1], k, |files|) else 0)
  }

  /** The warning for a skipped pattern: its length is checked before the edit distance. */
  function SkipReasonOf(p: seq<byte>, k: nat): (reason: SkipReason)
    requires !Searched(p, k)
    ensures reason == TooLong <==> |p| > W
    ensures reason == EditTooLarge <==> |p| <= W && k >= |p|
  {
    if |p| > W then TooLong else EditTooLarge
  }

  /**
   * The warnings for the first `n` patterns: one per skipped pattern,
   * numbered from 1 in order, each with that pattern's reason.
   */
  function SkipWarnings(patterns: seq<seq<byte>>, k: nat, n: nat): (w: seq<Warning>)
    requires n <= |patterns|
    ensures |w| <= n
    ensures forall m :: 0 <= m < |w| ==>
      0 < w[m].patternNumber <= n && !Searched(patterns[w[m].patternNumber - 1], k)
      && w[m].reason == SkipReasonOf(patterns[w[m].patternNumber - 1], k)
    ensures forall a, b :: 0 <= a < b < |w| ==> w[a].patternNumber < w[b].patternNumber
    ensures forall number {:trigger Warned(w, number)} :: 0 < number <= n ==> (Warned(w, number) <==> !Searched(patterns[number - 1], k))
  {
    if n == 0 then []
    else
      var prev := SkipWarnings(patterns, k, n - 1);
      assert !Warned(prev, n);
      if Searched(patterns[n - 1], k) then prev
      else
        var x := Skipped(n, SkipReasonOf(patterns[n - 1], k));
        WarnedAppend(prev, x); prev + [x]
  }

  /** No match over the first `n` files iff none of them holds an approximate occurrence. */
  lemma {:induction false} FilesMatchesZero(files: seq<seq<byte>>, p: seq<byte>, k: nat, n: nat)
    requires n <= |files|
    ensures FilesMatches(files, p, k, n) == 0 <==> forall j :: 0 <= j < n ==> ApproxEnds(files[j], p, k) == []
  {
    if n > 0 {
      FilesMatchesZero(files, p, k, n - 1);
    }
  }

  /** The total is zero iff no searched pattern has an approximate occurrence in any file. */
  lemma {:induction false} ExpectedTotalZero(files: seq<seq<byte>>, patterns: seq<seq<byte>>, k: nat, n: nat)
    requires n <= |patterns|
    ensures ExpectedTotal(files, patterns, k, n) == 0 <==>
      forall i, j :: 0 <= i < n && 0 <= j < |files| && Searched(patterns[i], k) ==> ApproxEnds(files[j], patterns[i], k) == []
  {
    if n > 0 {
      ExpectedTotalZero(files, patterns, k, n - 1);
      FilesMatchesZero(files, patterns[n - 1], k, |files|);
    }
  }

  /** The loop of `wu_manber_search` over the files for one pattern, with its masks built. */
  method ScanFiles(masks: array<Word>, files: seq<seq<byte>>, p: seq<byte>, k: nat) returns (total: nat)
    requires k < |p| <= W && IsMaskTable(masks[..], p)
    ensures total == FilesMatches(files, p, k, |files|)
  {
    total := 0;
    var j := 0;
    while j < |files|
      invariant 0 <= j <= |files|
      invariant total == FilesMatches(files, p, k, j)
    {
      var count := RunWuManber(masks, Chunked(files[j], BUFFER_SIZE), p, k);
      total := total + count;
      j := j + 1;
    }
  }

  /**
   * `wu_manber_search`: refuse only-matching mode; otherwise scan every file
   * for every pattern that fits the word and is longer than the edit
   * distance, warn about the others, print the total in count mode, and
   * report matches iff the total is positive. Each file is read in pieces of
   * `BUFFER_SIZE`.
   */
  method WuManberSearch(ctx: SearchContext) returns (r: SearchResult)
    ensures ctx.onlyMatching ==> r == SearchResult(Mistake, 0, [], [])
    ensures !ctx.onlyMatching ==>
      && r.total == ExpectedTotal(ctx.files, ctx.patterns, ctx.editDistance, |ctx.patterns|)
      && r.code == Outcome(r.total)
      && r.output == CountOutput(ctx.onlyCount, r.total)
      && r.warnings == SkipWarnings(ctx.patterns, ctx.editDistance, |ctx.patterns|)
  {
    if ctx.onlyMatching {
      return SearchResult(Mistake, 0, [], []);
    }
    var k := ctx.editDistance;
    var masks := new Word[ALPH_SIZE](_ => Zero());
    var total := 0;
    var warnings := [];
    var i := 0;
    while i < |ctx.patterns|
      invariant 0 <= i <= |ctx.patterns|
      invariant total == ExpectedTotal(ctx.files, ctx.patterns, k, i)
      invariant warnings == SkipWarnings(ctx.patterns, k, i)
    {
      var p := ctx.patterns[i];
      if |p| <= W && k < |p| {
        BuildPatternMask(masks, p);
        var count := ScanFiles(masks, ctx.files, p, k);
        total := total + count;
      } else if |p| > W {
        warnings := warnings + [Skipped(i + 1, TooLong)];
      } else {
        warnings := warnings + [Skipped(i + 1, EditTooLarge)];
      }
      i := i + 1;
    }
    r := SearchResult(Outcome(total), total, CountOutput(ctx.onlyCount, total), warnings);
  }

  /**
   * The set-up loop as `run_wu_manber` writes it: it stops below `k`, so the
   * last row keeps whatever the freshly allocated array held, unless it is
   * row 0, which is always set.
   */
  method InitRowsAsWritten(prev: array<Word>, all: Word, k: nat)
    requires prev.Length == k + 1 && k < W
    modifies prev
    ensures prev[0] == all
    ensures forall j :: 0 <= j < k ==> prev[j] == Shl(all, j)
    ensures k > 0 ==> prev[k] == old(prev[k])
  {
    prev[0] := all;
    var i := 1;
    while i < k
      invariant 1 <= i <= k + 1 && (k > 0 ==> i <= k)
      invariant forall j :: 0 <= j < i ==> prev[j] == Shl(all, j)
      invariant k > 0 ==> prev[k] == old(prev[k])
    {
      prev[i] := Shl(prev[0], i);
      i := i + 1;
    }
  }

  /**
   * The rows `InitRowsAsWritten` leaves, with `garbage` standing for the unset
   * last row; with no errors allowed that row is row 0 and nothing is unset.
   */
  function InitialRowsAsWritten(p: seq<byte>, k: nat, garbage: Word): (rows: seq<Word>)
    requires k < |p| <= W
    ensures |rows| == k + 1
    ensures forall j :: 0 <= j < k ==> rows[j] == InitialRows(p, k)[j]
    ensures k == 0 ==> rows == InitialRows(p, k)
  {
    seq(k + 1, j requires 0 <= j <= k => if 0 < j == k then garbage else Shl(BitMask(|p|), j))
  }

  /**
   * With the last row left unset, "b" is missed for the pattern "ab" and one
   * error when that row happens to hold all ones, although deleting the "a"
   * makes the two equal.
   */
  lemma UnsetRowMissesMatch()
    ensures ApproxEnds([98], [97, 98], 1) == [1]
    ensures IsSet(StepRows(InitialRowsAsWritten([97, 98], 1, AllOnes()), CharMask([97, 98], 98), BitMask(2), 2)[1], 1)
    ensures !IsSet(StepRows(InitialRows([97, 98], 1), CharMask([97, 98], 98), BitMask(2), 2)[1], 1)
  {
    var p: seq<byte>, t: seq<byte> := [97, 98], [98];
    assert Dist(p, t, 1, 2) == 1 by {
      assert Dist(p, t, 0, 1) == 1;
      assert Dist(p, t, 1, 1) == 1;
      assert Dist(p, t, 0, 2) == 2;
    }
    var m := CharMask(p, 98);
    assert m[0] && !m[1];
    var all := BitMask(2);
    var prev := InitialRowsAsWritten(p, 1, AllOnes());
    assert prev[0] == all && prev[1] == AllOnes();
    var written := StepRows(prev, m, all, 2);
    var first := FirstRow(all, m, all);
    assert first[0] && first[1];
    assert StepRows(prev, m, all, 1) == [first];
    assert written[1] == NextRow(AllOnes(), all, first, m, all);
    assert written[1][1];
    var intended := StepRows(InitialRows(p, 1), m, BitMask(2), 2);
    assert !intended[1][1];
  }

  /**
   * `wu_manber_search` allocates the same table of `BYTE_MAX` masks, and
   * rows 0 and `j` of the update read the mask of every text byte: for the
   * pattern "\xff\xff", one error and the text "\xff", a match ends after
   * the byte, whose mask lies one past the table. The table of 256 masks
   * holds it.
   */
  lemma ApproxByteMaxUncovered()
    ensures |MaskTableAsWritten([255, 255])| == 255
    ensures ApproxEnds([255], [255, 255], 1) == [1]
    ensures !CharMask([255, 255], 255)[0] && !CharMask([255, 255], 255)[1]
  {
    var p: seq<byte>, t: seq<byte> := [255, 255], [255];
    assert Dist(p, t, 1, 2) == 1 by {
      assert Dist(p, t, 0, 1) == 1;
      assert Dist(p, t, 1, 1) == 0;
      assert Dist(p, t, 0, 2) == 2;
    }
  }
}
