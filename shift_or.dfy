/**
 * Shift-Or exact matching (Baeza-Yates and Gonnet, 1992), after
 * src/algorithms/shift_or.c. Bit `j` of the state word is 0 exactly when the
 * first `j + 1` pattern bytes end at the current text position, so the
 * pattern ends there when bit `|p| - 1` is 0. The state word is the only
 * thing carried from one read to the next.
 */
module ShiftOr {
  import opened Types
  import opened Bits
  import opened Text

  /**
   * The mask of byte `c` once the loop of `build_pattern_mask` has cleared
   * the bits of the first `n` pattern positions.
   */
  function CharMaskUpTo(p: seq<byte>, c: byte, n: nat): Word
    requires n <= |p| <= W
  {
    if n == 0 then BitMask(|p|)
    else if p[n - 1] == c then And(CharMaskUpTo(p, c, n - 1), Not(One(n - 1)))
    else CharMaskUpTo(p, c, n - 1)
  }

  lemma {:induction false} CharMaskUpToBits(p: seq<byte>, c: byte, n: nat, i: nat)
    requires n <= |p| <= W && i < W
    ensures CharMaskUpTo(p, c, n)[i] <==> i < |p| && (i < n ==> p[i] != c)
  {
    if n > 0 {
      CharMaskUpToBits(p, c, n - 1, i);
    }
  }

  /**
   * The mask of byte `c`: bit `i` is 1 exactly when `i` is a pattern
   * position holding another byte, and every bit at or above `|p|` is 0.
   */
  function CharMask(p: seq<byte>, c: byte): (m: Word)
    requires |p| <= W
    ensures forall i :: 0 <= i < W ==> (m[i] <==> i < |p| && p[i] != c)
  {
    var m := CharMaskUpTo(p, c, |p|);
    forall i | 0 <= i < W ensures m[i] <==> i < |p| && p[i] != c {
      CharMaskUpToBits(p, c, |p|, i);
    }
    m
  }

  /** The whole table: one mask per byte value, 256 of them. */
  ghost predicate IsMaskTable(masks: seq<Word>, p: seq<byte>)
    requires |p| <= W
  {
    |masks| == ALPH_SIZE && forall c: byte :: masks[c] == CharMask(p, c)
  }

  /**
   * `build_pattern_mask` over a table with an entry for every byte: set every
   * mask to the low `|p|` bits, then clear bit `i` of the mask of `p[i]`.
   */
  method BuildPatternMask(masks: array<Word>, p: seq<byte>)
    requires masks.Length == ALPH_SIZE && |p| <= W
    modifies masks
    ensures IsMaskTable(masks[..], p)
  {
    var allSet := BitMask(|p|);
    var c := 0;
    while c < ALPH_SIZE
      invariant 0 <= c <= ALPH_SIZE
      invariant forall d :: 0 <= d < c ==> masks[d] == allSet
    {
      masks[c] := allSet;
      c := c + 1;
    }
    var i := 0;
    while i < |p|
      invariant 0 <= i <= |p|
      invariant forall d: byte :: masks[d] == CharMaskUpTo(p, d, i)
    {
      masks[p[i]] := And(masks[p[i]], Not(One(i)));
      i := i + 1;
    }
  }

  /** Bit `j` of the state word is 0 iff `p[..j + 1]` ends at position `n` of `t`. */
  ghost predicate StateMeaning(s: Word, p: seq<byte>, t: seq<byte>, n: nat)
    requires |p| <= W && n <= |t|
  {
    forall j :: 0 <= j < |p| ==> (!s[j] <==> EndsAt(t, p[..j + 1], n))
  }

  /** The initial state word, every low bit set, means nothing has matched yet. */
  lemma InitialMeaning(p: seq<byte>, t: seq<byte>)
    requires |p| <= W
    ensures StateMeaning(BitMask(|p|), p, t, 0)
  {
  }

  /** One step `s' = (s << 1) | mask[t[n]]` keeps the meaning of the state word. */
  lemma StepMeaning(s: Word, p: seq<byte>, t: seq<byte>, n: nat)
    requires |p| <= W && n < |t|
    requires StateMeaning(s, p, t, n)
    ensures StateMeaning(Or(Shl(s, 1), CharMask(p, t[n])), p, t, n + 1)
  {
    var s' := Or(Shl(s, 1), CharMask(p, t[n]));
    forall j | 0 <= j < |p|
      ensures !s'[j] <==> EndsAt(t, p[..j + 1], n + 1)
    {
      EndsAtStep(t, p, j, n);
      if j > 0 {
        assert p[..j] == p[..(j - 1) + 1];
      }
    }
  }

  /** Bit `|p| - 1` of a meaningful state word is 0 iff the whole pattern ends at `n`. */
  lemma MatchBit(s: Word, p: seq<byte>, t: seq<byte>, n: nat)
    requires 0 < |p| <= W && n <= |t|
    requires StateMeaning(s, p, t, n)
    ensures !IsSet(s, |p| - 1) <==> EndsAt(t, p, n)
  {
    assert p[..|p|] == p;
  }

  /**
   * One step of the scan from a meaningful state word: the new word is
   * meaningful one byte further, and its bit `|p| - 1` is 0 iff the pattern
   * ends there.
   */
  lemma Step(s: Word, p: seq<byte>, t: seq<byte>, n: nat)
    requires 0 < |p| <= W && n < |t|
    requires StateMeaning(s, p, t, n)
    ensures StateMeaning(Or(Shl(s, 1), CharMask(p, t[n])), p, t, n + 1)
    ensures !IsSet(Or(Shl(s, 1), CharMask(p, t[n])), |p| - 1) <==> EndsAt(t, p, n + 1)
  {
    StepMeaning(s, p, t, n);
    MatchBit(Or(Shl(s, 1), CharMask(p, t[n])), p, t, n + 1);
  }

  /**
   * One line of only-matching output: the optional `offset:` prefix, then
   * the pattern as `%.*s` writes it (up to its first zero byte), then a
   * newline.
   */
  function MatchLine(offset: nat, p: seq<byte>, printByteOffset: bool): (line: seq<byte>)
    ensures |line| > 0 && line[|line| - 1] == LF
  {
    OffsetPrefix(offset, printByteOffset) + Printed(p) + [LF]
  }

  /** Before its line feed, a match line is the offset prefix and the printed pattern. */
  lemma MatchLineParts(offset: nat, p: seq<byte>, printByteOffset: bool)
    ensures var line := MatchLine(offset, p, printByteOffset);
      line[..|line| - 1] == OffsetPrefix(offset, printByteOffset) + Printed(p)
  {
    var line := MatchLine(offset, p, printByteOffset);
    assert line == (OffsetPrefix(offset, printByteOffset) + Printed(p)) + [LF];
  }

  /** The only-matching output for occurrences ending at `ends`: each printed at its start offset. */
  function OnlyMatchingOutput(ends: seq<nat>, p: seq<byte>, printByteOffset: bool): seq<byte> {
    if |ends| == 0 then []
    else OnlyMatchingOutput(ends[..|ends| - 1], p, printByteOffset)
         + MatchLine(if ends[|ends| - 1] >= |p| then ends[|ends| - 1] - |p| else 0, p, printByteOffset)
  }

  /** What the scan prints while reading the first `n` bytes: nothing when counting, the matches in only-matching mode. */
  function ScanOutputBelow(t: seq<byte>, p: seq<byte>, n: nat, onlyCount: bool, onlyMatching: bool, printByteOffset: bool): seq<byte>
    requires n <= |t|
  {
    if !onlyCount && onlyMatching then OnlyMatchingOutput(EndsBelow(t, p, n), p, printByteOffset) else []
  }

  /** What one scan of one whole file prints. */
  function ScanOutput(t: seq<byte>, p: seq<byte>, onlyCount: bool, onlyMatching: bool, printByteOffset: bool): seq<byte> {
    ScanOutputBelow(t, p, |t|, onlyCount, onlyMatching, printByteOffset)
  }

  /** Scanning a byte where a match ends, in only-matching mode, appends that match's line. */
  lemma ScanOutputGrows(t: seq<byte>, p: seq<byte>, n: nat, onlyCount: bool, onlyMatching: bool, printByteOffset: bool)
    requires n < |t| && !onlyCount && onlyMatching && EndsAt(t, p, n + 1)
    ensures ScanOutputBelow(t, p, n + 1, onlyCount, onlyMatching, printByteOffset)
         == ScanOutputBelow(t, p, n, onlyCount, onlyMatching, printByteOffset) + MatchLine(n + 1 - |p|, p, printByteOffset)
  {
    var e, e' := EndsBelow(t, p, n), EndsBelow(t, p, n + 1);
    assert e' == e + [n + 1];
    assert e'[..|e'| - 1] == e;
    assert OnlyMatchingOutput(e', p, printByteOffset) == OnlyMatchingOutput(e, p, printByteOffset) + MatchLine(n + 1 - |p|, p, printByteOffset);
  }

  /** Any other byte leaves the output as it was. */
  lemma ScanOutputSame(t: seq<byte>, p: seq<byte>, n: nat, onlyCount: bool, onlyMatching: bool, printByteOffset: bool)
    requires n < |t| && !(!onlyCount && onlyMatching && EndsAt(t, p, n + 1))
    ensures ScanOutputBelow(t, p, n + 1, onlyCount, onlyMatching, printByteOffset)
         == ScanOutputBelow(t, p, n, onlyCount, onlyMatching, printByteOffset)
  {
    if !onlyCount && onlyMatching {
      assert EndsBelow(t, p, n + 1) == EndsBelow(t, p, n);
    }
  }

  /**
   * The inner loop of `run_shift_or`: the bytes of one read, which sit at
   * offset `base` of the file `t`. Starting from the state, count and
   * output of the first `base` bytes, it leaves those of the first
   * `base + |buffer|` bytes.
   */
  method ScanBuffer(masks: array<Word>, buffer: seq<byte>, p: seq<byte>,
                    onlyCount: bool, onlyMatching: bool, printByteOffset: bool,
                    ghost t: seq<byte>, base: nat, sMask0: Word, count0: nat, out0: seq<byte>)
    returns (sMask: Word, count: nat, out: seq<byte>)
    requires 0 < |p| <= W && IsMaskTable(masks[..], p)
    requires base + |buffer| <= |t| && t[base..base + |buffer|] == buffer
    requires StateMeaning(sMask0, p, t, base)
    requires count0 == |EndsBelow(t, p, base)|
    requires out0 == ScanOutputBelow(t, p, base, onlyCount, onlyMatching, printByteOffset)
    ensures StateMeaning(sMask, p, t, base + |buffer|)
    ensures count == |EndsBelow(t, p, base + |buffer|)|
    ensures out == ScanOutputBelow(t, p, base + |buffer|, onlyCount, onlyMatching, printByteOffset)
  {
    var shift := |p| - 1;
    sMask, count, out := sMask0, count0, out0;
    var i := 0;
    ghost var n := base;
    while i < |buffer|
      invariant 0 <= i <= |buffer| && n == base + i
      invariant StateMeaning(sMask, p, t, n)
      invariant count == |EndsBelow(t, p, n)|
      invariant out == ScanOutputBelow(t, p, n, onlyCount, onlyMatching, printByteOffset)
    {
      assert t[n] == buffer[i] by {
        assert t[base..base + |buffer|][i] == buffer[i];
      }
      assert masks[buffer[i]] == CharMask(p, t[n]) by {
        assert masks[..][buffer[i]] == CharMask(p, buffer[i]);
      }
      Step(sMask, p, t, n);
      sMask := Or(Shl(sMask, 1), masks[buffer[i]]);
      if !IsSet(sMask, shift) {
        count := count + 1;
        if !onlyCount && onlyMatching {
          ScanOutputGrows(t, p, n, onlyCount, onlyMatching, printByteOffset);
          out := out + MatchLine(base + i + 1 - |p|, p, printByteOffset);
        } else {
          ScanOutputSame(t, p, n, onlyCount, onlyMatching, printByteOffset);
        }
      } else {
        ScanOutputSame(t, p, n, onlyCount, onlyMatching, printByteOffset);
      }
      i, n := i + 1, n + 1;
    }
  }

  /**
   * `run_shift_or` over the reads `chunks` of one file: one state word,
   * updated per byte and carried across reads; a match is counted wherever
   * the pattern ends. Line mode calls a stub that prints nothing.
   */
  method RunShiftOr(masks: array<Word>, chunks: seq<seq<byte>>, p: seq<byte>,
                    onlyCount: bool, onlyMatching: bool, printByteOffset: bool)
    returns (count: nat, out: seq<byte>)
    requires 0 < |p| <= W && IsMaskTable(masks[..], p)
    ensures count == |Ends(Flatten(chunks), p)|
    ensures out == ScanOutput(Flatten(chunks), p, onlyCount, onlyMatching, printByteOffset)
  {
    ghost var t := Flatten(chunks);
    var sMask := BitMask(|p|);
    var totalRead := 0;
    count, out := 0, [];
    InitialMeaning(p, t);
    var k := 0;
    while k < |chunks|
      invariant 0 <= k <= |chunks|
      invariant totalRead == |Flatten(chunks[..k])| <= |t|
      invariant StateMeaning(sMask, p, t, totalRead)
      invariant count == |EndsBelow(t, p, totalRead)|
      invariant out == ScanOutputBelow(t, p, totalRead, onlyCount, onlyMatching, printByteOffset)
    {
      var buffer := chunks[k];
      ReadAt(chunks, k);
      sMask, count, out := ScanBuffer(masks, buffer, p, onlyCount, onlyMatching, printByteOffset,
                                      t, totalRead, sMask, count, out);
      FlattenPrefix(chunks, k);
      totalRead := totalRead + |buffer|;
      k := k + 1;
    }
    FlattenAll(chunks);
  }

  // ----------------------------------------------------------------- search

  /** The occurrences of `p` over the first `n` files, summed. */
  ghost function FilesMatches(files: seq<seq<byte>>, p: seq<byte>, n: nat): nat
    requires n <= |files|
  {
    if n == 0 then 0 else FilesMatches(files, p, n - 1) + |Ends(files[n - 1], p)|
  }

  /** What the scans of `p` print over the first `n` files, one file after the other. */
  function FilesOutput(files: seq<seq<byte>>, p: seq<byte>, onlyCount: bool, onlyMatching: bool, printByteOffset: bool, n: nat): seq<byte>
    requires n <= |files|
  {
    if n == 0 then []
    else FilesOutput(files, p, onlyCount, onlyMatching, printByteOffset, n - 1) + ScanOutput(files[n - 1], p, onlyCount, onlyMatching, printByteOffset)
  }

  /** Whether `shift_or_search` searches for `p`: only patterns that fit the word. */
  predicate Searched(p: seq<byte>) {
    |p| <= W
  }

  /** What `shift_or_search` adds up over the first `n` patterns. */
  ghost function ExpectedTotal(files: seq<seq<byte>>, patterns: seq<seq<byte>>, n: nat): nat
    requires n <= |patterns|
  {
    if n == 0 then 0
    else ExpectedTotal(files, patterns, n - 1) + (if Searched(patterns[n - 1]) then FilesMatches(files, patterns[n - 1], |files|) else 0)
  }

  /** What the scans print over the first `n` patterns, pattern after pattern. */
  function ExpectedOutput(ctx: SearchContext, n: nat): seq<byte>
    requires n <= |ctx.patterns|
  {
    if n == 0 then []
    else
      ExpectedOutput(ctx, n - 1)
      + (if Searched(ctx.patterns[n - 1])
         then FilesOutput(ctx.files, ctx.patterns[n - 1], ctx.onlyCount, ctx.onlyMatching, ctx.printByteOffset, |ctx.files|)
         else [])
  }

  /** The warnings for the first `n` patterns: one per pattern longer than the word, numbered from 1 in order. */
  function SkipWarnings(patterns: seq<seq<byte>>, n: nat): (w: seq<Warning>)
    requires n <= |patterns|
    ensures |w| <= n
    ensures forall m :: 0 <= m < |w| ==> w[m].reason == TooLong && 0 < w[m].patternNumber <= n
    ensures forall a, b :: 0 <= a < b < |w| ==> w[a].patternNumber < w[b].patternNumber
    ensures forall number {:trigger Warned(w, number)} :: 0 < number <= n ==> (Warned(w, number) <==> !Searched(patterns[number - 1]))
  {
    if n == 0 then []
    else
      var prev := SkipWarnings(patterns, n - 1);
      assert !Warned(prev, n);
      if Searched(patterns[n - 1]) then prev
      else WarnedAppend(prev, Skipped(n, TooLong)); prev + [Skipped(n, TooLong)]
  }

  /** No match over the first `n` files iff the pattern occurs in none of them. */
  lemma {:induction false} FilesMatchesZero(files: seq<seq<byte>>, p: seq<byte>, n: nat)
    requires n <= |files|
    ensures FilesMatches(files, p, n) == 0 <==> forall j :: 0 <= j < n ==> Ends(files[j], p) == []
  {
    if n > 0 {
      FilesMatchesZero(files, p, n - 1);
    }
  }

  /** The total is zero iff no pattern that fits the word occurs in any file. */
  lemma {:induction false} ExpectedTotalZero(files: seq<seq<byte>>, patterns: seq<seq<byte>>, n: nat)
    requires n <= |patterns|
    ensures ExpectedTotal(files, patterns, n) == 0 <==>
      forall i, j :: 0 <= i < n && 0 <= j < |files| && Searched(patterns[i]) ==> Ends(files[j], patterns[i]) == []
  {
    if n > 0 {
      ExpectedTotalZero(files, patterns, n - 1);
      FilesMatchesZero(files, patterns[n - 1], |files|);
    }
  }

  /** The loop of `shift_or_search` over the files for one pattern, with its masks built. */
  method ScanFiles(masks: array<Word>, ctx: SearchContext, p: seq<byte>) returns (total: nat, output: seq<byte>)
    requires 0 < |p| <= W && IsMaskTable(masks[..], p)
    ensures total == FilesMatches(ctx.files, p, |ctx.files|)
    ensures output == FilesOutput(ctx.files, p, ctx.onlyCount, ctx.onlyMatching, ctx.printByteOffset, |ctx.files|)
  {
    total, output := 0, [];
    var j := 0;
    while j < |ctx.files|
      invariant 0 <= j <= |ctx.files|
      invariant total == FilesMatches(ctx.files, p, j)
      invariant output == FilesOutput(ctx.files, p, ctx.onlyCount, ctx.onlyMatching, ctx.printByteOffset, j)
    {
      var count, out := RunShiftOr(masks, Chunked(ctx.files[j], BUFFER_SIZE), p, ctx.onlyCount, ctx.onlyMatching, ctx.printByteOffset);
      total := total + count;
      output := output + out;
      j := j + 1;
    }
  }

  /**
   * `shift_or_search`: for every pattern that fits the word, build its
   * masks and scan every file; warn about the others. Count mode prints the
   * total at the end; the result reports matches iff the total is positive.
   * Each file is read in pieces of `BUFFER_SIZE`.
   */
  method ShiftOrSearch(ctx: SearchContext) returns (r: SearchResult)
    requires ctx.Valid()
    ensures r.total == ExpectedTotal(ctx.files, ctx.patterns, |ctx.patterns|)
    ensures r.code == Outcome(r.total)
    ensures r.output == ExpectedOutput(ctx, |ctx.patterns|) + CountOutput(ctx.onlyCount, r.total)
    ensures r.warnings == SkipWarnings(ctx.patterns, |ctx.patterns|)
  {
    var masks := new Word[ALPH_SIZE](_ => Zero());
    var total := 0;
    var output := [];
    var warnings := [];
    var i := 0;
    while i < |ctx.patterns|
      invariant 0 <= i <= |ctx.patterns|
      invariant total == ExpectedTotal(ctx.files, ctx.patterns, i)
      invariant output == ExpectedOutput(ctx, i)
      invariant warnings == SkipWarnings(ctx.patterns, i)
    {
      var p := ctx.patterns[i];
      if |p| <= W {
        BuildPatternMask(masks, p);
        var count, out := ScanFiles(masks, ctx, p);
        total := total + count;
        output := output + out;
      } else {
        warnings := warnings + [Skipped(i + 1, TooLong)];
      }
      i := i + 1;
    }
    r := SearchResult(Outcome(total), total, output + CountOutput(ctx.onlyCount, total), warnings);
  }

  // ------------------------------------------------------- table as written

  /**
   * The table `shift_or_search` and `wu_manber_search` allocate holds
   * `BYTE_MAX` masks, and `build_pattern_mask` sets up exactly those: one
   * mask per byte below 255.
   */
  function MaskTableAsWritten(p: seq<byte>): (masks: seq<Word>)
    requires |p| <= W
    ensures |masks| == BYTE_MAX
    ensures forall c :: 0 <= c < BYTE_MAX ==> masks[c] == CharMask(p, c as byte)
  {
    seq(BYTE_MAX, c requires 0 <= c < BYTE_MAX => CharMask(p, c as byte))
  }

  /**
   * The byte 255 has no entry in that table: for the pattern and the text
   * "\xff" the pattern occurs once, but `build_pattern_mask` writes, and the
   * scan reads, the mask at index 255, one past the end. The table of 256
   * masks holds it, with bit 0 clear.
   */
  lemma ByteMaxUncovered()
    ensures |MaskTableAsWritten([255])| == 255
    ensures Ends([255], [255]) == [1]
    ensures !CharMask([255], 255)[0]
  {
    assert EndsAt([255], [255], 1);
  }
}
