/**
 * The brute-force matcher of src/algorithms/brute_force.c. Every start
 * position of a fixed buffer is compared with the pattern byte by byte; a
 * comparison that runs off the buffer's data moves the bytes it matched to
 * the buffer's front, and the next read appends after them, so an occurrence
 * split across two reads is still found. Occurrences are reported by their
 * start offset, in only-matching mode, or through the line printer.
 *
 * The buffer's capacity is a parameter (`BUFFER_SIZE` in the search), so
 * that the carry can be studied on small buffers. Reads take what the file
 * has left, up to the free space of the buffer.
 */
module BruteForce {
  import opened Types
  import opened Text
  import opened LineLocator
  import ShiftOr

  /** `MAX_PATTERN_LENGTH`: longer patterns are skipped, so a carried prefix never fills the buffer. */
  const MAX_PATTERN_LENGTH: nat := BUFFER_SIZE / 2 - 1

  // ------------------------------------------------------------ reference

  /**
   * What scanning the occurrences starting below `n` reports: nothing when
   * counting, the pattern at its start offset in only-matching mode, and
   * otherwise the line printer's work for the position after each occurrence.
   */
  function ReportBelow(t: seq<byte>, p: seq<byte>, n: nat, onlyCount: bool, onlyMatching: bool, printByteOffset: bool): Printer
    requires n <= |t|
  {
    if n == 0 then Printer(Line(-1, -1), [])
    else
      var pr := ReportBelow(t, p, n - 1, onlyCount, onlyMatching, printByteOffset);
      if onlyCount || !OccursAt(t, p, n - 1) then pr
      else if onlyMatching then pr.(out := pr.out + ShiftOr.MatchLine(n - 1, p, printByteOffset))
      else PrintStep(t, pr, n - 1 + |p|, printByteOffset)
  }

  /** No occurrence starts in the last `|p| - 1` bytes, so nothing is reported there. */
  lemma {:induction false} ReportTail(t: seq<byte>, p: seq<byte>, n: nat, onlyCount: bool, onlyMatching: bool, printByteOffset: bool)
    requires |p| > 0 && n <= |t| && n + |p| >= |t| + 1
    ensures ReportBelow(t, p, n, onlyCount, onlyMatching, printByteOffset) == ReportBelow(t, p, |t|, onlyCount, onlyMatching, printByteOffset)
    decreases |t| - n
  {
    if n < |t| {
      ReportTail(t, p, n + 1, onlyCount, onlyMatching, printByteOffset);
    }
  }

  /** The only-matching lines for occurrences starting at `starts`. */
  function StartsOutput(starts: seq<nat>, p: seq<byte>, printByteOffset: bool): seq<byte> {
    if |starts| == 0 then []
    else StartsOutput(starts[..|starts| - 1], p, printByteOffset) + ShiftOr.MatchLine(starts[|starts| - 1], p, printByteOffset)
  }

  /** In only-matching mode the report is one line per occurrence start, in order. */
  lemma {:induction false} ReportOnlyMatching(t: seq<byte>, p: seq<byte>, n: nat, printByteOffset: bool)
    requires n <= |t|
    ensures ReportBelow(t, p, n, false, true, printByteOffset).out == StartsOutput(StartsBelow(t, p, n), p, printByteOffset)
  {
    if n > 0 {
      ReportOnlyMatching(t, p, n - 1, printByteOffset);
      var s := StartsBelow(t, p, n - 1);
      if OccursAt(t, p, n - 1) {
        assert StartsBelow(t, p, n) == s + [n - 1];
        assert (s + [n - 1])[..|s|] == s;
        assert StartsOutput(s + [n - 1], p, printByteOffset) == StartsOutput(s, p, printByteOffset) + ShiftOr.MatchLine(n - 1, p, printByteOffset);
      } else {
        assert StartsBelow(t, p, n) == s;
      }
    }
  }

  /** Listing the ends moved back by the pattern length prints the same lines as listing the starts. */
  lemma {:induction false} StartsOutputShifted(starts: seq<nat>, p: seq<byte>, printByteOffset: bool)
    ensures ShiftOr.OnlyMatchingOutput(Shifted(starts, |p|), p, printByteOffset) == StartsOutput(starts, p, printByteOffset)
  {
    if |starts| > 0 {
      var init, x := starts[..|starts| - 1], starts[|starts| - 1];
      StartsOutputShifted(init, p, printByteOffset);
      var ends := Shifted(starts, |p|);
      assert ends == Shifted(init, |p|) + [x + |p|];
      assert ends[..|ends| - 1] == Shifted(init, |p|) && ends[|ends| - 1] == x + |p|;
    }
  }

  /**
   * Brute force, reporting starts, and Shift-Or, reporting ends, print the
   * same only-matching output for the same file and pattern.
   */
  lemma AgreesWithShiftOr(t: seq<byte>, p: seq<byte>, printByteOffset: bool)
    requires |p| > 0
    ensures ReportBelow(t, p, |t|, false, true, printByteOffset).out == ShiftOr.ScanOutput(t, p, false, true, printByteOffset)
  {
    ReportOnlyMatching(t, p, |t|, printByteOffset);
    EndsAreStarts(t, p);
    StartsOutputShifted(Occurrences(t, p), p, printByteOffset);
  }

  // ------------------------------------------------------------ scanning

  /**
   * `fread(buffer + j, 1, capacity - j, fp)` on a file at position `pos`:
   * the bytes after the first `j` are overwritten by as many bytes as fit
   * and the file still has.
   */
  method Read(buffer: array<byte>, j: nat, content: seq<byte>, pos: nat) returns (n: nat)
    requires j < buffer.Length && pos <= |content|
    modifies buffer
    ensures n == if buffer.Length - j < |content| - pos then buffer.Length - j else |content| - pos
    ensures buffer[..j] == old(buffer[..j])
    ensures buffer[j..j + n] == content[pos..pos + n]
    ensures buffer[j + n..] == old(buffer[j + n..])
  {
    n := if buffer.Length - j < |content| - pos then buffer.Length - j else |content| - pos;
    forall k | j <= k < j + n {
      buffer[k] := content[pos + k - j];
    }
  }

  /**
   * The comparison of line 19 at buffer index `i`, resuming after `j` bytes
   * already known to match: it stops at the pattern's end, at the end of the
   * data or at the first differing byte.
   */
  method Compare(buffer: array<byte>, size: nat, p: seq<byte>, i: nat, j0: nat) returns (j: nat)
    requires size <= buffer.Length && i + j0 <= size && j0 <= |p|
    requires buffer[i..i + j0] == p[..j0]
    ensures j0 <= j <= |p| && i + j <= size
    ensures buffer[i..i + j] == p[..j]
    ensures j < |p| && i + j < size ==> p[j] != buffer[i + j]
  {
    j := j0;
    while j < |p| && i + j < size && p[j] == buffer[i + j]
      invariant j0 <= j <= |p| && i + j <= size
      invariant buffer[i..i + j] == p[..j]
    {
      assert buffer[i..i + j + 1] == buffer[i..i + j] + [buffer[i + j]];
      assert p[..j + 1] == p[..j] + [p[j]];
      j := j + 1;
    }
  }

  /**
   * What a finished comparison at buffer index `i` tells about the file: a
   * full match is an occurrence at `start + i`, a differing byte rules one
   * out, and running off the data leaves the file's bytes from `start + i`
   * to the data's end equal to a proper prefix of the pattern.
   */
  lemma Decided(buffer: seq<byte>, content: seq<byte>, start: nat, size: nat, p: seq<byte>, i: nat, j: nat)
    requires size <= |buffer| && start + size <= |content| && buffer[..size] == content[start..start + size]
    requires i + j <= size && j <= |p| && buffer[i..i + j] == p[..j]
    ensures content[start + i..start + i + j] == p[..j]
    ensures j == |p| ==> OccursAt(content, p, start + i)
    ensures j < |p| && i + j < size && p[j] != buffer[i + j] ==> !OccursAt(content, p, start + i)
  {
    forall k | 0 <= k < j
      ensures content[start + i..start + i + j][k] == p[..j][k]
    {
      assert buffer[i..i + j][k] == buffer[..size][i + k];
    }
    if i + j < size {
      assert buffer[i + j] == buffer[..size][i + j] == content[start + i + j];
    }
  }

  /** `memcpy(&buffer[0], &buffer[i], j)`: the `j` bytes from index `i` move to the front. */
  method MoveToFront(buffer: array<byte>, i: nat, j: nat)
    requires i + j <= buffer.Length
    modifies buffer
    ensures buffer[..j] == old(buffer[i..i + j])
    ensures buffer[j..] == old(buffer[j..])
  {
    forall k | 0 <= k < j {
      buffer[k] := buffer[i + k];
    }
  }

  /** Deciding the start `n` extends the count and the report by that start's contribution. */
  lemma Advance(t: seq<byte>, p: seq<byte>, n: nat, onlyCount: bool, onlyMatching: bool, printByteOffset: bool)
    requires n < |t|
    ensures |StartsBelow(t, p, n + 1)| == |StartsBelow(t, p, n)| + (if OccursAt(t, p, n) then 1 else 0)
    ensures !OccursAt(t, p, n) ==> ReportBelow(t, p, n + 1, onlyCount, onlyMatching, printByteOffset) == ReportBelow(t, p, n, onlyCount, onlyMatching, printByteOffset)
  {
  }

  /**
   * Lines 24-31 for an occurrence at buffer index `i`: print the pattern
   * at its start offset in only-matching mode, or hand the position after
   * the occurrence to the line printer, or nothing when counting.
   */
  method ReportMatch(buffer: array<byte>, size: nat, content: seq<byte>, start: nat, p: seq<byte>, i: nat, last: LastLine,
                     onlyCount: bool, onlyMatching: bool, printByteOffset: bool, out0: seq<byte>)
    returns (out: seq<byte>)
    requires 0 < |p| && size <= buffer.Length && start + size <= |content| && i + |p| <= size
    requires buffer[..size] == content[start..start + size]
    requires OccursAt(content, p, start + i)
    requires ReportBelow(content, p, start + i, onlyCount, onlyMatching, printByteOffset) == Printer(Line(last.beg, last.end), out0)
    modifies last
    ensures ReportBelow(content, p, start + i + 1, onlyCount, onlyMatching, printByteOffset) == Printer(Line(last.beg, last.end), out)
  {
    out := out0;
    if !onlyCount {
      if onlyMatching {
        out := out + ShiftOr.MatchLine(start + i, p, printByteOffset);
      } else {
        assert Window(content, start, buffer[..], size) by {
          forall k | 0 <= k < size ensures buffer[..][k] == content[start + k] {
            assert buffer[..size][k] == content[start..start + size][k];
          }
        }
        var line := last.PrintFileLine(content, start, buffer[..], size, i + |p|, printByteOffset);
        out := out + line;
      }
    }
  }

  /**
   * One pass of the `i` loop (lines 19-35): compare at buffer index `i`,
   * report an occurrence, and on running off the data move the matched bytes
   * to the front. `carried` tells whether the loop breaks for the next read.
   */
  method ScanStart(buffer: array<byte>, size: nat, content: seq<byte>, start: nat, p: seq<byte>, i: nat, j0: nat, last: LastLine,
                   onlyCount: bool, onlyMatching: bool, printByteOffset: bool, count0: nat, out0: seq<byte>)
    returns (j: nat, count: nat, out: seq<byte>, carried: bool)
    requires 0 < |p| && j0 < |p| && i < size <= buffer.Length && i + j0 <= size && start + size <= |content|
    requires buffer[..size] == content[start..start + size]
    requires buffer[i..i + j0] == p[..j0]
    requires count0 == |StartsBelow(content, p, start + i)|
    requires ReportBelow(content, p, start + i, onlyCount, onlyMatching, printByteOffset) == Printer(Line(last.beg, last.end), out0)
    modifies buffer, last
    ensures carried ==> j < |p| && i + j == size && buffer[..j] == p[..j] == content[start + size - j..start + size]
    ensures carried ==> count == |StartsBelow(content, p, start + size - j)|
    ensures carried ==> ReportBelow(content, p, start + size - j, onlyCount, onlyMatching, printByteOffset) == Printer(Line(last.beg, last.end), out)
    ensures !carried ==> buffer[..size] == content[start..start + size]
    ensures !carried ==> count == |StartsBelow(content, p, start + (i + 1))|
    ensures !carried ==> ReportBelow(content, p, start + (i + 1), onlyCount, onlyMatching, printByteOffset) == Printer(Line(last.beg, last.end), out)
  {
    count, out, carried := count0, out0, false;
    j := Compare(buffer, size, p, i, j0);
    Decided(buffer[..], content, start, size, p, i, j);
    Advance(content, p, start + i, onlyCount, onlyMatching, printByteOffset);
    if j == |p| {
      count := count + 1;
      out := ReportMatch(buffer, size, content, start, p, i, last, onlyCount, onlyMatching, printByteOffset, out);
    } else if i + j >= size {
      ghost var moved := buffer[i..i + j];
      assert moved == p[..j] == content[start + size - j..start + size];
      MoveToFront(buffer, i, j);
      carried := true;
    }
  }

  /**
   * The `i` loop of `run_brute_force` over one buffer of `size` valid
   * bytes, holding the file from offset `start` and beginning with `j0`
   * carried bytes that match the pattern's prefix. Returns the number `j` of
   * bytes carried to the next read, now at the buffer's front: the starts
   * below `start + size - j` have all been decided.
   */
  method ScanBuffer(buffer: array<byte>, j0: nat, size: nat, content: seq<byte>, start: nat, p: seq<byte>, last: LastLine,
                    onlyCount: bool, onlyMatching: bool, printByteOffset: bool, count0: nat, out0: seq<byte>)
    returns (j: nat, count: nat, out: seq<byte>)
    requires 0 < |p| && j0 < |p| && j0 <= size <= buffer.Length && start + size <= |content|
    requires buffer[..size] == content[start..start + size]
    requires buffer[..j0] == p[..j0]
    requires count0 == |StartsBelow(content, p, start)|
    requires ReportBelow(content, p, start, onlyCount, onlyMatching, printByteOffset) == Printer(Line(last.beg, last.end), out0)
    modifies buffer, last
    ensures j < |p| && j <= size
    ensures buffer[..j] == p[..j] == content[start + size - j..start + size]
    ensures count == |StartsBelow(content, p, start + size - j)|
    ensures ReportBelow(content, p, start + size - j, onlyCount, onlyMatching, printByteOffset) == Printer(Line(last.beg, last.end), out)
  {
    count, out := count0, out0;
    var i: nat := 0;
    j := j0;
    while i < size
      invariant i <= size && i + j <= size && j < |p|
      invariant buffer[..size] == content[start..start + size]
      invariant buffer[i..i + j] == p[..j]
      invariant count == |StartsBelow(content, p, start + i)|
      invariant ReportBelow(content, p, start + i, onlyCount, onlyMatching, printByteOffset) == Printer(Line(last.beg, last.end), out)
    {
      var carried;
      j, count, out, carried := ScanStart(buffer, size, content, start, p, i, j, last, onlyCount, onlyMatching, printByteOffset, count, out);
      if carried {
        return;
      }
      i, j := i + 1, 0;
    }
  }

  /** The carried bytes followed by the bytes just read are the file's bytes from the carry's offset on. */
  lemma Joined(buffer: seq<byte>, content: seq<byte>, start: nat, j: nat, n: nat)
    requires j + n <= |buffer| && start + j + n <= |content|
    requires buffer[..j] == content[start..start + j] && buffer[j..j + n] == content[start + j..start + j + n]
    ensures buffer[..j + n] == content[start..start + j + n]
  {
    assert buffer[..j + n] == buffer[..j] + buffer[j..j + n];
    assert content[start..start + j + n] == content[start..start + j] + content[start + j..start + j + n];
  }

  /**
   * One pass of the outer loop (line 17): read after the `j0` carried bytes
   * and, when anything was read, scan the buffer. Returns the number of
   * bytes read, zero only at the end of the file.
   */
  method ReadAndScan(buffer: array<byte>, content: seq<byte>, totalRead: nat, p: seq<byte>, j0: nat, last: LastLine,
                     onlyCount: bool, onlyMatching: bool, printByteOffset: bool, count0: nat, out0: seq<byte>)
    returns (n: nat, j: nat, count: nat, out: seq<byte>)
    requires 0 < |p| && j0 < |p| && j0 < buffer.Length && j0 <= totalRead <= |content|
    requires buffer[..j0] == p[..j0] == content[totalRead - j0..totalRead]
    requires count0 == |StartsBelow(content, p, totalRead - j0)|
    requires ReportBelow(content, p, totalRead - j0, onlyCount, onlyMatching, printByteOffset) == Printer(Line(last.beg, last.end), out0)
    modifies buffer, last
    ensures n == 0 ==> totalRead == |content| && j == j0 && count == count0 && out == out0
    ensures n == 0 ==> last.beg == old(last.beg) && last.end == old(last.end)
    ensures totalRead + n <= |content| && j < |p| && j <= totalRead + n && j <= buffer.Length
    ensures buffer[..j] == p[..j] == content[totalRead + n - j..totalRead + n]
    ensures count == |StartsBelow(content, p, totalRead + n - j)|
    ensures ReportBelow(content, p, totalRead + n - j, onlyCount, onlyMatching, printByteOffset) == Printer(Line(last.beg, last.end), out)
  {
    j, count, out := j0, count0, out0;
    n := Read(buffer, j0, content, totalRead);
    if n > 0 {
      var start := totalRead - j0;
      Joined(buffer[..], content, start, j0, n);
      j, count, out := ScanBuffer(buffer, j0, j0 + n, content, start, p, last, onlyCount, onlyMatching, printByteOffset, count, out);
      assert start + (j0 + n) == totalRead + n;
    }
  }

  /**
   * `run_brute_force` for one file and pattern: read into the free part of
   * the buffer until the file is exhausted, scanning each buffer and
   * carrying a partial match over to the next. Counts every occurrence,
   * overlapping ones included, however the reads split the file.
   */
  method RunBruteForce(content: seq<byte>, p: seq<byte>, capacity: nat, onlyCount: bool, onlyMatching: bool, printByteOffset: bool)
    returns (count: nat, out: seq<byte>)
    requires 0 < |p| <= capacity / 2 - 1
    ensures count == |Occurrences(content, p)|
    ensures out == ReportBelow(content, p, |content|, onlyCount, onlyMatching, printByteOffset).out
  {
    var buffer := new byte[capacity];
    var last := new LastLine();
    var j: nat := 0;
    var totalRead: nat := 0;
    count, out := 0, [];
    while true
      invariant buffer.Length == capacity
      invariant j < |p| && j <= totalRead <= |content|
      invariant buffer[..j] == p[..j] == content[totalRead - j..totalRead]
      invariant count == |StartsBelow(content, p, totalRead - j)|
      invariant ReportBelow(content, p, totalRead - j, onlyCount, onlyMatching, printByteOffset) == Printer(Line(last.beg, last.end), out)
      decreases |content| - totalRead
    {
      var n;
      n, j, count, out := ReadAndScan(buffer, content, totalRead, p, j, last, onlyCount, onlyMatching, printByteOffset, count, out);
      if n == 0 {
        break;
      }
      totalRead := totalRead + n;
    }
    StartsBelowTail(content, p, totalRead - j);
    ReportTail(content, p, totalRead - j, onlyCount, onlyMatching, printByteOffset);
  }

  // ----------------------------------------------------------------- search

  /** Whether `brute_force_search` searches for `p`: patterns up to `MAX_PATTERN_LENGTH` bytes. */
  predicate Searched(p: seq<byte>) {
    |p| <= MAX_PATTERN_LENGTH
  }

  /** The occurrences of `p` over the first `n` files, summed. */
  ghost function FilesMatches(files: seq<seq<byte>>, p: seq<byte>, n: nat): nat
    requires n <= |files|
  {
    if n == 0 then 0 else FilesMatches(files, p, n - 1) + |Occurrences(files[n - 1], p)|
  }

  /** What the scans of `p` print over the first `n` files, one file after the other. */
  function FilesOutput(ctx: SearchContext, p: seq<byte>, n: nat): seq<byte>
    requires n <= |ctx.files|
  {
    if n == 0 then []
    else FilesOutput(ctx, p, n - 1)
         + ReportBelow(ctx.files[n - 1], p, |ctx.files[n - 1]|, ctx.onlyCount, ctx.onlyMatching, ctx.printByteOffset).out
  }

  /** What `brute_force_search` adds up over the first `n` patterns. */
  ghost function ExpectedTotal(files: seq<seq<byte>>, patterns: seq<seq<byte>>, n: nat): nat
    requires n <= |patterns|
  {
    if n == 0 then 0
    else ExpectedTotal(files, patterns, n - 1) + (if Searched(patterns[n - 1]) then FilesMatches(files, patterns[n - 1], |files|) else 0)
  }

  /** What the scans print over the first `n` patterns, pattern after pattern. */
  function ExpectedOutput(ctx: SearchContext, n: nat): seq<byte>
    requires n <= |ctx.patterns|
  {
    if n == 0 then []
    else ExpectedOutput(ctx, n - 1) + (if Searched(ctx.patterns[n - 1]) then FilesOutput(ctx, ctx.patterns[n - 1], |ctx.files|) else [])
  }

  /** The warnings for the first `n` patterns: one per pattern longer than `MAX_PATTERN_LENGTH`, numbered from 1 in order. */
  function SkipWarnings(patterns: seq<seq<byte>>, n: nat): (w: seq<Warning>)
    requires n <= |patterns|
    ensures |w| <= n
    ensures forall m :: 0 <= m < |w| ==> w[m].reason == TooLong && 0 < w[m].patternNumber <= n
    ensures forall a, b :: 0 <= a < b < |w| ==> w[a].patternNumber < w[b].patternNumber
    ensures forall number {:trigger Warned(w, number)} :: 0 < number <= n ==> (Warned(w, number) <==> !Searched(patterns[number - 1]))
  {
    if n == 0 then []
    else
      var prev := SkipWarnings(patterns, n - 1);
      assert !Warned(prev, n);
      if Searched(patterns[n - 1]) then prev
      else WarnedAppend(prev, Skipped(n, TooLong)); prev + [Skipped(n, TooLong)]
  }

  /** No match over the first `n` files iff the pattern occurs in none of them. */
  lemma {:induction false} FilesMatchesZero(files: seq<seq<byte>>, p: seq<byte>, n: nat)
    requires n <= |files|
    ensures FilesMatches(files, p, n) == 0 <==> forall j :: 0 <= j < n ==> Occurrences(files[j], p) == []
  {
    if n > 0 {
      FilesMatchesZero(files, p, n - 1);
    }
  }

  /** The total is zero iff no searched pattern occurs in any file. */
  lemma {:induction false} ExpectedTotalZero(files: seq<seq<byte>>, patterns: seq<seq<byte>>, n: nat)
    requires n <= |patterns|
    ensures ExpectedTotal(files, patterns, n) == 0 <==>
      forall i, j :: 0 <= i < n && 0 <= j < |files| && Searched(patterns[i]) ==> Occurrences(files[j], patterns[i]) == []
  {
    if n > 0 {
      ExpectedTotalZero(files, patterns, n - 1);
      FilesMatchesZero(files, patterns[n - 1], |files|);
    }
  }

  /** The loop of `brute_force_search` over the files for one searched pattern. */
  method ScanFiles(ctx: SearchContext, p: seq<byte>) returns (total: nat, output: seq<byte>)
    requires 0 < |p| <= MAX_PATTERN_LENGTH
    ensures total == FilesMatches(ctx.files, p, |ctx.files|)
    ensures output == FilesOutput(ctx, p, |ctx.files|)
  {
    total, output := 0, [];
    var j := 0;
    while j < |ctx.files|
      invariant 0 <= j <= |ctx.files|
      invariant total == FilesMatches(ctx.files, p, j)
      invariant output == FilesOutput(ctx, p, j)
    {
      var count, out := RunBruteForce(ctx.files[j], p, BUFFER_SIZE, ctx.onlyCount, ctx.onlyMatching, ctx.printByteOffset);
      total := total + count;
      output := output + out;
      j := j + 1;
    }
  }

  /**
   * `brute_force_search`: scan every file for every pattern of at most
   * `MAX_PATTERN_LENGTH` bytes and warn about the others. Count mode prints
   * the total at the end; the result reports matches iff the total is
   * positive.
   */
  method BruteForceSearch(ctx: SearchContext) returns (r: SearchResult)
    requires ctx.Valid()
    ensures r.total == ExpectedTotal(ctx.files, ctx.patterns, |ctx.patterns|)
    ensures r.code == Outcome(r.total)
    ensures r.output == ExpectedOutput(ctx, |ctx.patterns|) + CountOutput(ctx.onlyCount, r.total)
    ensures r.warnings == SkipWarnings(ctx.patterns, |ctx.patterns|)
  {
    var total := 0;
    var output := [];
    var warnings := [];
    var i := 0;
    while i < |ctx.patterns|
      invariant 0 <= i <= |ctx.patterns|
      invariant total == ExpectedTotal(ctx.files, ctx.patterns, i)
      invariant output == ExpectedOutput(ctx, i)
      invariant warnings == SkipWarnings(ctx.patterns, i)
    {
      var p := ctx.patterns[i];
      if |p| <= MAX_PATTERN_LENGTH {
        var count, out := ScanFiles(ctx, p);
        total := total + count;
        output := output + out;
      } else {
        warnings := warnings + [Skipped(i + 1, TooLong)];
      }
      i := i + 1;
    }
    r := SearchResult(Outcome(total), total, output + CountOutput(ctx.onlyCount, total), warnings);
  }

  // ------------------------------------------------------ scan bound as written

  /** The comparison of line 19 with scan bound `bound`: how far `p` matches from `buffer[i + j]` on. */
  function MatchLength(buffer: seq<byte>, bound: nat, p: seq<byte>, i: nat, j: nat): (r: nat)
    requires bound <= |buffer|
    ensures j <= r && (r == j || (r <= |p| && i + r <= bound))
    decreases |p| - j
  {
    if j < |p| && i + j < bound && p[j] == buffer[i + j] then MatchLength(buffer, bound, p, i, j + 1) else j
  }

  /**
   * The `i` loop as written (lines 18-35): the scan bound is the number of
   * bytes just read, whatever was carried in front of them. Gives the buffer
   * indices where a match is counted and the bytes carried to the next read
   * when the loop breaks.
   */
  function ScanAsWritten(buffer: seq<byte>, bound: nat, p: seq<byte>, i: nat, j: nat): (r: (seq<nat>, Option<seq<byte>>))
    requires bound <= |buffer| && i + j <= |buffer| && j < |p|
    ensures forall x :: x in r.0 ==> i <= x < bound
    ensures r.1.Some? ==> |r.1.value| < |p|
    decreases bound - i
  {
    if i >= bound then ([], None)
    else
      var jj := MatchLength(buffer, bound, p, i, j);
      if jj == |p| then
        var r := ScanAsWritten(buffer, bound, p, i + 1, 0);
        ([i] + r.0, r.1)
      else if i + jj >= bound then ([], Some(buffer[i..i + jj]))
      else ScanAsWritten(buffer, bound, p, i + 1, 0)
  }

  /** `total_read + i + j - pattern->length` of line 27 at a match, where `j` is the pattern length. */
  function AsWrittenOffsets(indices: seq<nat>, totalRead: nat): (offsets: seq<nat>)
    ensures |offsets| == |indices|
    ensures forall k :: 0 <= k < |indices| ==> offsets[k] == totalRead + indices[k]
  {
    if |indices| == 0 then [] else [totalRead + indices[0]] + AsWrittenOffsets(indices[1..], totalRead)
  }

  /**
   * The offsets `run_brute_force` as written prints in only-matching mode,
   * from file position `pos` with `carry` at the buffer's front: each read
   * appends after the carry, its scan stops at the number of bytes read, and
   * a buffer index is turned into an offset by adding the bytes read before,
   * as if nothing had been carried. Each printed offset lies in the file.
   */
  function RunAsWritten(content: seq<byte>, p: seq<byte>, capacity: nat, pos: nat, carry: seq<byte>): (offsets: seq<nat>)
    requires |carry| < |p| <= capacity && pos <= |content|
    ensures forall x :: x in offsets ==> pos <= x < |content|
    decreases |content| - pos
  {
    var n := if capacity - |carry| < |content| - pos then capacity - |carry| else |content| - pos;
    if n == 0 then []
    else
      var r := ScanAsWritten(carry + content[pos..pos + n], n, p, 0, |carry|);
      var printed := AsWrittenOffsets(r.0, pos);
      assert forall k :: 0 <= k < |printed| ==> r.0[k] in r.0;
      printed + RunAsWritten(content, p, capacity, pos + n, if r.1.Some? then r.1.value else [])
  }

  /** A file that fills the first read with 'x' bytes and an 'a', followed by a 'b'. */
  function Straddling(capacity: nat): (t: seq<byte>)
    requires capacity > 0
    ensures |t| == capacity + 1
  {
    seq(capacity - 1, _ => 120) + [97, 98]
  }

  /** Scanning 'x' bytes up to a final 'a' for "ab" carries the 'a' and counts nothing. */
  lemma {:induction false} ScanUpToA(buffer: seq<byte>, bound: nat, i: nat)
    requires bound == |buffer| && i < bound && buffer[bound - 1] == 97
    requires forall k :: i <= k < bound - 1 ==> buffer[k] == 120
    ensures ScanAsWritten(buffer, bound, [97, 98], i, 0) == ([], Some([97]))
    decreases bound - i
  {
    if i < bound - 1 {
      ScanUpToA(buffer, bound, i + 1);
    } else {
      assert MatchLength(buffer, bound, [97, 98], i, 1) == 1;
      assert buffer[i..i + 1] == [97];
    }
  }

  /** No occurrence starts among bytes that differ from the pattern's first byte. */
  lemma {:induction false} NoStartsBefore(t: seq<byte>, p: seq<byte>, n: nat)
    requires 0 < |p| && n <= |t|
    requires forall k :: 0 <= k < n ==> t[k] != p[0]
    ensures StartsBelow(t, p, n) == []
  {
    if n > 0 {
      NoStartsBefore(t, p, n - 1);

    }
  }

  /**
   * With any buffer of at least 6 bytes, `BUFFER_SIZE` included, the file
   * `Straddling(capacity)` has "ab" at the last position of the first read
   * and the next one, but the carried 'a' is scanned against a bound of one
   * byte and the occurrence is never counted.
   */
  lemma CarryDropsOccurrence(capacity: nat)
    requires capacity >= 6
    ensures Occurrences(Straddling(capacity), [97, 98]) == [capacity - 1]
    ensures RunAsWritten(Straddling(capacity), [97, 98], capacity, 0, []) == []
  {
    var t, p := Straddling(capacity), [97, 98];
    NoStartsBefore(t, p, capacity - 1);
    assert t[capacity - 1..capacity + 1] == p;
    assert StartsBelow(t, p, capacity) == [capacity - 1];
    assert Occurrences(t, p) == StartsBelow(t, p, capacity + 1) == [capacity - 1];
    assert [] + t[0..capacity] == seq(capacity - 1, _ => 120) + [97];
    ScanUpToA([] + t[0..capacity], capacity, 0);
    var second := [97] + t[capacity..capacity + 1];
    assert second == [97, 98];
    assert MatchLength(second, 1, p, 0, 1) == 1;
    assert second[0..1] == [97];
    assert ScanAsWritten(second, 1, p, 0, 1) == ([], Some([97]));
    assert RunAsWritten(t, p, capacity, capacity + 1, [97]) == [];
    assert RunAsWritten(t, p, capacity, capacity, [97]) == [];
  }

  /** The example at the search's own buffer size. */
  lemma CarryDropsOccurrenceAtBufferSize()
    ensures |Occurrences(Straddling(BUFFER_SIZE), [97, 98])| == 1
    ensures RunAsWritten(Straddling(BUFFER_SIZE), [97, 98], BUFFER_SIZE, 0, []) == []
  {
    CarryDropsOccurrence(BUFFER_SIZE);
  }

  /** The file of `CarryShiftsOffset`: "xxxxxaxabxx". */
  function Shifting(): (t: seq<byte>)
    ensures |t| == 11
  {
    [120, 120, 120, 120, 120, 97, 120, 97, 98, 120, 120]
  }

  /** "ab" occurs in "xxxxxaxabxx" at offset 7 only. */
  lemma ShiftingOccurrences()
    ensures Occurrences(Shifting(), [97, 98]) == [7]
  {
    var t: seq<byte>, p: seq<byte> := Shifting(), [97, 98];
    NoStartsBefore(t, p, 5);
    assert !OccursAt(t, p, 5) by { assert t[5..7][1] == 120; }
    assert OccursAt(t, p, 7) by { assert t[7..9] == p; }
    assert StartsBelow(t, p, 8) == [7];
  }

  /** The second read's buffer, the carried 'a' then "xabxx", scanned to bound 5 from `j = 1`: one match, at index 2. */
  lemma SecondReadScan(buffer: seq<byte>)
    requires buffer == [97, 120, 97, 98, 120, 120]
    ensures ScanAsWritten(buffer, 5, [97, 98], 0, 1) == ([2], None)
  {
    var p: seq<byte> := [97, 98];
    assert ScanAsWritten(buffer, 5, p, 3, 0) == ([], None);
    assert MatchLength(buffer, 5, p, 2, 2) == 2;
    assert MatchLength(buffer, 5, p, 2, 1) == 2;
    assert MatchLength(buffer, 5, p, 2, 0) == 2;
    assert ScanAsWritten(buffer, 5, p, 2, 0) == ([2] + ScanAsWritten(buffer, 5, p, 3, 0).0, None);
    assert [2] + ScanAsWritten(buffer, 5, p, 3, 0).0 == [2];
    assert ScanAsWritten(buffer, 5, p, 2, 0) == ([2], None);
    assert MatchLength(buffer, 5, p, 1, 0) == 0;
    assert MatchLength(buffer, 5, p, 0, 1) == 1;
  }

  /**
   * With a 6-byte buffer, the file "xxxxxaxabxx" has "ab" at offset 7 only.
   * The first read ends on the 'a' at offset 5, which is carried; in the
   * second read the occurrence sits at buffer index 2, and line 27 prints
   * `6 + 2 = 8`, one past the true start, the carried byte counted twice.
   */
  lemma CarryShiftsOffset()
    ensures Occurrences(Shifting(), [97, 98]) == [7]
    ensures RunAsWritten(Shifting(), [97, 98], 6, 0, []) == [8]
  {
    ShiftingOccurrences();
    ShiftingFirstRead();
    ShiftingSecondRead();
  }

  /** The first read of "xxxxxaxabxx" fills the 6 bytes up to the 'a', counts nothing and carries the 'a'. */
  lemma ShiftingFirstRead()
    ensures RunAsWritten(Shifting(), [97, 98], 6, 0, []) == RunAsWritten(Shifting(), [97, 98], 6, 6, [97])
  {
    var t := Shifting();
    assert [] + t[0..6] == [120, 120, 120, 120, 120, 97];
    ScanUpToA([] + t[0..6], 6, 0);
  }

  /** The second read takes the last 5 bytes behind the carried 'a' and prints offset 8. */
  lemma ShiftingSecondRead()
    ensures RunAsWritten(Shifting(), [97, 98], 6, 6, [97]) == [8]
  {
    var t := Shifting();
    assert [97] + t[6..11] == [97, 120, 97, 98, 120, 120];
    SecondReadScan([97] + t[6..11]);
    assert AsWrittenOffsets([2], 6) == [8];
    assert RunAsWritten(t, [97, 98], 6, 11, []) == [];
  }
}
