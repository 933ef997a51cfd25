/**
 * Shared value types of the search engine: bytes, the search context, the
 * per-pattern warnings and the tri-state result of a search
 * (src/types.h, src/log.h).
 */
module Types {

  /** One byte of a pattern or of a file (`uint_8`). */
  type byte = b: int | 0 <= b < 256

  /** The line terminator `'\n'`. */
  const LF: byte := 10

  /** The byte alphabet size, `BYTE_MAX + 1`. */
  const ALPH_SIZE: nat := 256

  /** `UCHAR_MAX`, the largest byte value. */
  const BYTE_MAX: nat := 255

  /** Size of one read of a file, 256 KiB. */
  const BUFFER_SIZE: nat := 262144

  datatype Option<T> = None | Some(value: T)

  /** Process status a search returns: EXIT_MATCHES, EXIT_NOMATCH or EXIT_MISTAKE. */
  datatype ExitCode = Matches | NoMatch | Mistake {
    function Code(): nat {
      match this
      case Matches => 0
      case NoMatch => 1
      case Mistake => 2
    }
  }

  /** Why a pattern was skipped. */
  datatype SkipReason = TooLong | EditTooLarge

  /** A non-fatal warning naming the skipped pattern by its 1-based index. */
  datatype Warning = Skipped(patternNumber: nat, reason: SkipReason)

  /** Some warning names pattern `number`. */
  predicate Warned(w: seq<Warning>, number: nat) {
    exists m :: 0 <= m < |w| && w[m].patternNumber == number
  }

  /** Appending a warning adds exactly its own pattern to those named. */
  lemma WarnedAppend(w: seq<Warning>, x: Warning)
    ensures forall number :: Warned(w + [x], number) <==> Warned(w, number) || x.patternNumber == number
  {
    forall number | Warned(w, number)
      ensures Warned(w + [x], number)
    {
      var m :| 0 <= m < |w| && w[m].patternNumber == number;
      assert (w + [x])[m] == w[m];
    }
    assert (w + [x])[|w|] == x;
  }

  /**
   * The search configuration: file contents, patterns, the edit-distance bound
   * (a `uint_8`) and the three reporting flags.
   */
  datatype SearchContext = SearchContext(
    files: seq<seq<byte>>,
    patterns: seq<seq<byte>>,
    editDistance: nat,
    onlyCount: bool,
    onlyMatching: bool,
    printByteOffset: bool)
  {
    /** Every pattern is non-empty and the edit distance fits a byte. */
    predicate Valid() {
      editDistance <= BYTE_MAX && forall i :: 0 <= i < |patterns| ==> |patterns[i]| > 0
    }
  }

  /** What a search facade hands back: its status, the total count, stdout and the warnings. */
  datatype SearchResult = SearchResult(code: ExitCode, total: nat, output: seq<byte>, warnings: seq<Warning>)

  /** `EXIT_MATCHES` iff at least one match was counted. */
  function Outcome(total: nat): (c: ExitCode)
    ensures c == Matches <==> total > 0
    ensures c != Mistake
  {
    if total > 0 then Matches else NoMatch
  }

  /** What count mode prints after a search: the total in decimal and a line feed; nothing otherwise. */
  function CountOutput(onlyCount: bool, total: nat): (out: seq<byte>)
    ensures onlyCount ==> |out| >= 2 && out[|out| - 1] == LF
    ensures onlyCount ==> forall i :: 0 <= i < |out| - 1 ==> '0' as int <= out[i] <= '9' as int
    ensures onlyCount ==> ParseDecimal(out[..|out| - 1]) == total
    ensures onlyCount ==> out[..|out| - 1] == Decimal(total)
    ensures !onlyCount ==> out == []
  {
    if onlyCount then
      DecimalRoundTrip(total);
      assert (Decimal(total) + [LF])[..|Decimal(total)|] == Decimal(total);
      Decimal(total) + [LF]
    else []
  }

  /** The concatenation of the chunks successive reads return. */
  function Flatten(chunks: seq<seq<byte>>): (t: seq<byte>)
    decreases |chunks|
  {
    if |chunks| == 0 then [] else Flatten(chunks[..|chunks| - 1]) + chunks[|chunks| - 1]
  }

  lemma FlattenPrefix(chunks: seq<seq<byte>>, k: nat)
    requires k < |chunks|
    ensures Flatten(chunks[..k + 1]) == Flatten(chunks[..k]) + chunks[k]
  {
    assert chunks[..k + 1][..k] == chunks[..k];
  }

  lemma FlattenAll(chunks: seq<seq<byte>>)
    ensures Flatten(chunks[..|chunks|]) == Flatten(chunks)
  {
    assert chunks[..|chunks|] == chunks;
  }

  /** What the first `m` reads returned is a prefix of the whole content. */
  lemma {:induction false} FlattenPrefixOf(chunks: seq<seq<byte>>, m: nat)
    requires m <= |chunks|
    ensures |Flatten(chunks[..m])| <= |Flatten(chunks)|
    ensures Flatten(chunks)[..|Flatten(chunks[..m])|] == Flatten(chunks[..m])
    decreases |chunks| - m
  {
    if m == |chunks| {
      FlattenAll(chunks);
    } else {
      FlattenPrefixOf(chunks, m + 1);
      FlattenPrefix(chunks, m);
      var a, b := Flatten(chunks[..m]), Flatten(chunks[..m + 1]);
      assert b[..|a|] == a;
    }
  }

  /** Byte `i` of read `k` sits at its running offset in the whole content. */
  lemma ChunkAt(chunks: seq<seq<byte>>, k: nat, i: nat)
    requires k < |chunks| && i < |chunks[k]|
    ensures |Flatten(chunks[..k])| + i < |Flatten(chunks)|
    ensures Flatten(chunks)[|Flatten(chunks[..k])| + i] == chunks[k][i]
  {
    FlattenPrefixOf(chunks, k + 1);
    FlattenPrefix(chunks, k);
    var a, b := Flatten(chunks[..k]), Flatten(chunks[..k + 1]);
    assert b[|a| + i] == chunks[k][i];
  }

  /** Read `k` is the slice of the whole content that starts at its running offset. */
  lemma ReadAt(chunks: seq<seq<byte>>, k: nat)
    requires k < |chunks|
    ensures |Flatten(chunks[..k])| + |chunks[k]| <= |Flatten(chunks)|
    ensures Flatten(chunks)[|Flatten(chunks[..k])|..|Flatten(chunks[..k])| + |chunks[k]|] == chunks[k]
  {
    FlattenPrefixOf(chunks, k + 1);
    FlattenPrefix(chunks, k);
    var a, b := Flatten(chunks[..k]), Flatten(chunks[..k + 1]);
    assert b[|a|..] == chunks[k];
  }

  /** The reads of `content` in pieces of at most `size` bytes, as `fread` returns them from a regular file. */
  function Chunked(content: seq<byte>, size: nat): (chunks: seq<seq<byte>>)
    requires size > 0
    ensures Flatten(chunks) == content
    ensures forall i :: 0 <= i < |chunks| ==> 0 < |chunks[i]| <= size
    decreases |content|
  {
    if |content| == 0 then []
    else if |content| <= size then
      assert Flatten([content]) == Flatten([content][..0]) + content;
      [content]
    else
      var rest := Chunked(content[size..], size);
      var r := [content[..size]] + rest;
      FlattenCons(content[..size], rest);
      assert content[..size] + content[size..] == content;
      r
  }

  lemma {:induction false} FlattenCons(c: seq<byte>, rest: seq<seq<byte>>)
    ensures Flatten([c] + rest) == c + Flatten(rest)
    decreases |rest|
  {
    if |rest| == 0 {
      assert [c] + rest == [c];
      assert Flatten([c]) == Flatten([c][..0]) + c;
    } else {
      var init := rest[..|rest| - 1];
      FlattenCons(c, init);
      assert ([c] + rest)[..|[c] + rest| - 1] == [c] + init;
    }
  }

  /** Decimal digits of `n` as printed by `printf("%zu")`: no leading zero, so "0" only for 0. */
  function Decimal(n: nat): (s: seq<byte>)
    ensures |s| > 0
    ensures forall i :: 0 <= i < |s| ==> '0' as int <= s[i] <= '9' as int
    ensures s[0] as int == '0' as int <==> n == 0
    ensures |s| == 1 <==> n < 10
    decreases n
  {
    if n < 10 then [('0' as int + n) as byte] else Decimal(n / 10) + [('0' as int + n % 10) as byte]
  }

  /** Reading decimal digits back, the partner of `Decimal`. */
  function ParseDecimal(s: seq<byte>): nat
    requires forall i :: 0 <= i < |s| ==> '0' as int <= s[i] <= '9' as int
    decreases |s|
  {
    if |s| == 0 then 0 else 10 * ParseDecimal(s[..|s| - 1]) + (s[|s| - 1] - '0' as int)
  }

  lemma {:induction false} DecimalRoundTrip(n: nat)
    ensures ParseDecimal(Decimal(n)) == n
    decreases n
  {
    if n >= 10 {
      DecimalRoundTrip(n / 10);
      var s := Decimal(n);
      assert s[..|s| - 1] == Decimal(n / 10);
    }
  }

  /**
   * The `offset:` prefix written by `printf("%zu:", offset)` when byte
   * offsets are printed, and nothing otherwise; its digits read back as
   * `offset`.
   */
  function OffsetPrefix(offset: nat, printByteOffset: bool): (r: seq<byte>)
    ensures !printByteOffset ==> r == []
    ensures printByteOffset ==> |r| > 0 && r[|r| - 1] == ':' as int as byte
    ensures printByteOffset ==> r[..|r| - 1] == Decimal(offset) && ParseDecimal(r[..|r| - 1]) == offset
  {
    if printByteOffset then
      var r := Decimal(offset) + [':' as int as byte];
      DecimalRoundTrip(offset);
      assert r[..|r| - 1] == Decimal(offset);
      r
    else []
  }

  /** What `printf("%.*s", |s|, s)` writes of the bytes `s`: the bytes before the first zero byte. */
  function Printed(s: seq<byte>): seq<byte> {
    if |s| == 0 || s[0] == 0 then [] else [s[0]] + Printed(s[1..])
  }

  /**
   * The conversion stops exactly at the first zero byte: what it writes is a
   * prefix of `s` without a zero byte, followed in `s` by a zero byte or by
   * nothing.
   */
  lemma {:induction false} PrintedStops(s: seq<byte>)
    ensures var r := Printed(s);
      |r| <= |s| && r == s[..|r|] && (forall i :: 0 <= i < |r| ==> r[i] != 0) && (|r| < |s| ==> s[|r|] == 0)
  {
    if |s| > 0 && s[0] != 0 {
      PrintedStops(s[1..]);
      var r := Printed(s[1..]);
      assert s[..|r| + 1] == [s[0]] + s[1..][..|r|];
    }
  }
}
