/**
 * The line reporter of src/algorithms/utils/common.c: `find_line` locates the
 * line terminators around a position of the buffer being scanned,
 * `print_file_line` resolves the whole line and prints it once, and
 * `file_seek` keeps relative seeks inside the file.
 *
 * Offsets that may be "not found" are `ssize` values with -1 for not found,
 * modelled as `int`. The stream probes of `print_file_line` are modelled by
 * the line bounds over the whole file content.
 */
module LineLocator {
  import opened Types

  /** `struct line`: the file offsets of a line's first byte and of its terminator, -1 when unknown. */
  datatype Line = Line(beg: int, end: int)

  /** The last index below `i` holding a line feed, if any. */
  function LastLfBefore(buffer: seq<byte>, i: nat): (r: Option<nat>)
    requires i <= |buffer|
    ensures r.Some? ==> r.value < i && buffer[r.value] == LF && forall j :: r.value < j < i ==> buffer[j] != LF
    ensures r.None? ==> forall j :: 0 <= j < i ==> buffer[j] != LF
  {
    if i == 0 then None
    else if buffer[i - 1] == LF then Some(i - 1)
    else LastLfBefore(buffer, i - 1)
  }

  /** The first index in `[i, size)` holding a line feed, if any: what `memchr` finds. */
  function FirstLfFrom(buffer: seq<byte>, i: nat, size: nat): (r: Option<nat>)
    requires i <= size <= |buffer|
    ensures r.Some? ==> i <= r.value < size && buffer[r.value] == LF && forall j :: i <= j < r.value ==> buffer[j] != LF
    ensures r.None? ==> forall j :: i <= j < size ==> buffer[j] != LF
    decreases size - i
  {
    if i == size then None
    else if buffer[i] == LF then Some(i)
    else FirstLfFrom(buffer, i + 1, size)
  }

  /**
   * The `end` half of `find_line`: the file offset of the first line feed at
   * or after `bufferIndex` in the bytes read, found exactly when there is
   * one, and -1 otherwise.
   */
  function FindEnd(buffer: seq<byte>, bufferSize: nat, bufferIndex: nat, fileOffset: nat): (end: int)
    requires bufferIndex <= bufferSize <= |buffer|
    ensures end == -1 || end >= fileOffset
    ensures end >= 0 <==> exists j :: bufferIndex <= j < bufferSize && buffer[j] == LF
    ensures end >= 0 ==>
      var j := end - fileOffset + bufferIndex;
      bufferIndex <= j < bufferSize && buffer[j] == LF && forall i :: bufferIndex <= i < j ==> buffer[i] != LF
  {
    match FirstLfFrom(buffer, bufferIndex, bufferSize)
    case Some(j) => fileOffset + (j - bufferIndex)
    case None => -1
  }

  /**
   * `find_line` as written: the backward search starts AT `bufferIndex`, so
   * a line feed there makes `beg` the offset after it. The buffer index maps
   * to `fileOffset`, so buffer index `j` maps to `fileOffset - bufferIndex + j`.
   * When `bufferIndex` is the buffer's capacity, the first byte tested lies
   * past the buffer; `beyond` stands for whatever memory holds there.
   */
  function FindLineAsWritten(buffer: seq<byte>, bufferSize: nat, bufferIndex: nat, fileOffset: nat, beyond: byte): (line: Line)
    requires bufferIndex <= bufferSize <= |buffer| && bufferIndex <= fileOffset
    ensures line.beg >= 0 <==> exists j :: 0 <= j <= bufferIndex && (buffer + [beyond])[j] == LF
    ensures line.beg >= 0 ==> line.beg <= fileOffset + 1
    ensures line.end >= 0 ==> line.end >= fileOffset
    ensures bufferIndex == |buffer| ==> (line.beg == fileOffset + 1 <==> beyond == LF)
    ensures line.end == FindEnd(buffer, bufferSize, bufferIndex, fileOffset)
    ensures line.beg >= 0 ==>
      var j := line.beg - 1 - (fileOffset - bufferIndex);
      0 <= j <= bufferIndex && (buffer + [beyond])[j] == LF && forall i :: j < i <= bufferIndex ==> (buffer + [beyond])[i] != LF
  {
    var beg := match LastLfBefore(buffer + [beyond], bufferIndex + 1)
               case Some(j) => fileOffset - bufferIndex + j + 1
               case None => -1;
    Line(beg, FindEnd(buffer, bufferSize, bufferIndex, fileOffset))
  }

  /**
   * `find_line` with the backward search over the bytes before
   * `bufferIndex` only: `beg` is the offset after the last line feed before
   * the position, `end` that of the first line feed at or after it.
   */
  function FindLine(buffer: seq<byte>, bufferSize: nat, bufferIndex: nat, fileOffset: nat): (line: Line)
    requires bufferIndex <= bufferSize <= |buffer| && bufferIndex <= fileOffset
    ensures line.beg >= 0 <==> exists j :: 0 <= j < bufferIndex && buffer[j] == LF
    ensures line.beg >= 0 ==> line.beg <= fileOffset
    ensures line.end >= 0 ==> line.end >= fileOffset
    ensures line.end >= 0 <==> exists j :: bufferIndex <= j < bufferSize && buffer[j] == LF
    ensures line.beg >= 0 ==>
      var j := line.beg - 1 - (fileOffset - bufferIndex);
      0 <= j < bufferIndex && buffer[j] == LF && forall i :: j < i < bufferIndex ==> buffer[i] != LF
    ensures line.end >= 0 ==>
      var j := line.end - (fileOffset - bufferIndex);
      bufferIndex <= j < bufferSize && buffer[j] == LF && forall i :: bufferIndex <= i < j ==> buffer[i] != LF
  {
    var beg := match LastLfBefore(buffer, bufferIndex)
               case Some(j) => fileOffset - bufferIndex + j + 1
               case None => -1;
    Line(beg, FindEnd(buffer, bufferSize, bufferIndex, fileOffset))
  }

  /**
   * The bytes `print_file_line` asks for, `(usize) (end - beg)`: the
   * difference taken modulo 2^64 as an unsigned value.
   */
  function PrintLengthAsWritten(line: Line): nat {
    (line.end - line.beg) % 0x1_0000_0000_0000_0000
  }

  /**
   * With the index one past a match of "ab" in "ab\n", as brute force passes
   * it, the line feed after the match is found both ways: `beg` lands after
   * `end`, the print length wraps to 2^64 - 1 bytes, and the print loop
   * waits for bytes a three-byte file never delivers. Searching backward from
   * below the index finds the line "ab".
   */
  lemma LineFeedAfterMatch()
    ensures FindLineAsWritten([97, 98, 10], 3, 2, 2, 0) == Line(3, 2)
    ensures PrintLengthAsWritten(FindLineAsWritten([97, 98, 10], 3, 2, 2, 0)) == 0xFFFF_FFFF_FFFF_FFFF
    ensures FindLine([97, 98, 10], 3, 2, 2) == Line(-1, 2)
  {
    assert [97, 98, 10] + [0] == [97, 98, 10, 0];
    assert LastLfBefore([97, 98, 10, 0], 3) == Some(2);
    assert LastLfBefore([97, 98, 10], 2) == None by {
      assert LastLfBefore([97, 98, 10], 1) == None;
    }
    assert FirstLfFrom([97, 98, 10], 2, 3) == Some(2);
  }

  /**
   * When a match ends a full buffer without line feeds, as a file of exactly
   * `BUFFER_SIZE` bytes ending in the pattern gives, brute force passes the
   * buffer's capacity as the index, and the line's start depends only on the
   * byte past the buffer: `beg` is one past the position when that byte is a
   * line feed and unknown otherwise. Searching below the index reads only the
   * buffer and finds no line feed.
   */
  lemma ReadsPastFullBuffer(buffer: seq<byte>, fileOffset: nat, beyond: byte)
    requires |buffer| <= fileOffset && forall j :: 0 <= j < |buffer| ==> buffer[j] != LF
    ensures FindLineAsWritten(buffer, |buffer|, |buffer|, fileOffset, beyond).beg == if beyond == LF then fileOffset + 1 else -1
    ensures FindLine(buffer, |buffer|, |buffer|, fileOffset).beg == -1
  {
    var mem := buffer + [beyond];
    assert forall j :: 0 <= j < |buffer| ==> mem[j] == buffer[j];
    if beyond != LF {
      assert forall j :: 0 <= j <= |buffer| ==> mem[j] != LF;
    }
  }

  // ------------------------------------------------------------ file lines

  /** The offset of the first byte of the line holding position `pos` of `content`. */
  function LineStart(content: seq<byte>, pos: nat): (beg: nat)
    requires pos <= |content|
    ensures beg <= pos
  {
    match LastLfBefore(content, pos)
    case Some(j) => j + 1
    case None => 0
  }

  /** The offset of the terminator of the line holding position `pos`, or the file size. */
  function LineEnd(content: seq<byte>, pos: nat): (end: nat)
    requires pos <= |content|
    ensures pos <= end <= |content|
  {
    match FirstLfFrom(content, pos, |content|)
    case Some(j) => j
    case None => |content|
  }

  /** `buffer[..bufferSize]` holds the bytes of `content` from offset `bufferStart`. */
  ghost predicate Window(content: seq<byte>, bufferStart: nat, buffer: seq<byte>, bufferSize: nat) {
    bufferSize <= |buffer| && bufferStart + bufferSize <= |content|
    && forall j :: 0 <= j < bufferSize ==> buffer[j] == content[bufferStart + j]
  }

  /**
   * The line `print_file_line` settles on: the bounds `find_line` finds in
   * the buffer, and where one is missing, the bound the probes look for
   * before or after the buffer (the file start or size when there is none).
   */
  function ResolvedLine(content: seq<byte>, bufferStart: nat, buffer: seq<byte>, bufferSize: nat, bufferIndex: nat): (line: Line)
    requires bufferIndex <= bufferSize <= |buffer| && bufferStart + bufferSize <= |content|
  {
    var found := FindLine(buffer, bufferSize, bufferIndex, bufferStart + bufferIndex);
    Line(if found.beg < 0 then LineStart(content, bufferStart) else found.beg,
         if found.end < 0 then LineEnd(content, bufferStart + bufferSize) else found.end)
  }

  lemma {:induction false} LastLfWindow(content: seq<byte>, bufferStart: nat, buffer: seq<byte>, bufferSize: nat, i: nat)
    requires Window(content, bufferStart, buffer, bufferSize) && i <= bufferSize
    ensures LastLfBefore(content, bufferStart + i) ==
      match LastLfBefore(buffer, i)
      case Some(j) => Some(bufferStart + j)
      case None => LastLfBefore(content, bufferStart)
  {
    if i > 0 {
      LastLfWindow(content, bufferStart, buffer, bufferSize, i - 1);
    }
  }

  lemma {:induction false} FirstLfWindow(content: seq<byte>, bufferStart: nat, buffer: seq<byte>, bufferSize: nat, i: nat)
    requires Window(content, bufferStart, buffer, bufferSize) && i <= bufferSize
    ensures FirstLfFrom(content, bufferStart + i, |content|) ==
      match FirstLfFrom(buffer, i, bufferSize)
      case Some(j) => Some(bufferStart + j)
      case None => FirstLfFrom(content, bufferStart + bufferSize, |content|)
    decreases bufferSize - i
  {
    if i < bufferSize {
      FirstLfWindow(content, bufferStart, buffer, bufferSize, i + 1);
    }
  }

  /**
   * Whatever part of it the buffer holds, the resolved line is the line of
   * the file around the position: from just after the last line feed before
   * it to the first line feed at or after it.
   */
  lemma ResolvedLineIsLine(content: seq<byte>, bufferStart: nat, buffer: seq<byte>, bufferSize: nat, bufferIndex: nat)
    requires Window(content, bufferStart, buffer, bufferSize) && bufferIndex <= bufferSize
    ensures ResolvedLine(content, bufferStart, buffer, bufferSize, bufferIndex)
         == Line(LineStart(content, bufferStart + bufferIndex), LineEnd(content, bufferStart + bufferIndex))
  {
    LastLfWindow(content, bufferStart, buffer, bufferSize, bufferIndex);
    FirstLfWindow(content, bufferStart, buffer, bufferSize, bufferIndex);
  }

  // ------------------------------------------------------------ printing

  /**
   * What printing a line writes: the optional `beg:` prefix, then the
   * bytes of the file from `beg` up to `end`, then a line feed.
   */
  function LineOutput(content: seq<byte>, line: Line, printByteOffset: bool): (out: seq<byte>)
    requires 0 <= line.beg <= line.end <= |content|
    ensures |out| > 0 && out[|out| - 1] == LF
  {
    OffsetPrefix(line.beg, printByteOffset) + content[line.beg..line.end] + [LF]
  }

  /** Before its line feed, a printed line is the offset prefix of its first byte and the file's bytes from `beg` to `end`. */
  lemma LineOutputParts(content: seq<byte>, line: Line, printByteOffset: bool)
    requires 0 <= line.beg <= line.end <= |content|
    ensures var out := LineOutput(content, line, printByteOffset);
      out[..|out| - 1] == OffsetPrefix(line.beg, printByteOffset) + content[line.beg..line.end]
  {
    var out := LineOutput(content, line, printByteOffset);
    assert out == (OffsetPrefix(line.beg, printByteOffset) + content[line.beg..line.end]) + [LF];
  }

  /**
   * The decision of `print_file_line` for a match at `fileOffset` whose line
   * is `line`, given the last line printed: skip a match before the last
   * line's end, and print when nothing was printed yet (the initial span
   * has `beg == end`) or the line starts elsewhere.
   */
  predicate Prints(last: Line, fileOffset: nat, line: Line) {
    fileOffset >= last.end && (last.beg == last.end || last.beg != line.beg)
  }

  /**
   * A match on the line just printed prints nothing: either it lies before
   * the line's end or it resolves to a line with the same start.
   */
  lemma PrintsOncePerLine(content: seq<byte>, printed: Line, pos: nat)
    requires pos <= |content| && printed.beg < printed.end
    requires LineStart(content, pos) == printed.beg
    ensures !Prints(printed, pos, Line(LineStart(content, pos), LineEnd(content, pos)))
  {
  }

  /**
   * When `p` holds no line feed, the line around the position just past an
   * occurrence holds the whole occurrence.
   */
  lemma LineHoldsMatch(t: seq<byte>, p: seq<byte>, s: nat)
    requires s + |p| <= |t| && t[s..s + |p|] == p
    requires forall k :: 0 <= k < |p| ==> p[k] != LF
    ensures LineStart(t, s + |p|) <= s && s + |p| <= LineEnd(t, s + |p|)
  {
    if LastLfBefore(t, s + |p|).Some? {
      var j := LastLfBefore(t, s + |p|).value;
      assert j < s;
    }
  }

  /** What the printer has done so far: the last line printed and everything written. */
  datatype Printer = Printer(last: Line, out: seq<byte>)

  /** One call of `print_file_line` for position `pos` of the file, on values. */
  function PrintStep(t: seq<byte>, pr: Printer, pos: nat, printByteOffset: bool): (r: Printer)
    requires pos <= |t|
    ensures r == pr || r.last == Line(LineStart(t, pos), LineEnd(t, pos))
  {
    var line := Line(LineStart(t, pos), LineEnd(t, pos));
    if Prints(pr.last, pos, line) then Printer(line, pr.out + LineOutput(t, line, printByteOffset)) else pr
  }

  /** The last line printed for one file: `struct line last_line`, updated through a pointer. */
  class LastLine {
    var beg: int
    var end: int

    /** `{-1, -1}`: the empty span, so the first match always prints. */
    constructor ()
      ensures beg == -1 && end == -1
    {
      beg, end := -1, -1;
    }

    /**
     * `print_file_line` for a match at position `bufferIndex` of a buffer
     * that holds the file from `bufferStart`: resolve the line, print it
     * unless the dedup rule suppresses it, and remember it when printed.
     */
    method PrintFileLine(content: seq<byte>, bufferStart: nat, buffer: seq<byte>, bufferSize: nat, bufferIndex: nat, printByteOffset: bool)
      returns (out: seq<byte>)
      requires Window(content, bufferStart, buffer, bufferSize) && bufferIndex <= bufferSize
      modifies this
      ensures var line := Line(LineStart(content, bufferStart + bufferIndex), LineEnd(content, bufferStart + bufferIndex));
        if Prints(Line(old(beg), old(end)), bufferStart + bufferIndex, line)
        then out == LineOutput(content, line, printByteOffset) && beg == line.beg && end == line.end
        else out == [] && beg == old(beg) && end == old(end)
    {
      var fileOffset := bufferStart + bufferIndex;
      if fileOffset < end {
        return [];
      }
      var line := FindLine(buffer, bufferSize, bufferIndex, fileOffset);
      if line.beg < 0 {
        line := line.(beg := LineStart(content, bufferStart));
      }
      if line.end < 0 {
        line := line.(end := LineEnd(content, bufferStart + bufferSize));
      }
      ResolvedLineIsLine(content, bufferStart, buffer, bufferSize, bufferIndex);
      if beg == end || beg != line.beg {
        out := LineOutput(content, line, printByteOffset);
        beg, end := line.beg, line.end;
      } else {
        out := [];
      }
    }
  }

  // ---------------------------------------------------------------- seeking

  /** The `whence` argument of `fseek`. */
  datatype Whence = SeekSet | SeekCur

  /**
   * `file_seek` from position `pos`: a seek that would land before offset 0
   * becomes an absolute seek to 0; `None` when `fseek` itself fails (an
   * absolute seek to a negative offset), which is fatal.
   */
  function FileSeek(pos: nat, offset: int, whence: Whence): (r: Option<nat>)
    ensures pos + offset < 0 ==> r == Some(0)
    ensures pos + offset >= 0 && whence == SeekCur ==> r == Some(pos + offset)
    ensures r.Some? && whence == SeekSet && pos + offset >= 0 ==> r.value == offset
    ensures r.None? <==> whence == SeekSet && offset < 0 <= pos + offset
  {
    if pos + offset < 0 then Some(0)
    else match whence
      case SeekCur => Some(pos + offset)
      case SeekSet => if offset < 0 then None else Some(offset)
  }
}
