/** `read_ata_data` as its shooter loop is written: `while (!eof)` tests for
    end of file BEFORE each read, and the end-of-file flag is only raised by a
    read that comes up short. So after the last full line the loop reads once
    more. That read copies the bytes that remain (possibly none) over the
    front of the line buffer and leaves the rest of the buffer as the
    previous line left it; the terminator check then looks at those stale
    bytes, and a shooter is built from the mixture.

    This module models that loop and proves what it does differently from
    `Reader.Load`, which the rest of the model uses. */
module ReaderAsWritten {
  import opened Field
  import opened Records
  import opened Reader

  /** The loop from file position `pos`, with `buffer` the first 318 bytes
      of the line buffer as the previous read left them. A read of fewer
      than 318 bytes raises end of file, which ends the loop after that pass;
      a failed terminator check fails the whole load. */
  function ReadLoop(file: seq<Byte>, pos: nat, buffer: seq<Byte>): Result<seq<Shooter>, FormatError>
    requires pos <= |file| && |buffer| == ShooterLineLength
    decreases |file| - pos
  {
    var n := if |file| - pos < ShooterLineLength then |file| - pos else ShooterLineLength;
    var line := file[pos .. pos + n] + buffer[n..];
    if !EndsWithCrLf(line) then Failure(UnexpectedFileFormat)
    else if n < ShooterLineLength then Success([ShooterOf(line)])
    else
      match ReadLoop(file, pos + n, line)
      case Success(more) => Success([ShooterOf(line)] + more)
      case Failure(e) => Failure(e)
  }

  /** The whole load as written. The header read fills the buffer first, so
      the first shooter read lands on top of the header line. */
  function LoadAsWritten(file: seq<Byte>): Result<Dataset, FormatError>
  {
    if |file| < HeaderLineLength || !EndsWithCrLf(file[..HeaderLineLength]) then
      Failure(UnexpectedFileFormat)
    else
      match ReadLoop(file, HeaderLineLength, file[..ShooterLineLength])
      case Success(shooters) => Success(Dataset(HeaderOf(file[..HeaderLineLength]), shooters))
      case Failure(e) => Failure(e)
  }

  /** What the line buffer holds before the read of line `j`: the header
      line for the first shooter line, the previous shooter line otherwise. */
  function PreviousLine(file: seq<Byte>, j: nat): (line: seq<Byte>)
    requires |file| >= HeaderLineLength && j <= |FullLines(file[HeaderLineLength..])|
    ensures |line| == ShooterLineLength
  {
    if j == 0 then file[..ShooterLineLength] else FullLines(file[HeaderLineLength..])[j - 1]
  }

  /** What the line buffer holds after the extra read past the last full
      line: the bytes that were left over, then the stale rest of the last
      line read. */
  function ExtraLine(file: seq<Byte>): (line: seq<Byte>)
    requires |file| >= HeaderLineLength
    ensures |line| == ShooterLineLength
  {
    var k := |FullLines(file[HeaderLineLength..])|;
    FullLinesCut(file[HeaderLineLength..]);
    var at := HeaderLineLength + ShooterLineLength * k;
    file[at..] + PreviousLine(file, k)[|file| - at..]
  }

  /** From line `j` on, the loop parses the remaining full lines as `Load`
      does and then runs one more pass over the extra line. */
  predicate ParsesRestFrom(file: seq<Byte>, j: nat)
    requires Load(file).Success?
    requires j <= |FullLines(file[HeaderLineLength..])|
  {
    LineStart(file, j);
    ReadLoop(file, HeaderLineLength + ShooterLineLength * j, PreviousLine(file, j))
    == if EndsWithCrLf(ExtraLine(file))
       then Success(Load(file).value.shooters[j..] + [ShooterOf(ExtraLine(file))])
       else Failure(UnexpectedFileFormat)
  }

  lemma {:induction false} ReadLoopFrom(file: seq<Byte>, j: nat)
    requires Load(file).Success?
    requires j <= |FullLines(file[HeaderLineLength..])|
    ensures ParsesRestFrom(file, j)
    decreases |FullLines(file[HeaderLineLength..])| - j
  {
    if j < |FullLines(file[HeaderLineLength..])| {
      ReadLoopFrom(file, j + 1);
      ParsesRestStep(file, j);
    } else {
      ParsesRestAtEnd(file);
    }
  }

  /** One full line more in front of the rest. */
  lemma ParsesRestStep(file: seq<Byte>, j: nat)
    requires Load(file).Success?
    requires j < |FullLines(file[HeaderLineLength..])|
    requires ParsesRestFrom(file, j + 1)
    ensures ParsesRestFrom(file, j)
  {
    var shooters := Load(file).value.shooters;
    LineStart(file, j + 1);
    ReadLoopFullLine(file, j);
    var pos := HeaderLineLength + ShooterLineLength * j;
    PrependResult(ReadLoop(file, pos, PreviousLine(file, j)), ReadLoop(file, pos + ShooterLineLength, PreviousLine(file, j + 1)),
                  shooters, j, EndsWithCrLf(ExtraLine(file)), ShooterOf(ExtraLine(file)));
  }

  /** The sequence algebra of one step: a result that puts shooter `j` in
      front of the result for the shooters after it. */
  lemma PrependResult(here: Result<seq<Shooter>, FormatError>, next: Result<seq<Shooter>, FormatError>,
                      shooters: seq<Shooter>, j: nat, ok: bool, extra: Shooter)
    requires j < |shooters|
    requires here == match next
                     case Success(m) => Success([shooters[j]] + m)
                     case Failure(e) => Failure(e)
    requires next == if ok then Success(shooters[j + 1..] + [extra]) else Failure(UnexpectedFileFormat)
    ensures here == if ok then Success(shooters[j..] + [extra]) else Failure(UnexpectedFileFormat)
  {
    if ok {
      assert [shooters[j]] + (shooters[j + 1..] + [extra]) == shooters[j..] + [extra];
    }
  }

  /** After the last full line only the extra pass is left. */
  lemma ParsesRestAtEnd(file: seq<Byte>)
    requires Load(file).Success?
    ensures ParsesRestFrom(file, |FullLines(file[HeaderLineLength..])|)
  {
    var shooters := Load(file).value.shooters;
    var k := |FullLines(file[HeaderLineLength..])|;
    assert k == |shooters|;
    ReadLoopLastPass(file);
    assert shooters[k..] + [ShooterOf(ExtraLine(file))] == [ShooterOf(ExtraLine(file))];
  }

  /** A pass over full line `j` parses it and goes on with it in the buffer. */
  lemma ReadLoopFullLine(file: seq<Byte>, j: nat)
    requires Load(file).Success?
    requires j < |FullLines(file[HeaderLineLength..])|
    ensures HeaderLineLength + ShooterLineLength * (j + 1) <= |file|
    ensures var pos := HeaderLineLength + ShooterLineLength * j;
      ReadLoop(file, pos, PreviousLine(file, j))
      == match ReadLoop(file, pos + ShooterLineLength, PreviousLine(file, j + 1))
         case Success(m) => Success([Load(file).value.shooters[j]] + m)
         case Failure(e) => Failure(e)
  {
    var lines := FullLines(file[HeaderLineLength..]);
    var pos := HeaderLineLength + ShooterLineLength * j;
    LineStart(file, j + 1);
    FullLineAt(file, j);
    var line := file[pos .. pos + ShooterLineLength];
    assert line == lines[j] == PreviousLine(file, j + 1);
    assert EndsWithCrLf(line) && Load(file).value.shooters[j] == ShooterOf(line);
    ReadLoopWholeLine(file, pos, PreviousLine(file, j));
  }

  /** A pass that reads a whole line with its terminator parses that line
      and goes on with it in the buffer. */
  lemma ReadLoopWholeLine(file: seq<Byte>, pos: nat, buffer: seq<Byte>)
    requires pos + ShooterLineLength <= |file| && |buffer| == ShooterLineLength
    requires EndsWithCrLf(file[pos .. pos + ShooterLineLength])
    ensures ReadLoop(file, pos, buffer)
      == match ReadLoop(file, pos + ShooterLineLength, file[pos .. pos + ShooterLineLength])
         case Success(m) => Success([ShooterOf(file[pos .. pos + ShooterLineLength])] + m)
         case Failure(e) => Failure(e)
  {
    var line := file[pos .. pos + ShooterLineLength];
    assert line + buffer[ShooterLineLength..] == line;
  }

  /** The pass after the last full line reads the leftover bytes into the
      buffer and parses the extra line, whatever its stale bytes hold. */
  lemma ReadLoopLastPass(file: seq<Byte>)
    requires |file| >= HeaderLineLength
    ensures var k := |FullLines(file[HeaderLineLength..])|;
      HeaderLineLength + ShooterLineLength * k <= |file|
      && ReadLoop(file, HeaderLineLength + ShooterLineLength * k, PreviousLine(file, k))
         == if EndsWithCrLf(ExtraLine(file)) then Success([ShooterOf(ExtraLine(file))])
            else Failure(UnexpectedFileFormat)
  {
    var k := |FullLines(file[HeaderLineLength..])|;
    var pos := HeaderLineLength + ShooterLineLength * k;
    LineStart(file, k);
    FullLinesCut(file[HeaderLineLength..]);
    var n := |file| - pos;
    assert n < ShooterLineLength;
    assert file[pos .. pos + n] == file[pos..];
  }

  /** Line `j` of `FullLines`, or the leftover piece when `j` is their count,
      starts within the file. */
  lemma LineStart(file: seq<Byte>, j: nat)
    requires |file| >= HeaderLineLength && j <= |FullLines(file[HeaderLineLength..])|
    ensures HeaderLineLength + ShooterLineLength * j <= |file|
  {
    FullLinesCut(file[HeaderLineLength..]);
  }

  /** The loop as written always runs one pass too many. When every full line
      loads, it returns the same header and shooters as `Load` followed by one
      more shooter built from the extra line, or fails if the extra line's
      stale bytes 316 and 317 are not CR LF. */
  lemma AsWrittenReadsOnePastEnd(file: seq<Byte>)
    requires Load(file).Success?
    ensures LoadAsWritten(file)
            == if EndsWithCrLf(ExtraLine(file))
               then Success(Dataset(Load(file).value.header, Load(file).value.shooters + [ShooterOf(ExtraLine(file))]))
               else Failure(UnexpectedFileFormat)
  {
    ReadLoopFrom(file, 0);
    assert ParsesRestFrom(file, 0);
    LoadReadsEveryFullLine(file);
    assert Load(file).value.shooters[0..] == Load(file).value.shooters;
  }

  /** A file that ends exactly after its last shooter line: the extra read
      gets no bytes, leaves that line in the buffer, and the last shooter is
      appended a second time. */
  lemma AsWrittenDuplicatesLastShooter(file: seq<Byte>)
    requires Load(file).Success?
    requires |Load(file).value.shooters| >= 1
    requires (|file| - HeaderLineLength) % ShooterLineLength == 0
    ensures var d := Load(file).value;
      LoadAsWritten(file) == Success(Dataset(d.header, d.shooters + [d.shooters[|d.shooters| - 1]]))
  {
    var rest := file[HeaderLineLength..];
    var lines := FullLines(rest);
    FullLinesCut(rest);
    LoadReadsEveryFullLine(file);
    var k := |lines|;
    var at := HeaderLineLength + ShooterLineLength * k;
    assert at == |file|;
    assert ExtraLine(file) == lines[k - 1];
    AsWrittenReadsOnePastEnd(file);
  }

  /** A file holding only a header line: the extra read gets no bytes and
      leaves the header line in the buffer, so the check looks at header
      bytes 316 and 317 (the last slot's target digits) and the load fails,
      where `Load` returns the header and no shooters. */
  lemma AsWrittenRejectsHeaderOnlyFile(file: seq<Byte>)
    requires |file| == HeaderLineLength && EndsWithCrLf(file)
    requires !(file[ShooterPayload] == CR && file[ShooterPayload + 1] == LF)
    ensures Load(file) == Success(Dataset(HeaderOf(file), []))
    ensures LoadAsWritten(file) == Failure(UnexpectedFileFormat)
  {
    assert file[..HeaderLineLength] == file;
    var rest := file[HeaderLineLength..];
    assert |rest| == 0;
    assert FullLines(rest) == [];
    assert Load(file).Success? && |Load(file).value.shooters| == 0;
    assert ExtraLine(file) == file[..ShooterLineLength];
    AsWrittenReadsOnePastEnd(file);
  }
}
