/** Loading a roster file: the 320-byte header line, then 318-byte shooter
    lines, each checked for its CR LF terminator. Any bad terminator makes the
    whole load fail; no partial roster is returned.

    The loop here stops as soon as fewer than 318 bytes remain, dropping a
    short final piece. The original loop tests for end of file before each
    read instead, and so reads once more after the last full line; that
    behaviour is modelled separately, in module `ReaderAsWritten`. */
module Reader {
  import opened Field
  import opened Records

  datatype FormatError = UnexpectedFileFormat

  datatype Result<+T, +E> = Success(value: T) | Failure(error: E)

  /** The header line with its terminator: 318 + 2. */
  const HeaderLineLength := 320
  /** A shooter line with its terminator: 316 + 2. */
  const ShooterLineLength := 318

  /** The line's last two bytes are CR LF. */
  predicate EndsWithCrLf(line: seq<Byte>)
  {
    |line| >= 2 && line[|line| - 2] == CR && line[|line| - 1] == LF
  }

  /** The full shooter lines in the bytes after the header, in file order; a
      final piece shorter than a line is not one. */
  function FullLines(rest: seq<Byte>): (lines: seq<seq<Byte>>)
    ensures forall j :: 0 <= j < |lines| ==> |lines[j]| == ShooterLineLength
    decreases |rest|
  {
    if |rest| < ShooterLineLength then []
    else [rest[..ShooterLineLength]] + FullLines(rest[ShooterLineLength..])
  }

  /** `FullLines` cuts the bytes into consecutive 318-byte lines from the
      start, as many as fit: line `j` is bytes `318 * j` up to `318 * j + 318`,
      and fewer than 318 bytes are left over. */
  lemma {:induction false} FullLinesCut(rest: seq<Byte>)
    ensures ShooterLineLength * |FullLines(rest)| <= |rest| < ShooterLineLength * |FullLines(rest)| + ShooterLineLength
    ensures forall j :: 0 <= j < |FullLines(rest)| ==>
              ShooterLineLength * j + ShooterLineLength <= |rest|
              && FullLines(rest)[j] == rest[ShooterLineLength * j .. ShooterLineLength * j + ShooterLineLength]
    decreases |rest|
  {
    if |rest| >= ShooterLineLength {
      var after := rest[ShooterLineLength..];
      FullLinesCut(after);
      var tail := FullLines(after);
      assert FullLines(rest) == [rest[..ShooterLineLength]] + tail;
      forall j | 0 < j < |FullLines(rest)|
        ensures FullLines(rest)[j] == rest[ShooterLineLength * j .. ShooterLineLength * j + ShooterLineLength]
      {
        var at := ShooterLineLength * (j - 1);
        assert FullLines(rest)[j] == tail[j - 1];
        assert after[at .. at + ShooterLineLength] == rest[ShooterLineLength + at .. ShooterLineLength + at + ShooterLineLength];
      }
    }
  }

  /** The number of full lines is the integer quotient of the byte count by 318. */
  lemma FullLinesCount(rest: seq<Byte>)
    ensures |FullLines(rest)| == |rest| / ShooterLineLength
  {
    FullLinesCut(rest);
  }

  /** The roster a file holds, or the format error. */
  function Load(file: seq<Byte>): Result<Dataset, FormatError>
  {
    if |file| < HeaderLineLength || !EndsWithCrLf(file[..HeaderLineLength]) then
      Failure(UnexpectedFileFormat)
    else
      var lines := FullLines(file[HeaderLineLength..]);
      if exists j :: 0 <= j < |lines| && !EndsWithCrLf(lines[j]) then
        Failure(UnexpectedFileFormat)
      else
        Success(Dataset(HeaderOf(file[..HeaderLineLength]),
                        seq(|lines|, j requires 0 <= j < |lines| => ShooterOf(lines[j]))))
  }

  /** `read_ata_data` over the whole file: check and parse the header line,
      then check and parse one shooter line after another while a full line
      remains. */
  method ReadAtaData(file: seq<Byte>) returns (r: Result<Dataset, FormatError>)
    ensures r == Load(file)
  {
    if |file| < HeaderLineLength {
      return Failure(UnexpectedFileFormat);
    }
    var line := file[..HeaderLineLength];
    if line[HeaderPayload] != CR || line[HeaderPayload + 1] != LF {
      return Failure(UnexpectedFileFormat);
    }
    var header := ParseHeader(line);
    ghost var lines := FullLines(file[HeaderLineLength..]);
    var shooters: seq<Shooter> := [];
    var pos := HeaderLineLength;
    while |file| - pos >= ShooterLineLength
      invariant pos == HeaderLineLength + ShooterLineLength * |shooters| <= |file|
      invariant |shooters| <= |lines|
      invariant ParsedLines(lines, shooters)
      decreases |file| - pos
    {
      line := file[pos .. pos + ShooterLineLength];
      FullLineAt(file, |shooters|);
      assert line == lines[|shooters|];
      if line[ShooterPayload] != CR || line[ShooterPayload + 1] != LF {
        LoadRejectsBadLine(file, |shooters|);
        return Failure(UnexpectedFileFormat);
      }
      var shooter := ParseShooter(line);
      ParsedLinesAppend(lines, shooters, shooter);
      shooters := shooters + [shooter];
      pos := pos + ShooterLineLength;
    }
    NoFullLineAt(file, |shooters|);
    LoadAcceptsGoodLines(file, shooters);
    return Success(Dataset(header, shooters));
  }

  /** When a whole line fits at `320 + 318 * j`, it is full line `j`. */
  lemma FullLineAt(file: seq<Byte>, j: nat)
    requires HeaderLineLength + ShooterLineLength * j + ShooterLineLength <= |file|
    ensures j < |FullLines(file[HeaderLineLength..])|
    ensures var at := HeaderLineLength + ShooterLineLength * j;
      FullLines(file[HeaderLineLength..])[j] == file[at .. at + ShooterLineLength]
  {
    var rest := file[HeaderLineLength..];
    FullLinesCut(rest);
    var at := ShooterLineLength * j;
    assert rest[at .. at + ShooterLineLength] == file[HeaderLineLength + at .. HeaderLineLength + at + ShooterLineLength];
  }

  /** When no whole line fits at `320 + 318 * j`, there are exactly `j` full lines. */
  lemma NoFullLineAt(file: seq<Byte>, j: nat)
    requires HeaderLineLength + ShooterLineLength * j <= |file| < HeaderLineLength + ShooterLineLength * j + ShooterLineLength
    ensures |FullLines(file[HeaderLineLength..])| == j
  {
    FullLinesCut(file[HeaderLineLength..]);
  }

  lemma LoadRejectsBadLine(file: seq<Byte>, j: nat)
    requires |file| >= HeaderLineLength
    requires j < |FullLines(file[HeaderLineLength..])|
    requires !EndsWithCrLf(FullLines(file[HeaderLineLength..])[j])
    ensures Load(file) == Failure(UnexpectedFileFormat)
  {
  }

  /** The shooters are parsed, in order, from the leading lines, each of
      which ends in CR LF. */
  predicate ParsedLines(lines: seq<seq<Byte>>, shooters: seq<Shooter>)
    requires forall j :: 0 <= j < |lines| ==> |lines[j]| == ShooterLineLength
  {
    |shooters| <= |lines|
    && forall j :: 0 <= j < |shooters| ==> EndsWithCrLf(lines[j]) && shooters[j] == ShooterOf(lines[j])
  }

  lemma ParsedLinesAppend(lines: seq<seq<Byte>>, shooters: seq<Shooter>, shooter: Shooter)
    requires forall j :: 0 <= j < |lines| ==> |lines[j]| == ShooterLineLength
    requires ParsedLines(lines, shooters) && |shooters| < |lines|
    requires EndsWithCrLf(lines[|shooters|]) && shooter == ShooterOf(lines[|shooters|])
    ensures ParsedLines(lines, shooters + [shooter])
  {
  }

  lemma LoadAcceptsGoodLines(file: seq<Byte>, shooters: seq<Shooter>)
    requires |file| >= HeaderLineLength && EndsWithCrLf(file[..HeaderLineLength])
    requires |shooters| == |FullLines(file[HeaderLineLength..])|
    requires ParsedLines(FullLines(file[HeaderLineLength..]), shooters)
    ensures Load(file) == Success(Dataset(HeaderOf(file[..HeaderLineLength]), shooters))
  {
    var lines := FullLines(file[HeaderLineLength..]);
    assert shooters == seq(|lines|, j requires 0 <= j < |lines| => ShooterOf(lines[j]));
  }

  // ---------------------------------------------------------------------------
  // Properties of a load

  /** A load succeeds exactly when the file holds a whole header line ending
      in CR LF and every full shooter line after it ends in CR LF. */
  lemma LoadSucceedsIff(file: seq<Byte>)
    ensures Load(file).Success? <==>
      |file| >= HeaderLineLength && file[HeaderPayload] == CR && file[HeaderPayload + 1] == LF
      && forall j :: 0 <= j < (|file| - HeaderLineLength) / ShooterLineLength ==>
           var at := HeaderLineLength + ShooterLineLength * j;
           file[at + ShooterPayload] == CR && file[at + ShooterPayload + 1] == LF
  {
    if |file| >= HeaderLineLength {
      var rest := file[HeaderLineLength..];
      var lines := FullLines(rest);
      FullLinesCut(rest);
      FullLinesCount(rest);
      forall j | 0 <= j < |lines|
        ensures EndsWithCrLf(lines[j]) <==>
          var at := HeaderLineLength + ShooterLineLength * j;
          file[at + ShooterPayload] == CR && file[at + ShooterPayload + 1] == LF
      {
        var at := ShooterLineLength * j;
        assert lines[j] == rest[at .. at + ShooterLineLength];
        assert lines[j][ShooterPayload] == file[HeaderLineLength + at + ShooterPayload];
        assert lines[j][ShooterPayload + 1] == file[HeaderLineLength + at + ShooterPayload + 1];
      }
    }
  }

  /** On success the header is parsed from the header line, and there is one
      shooter per full 318-byte line, in file order: shooter `j` is parsed
      from the line at `320 + 318 * j`. */
  lemma LoadReadsEveryFullLine(file: seq<Byte>)
    requires Load(file).Success?
    ensures Load(file).value.header == HeaderOf(file[..HeaderLineLength])
    ensures |Load(file).value.shooters| == (|file| - HeaderLineLength) / ShooterLineLength
    ensures forall j :: 0 <= j < |Load(file).value.shooters| ==>
              var at := HeaderLineLength + ShooterLineLength * j;
              at + ShooterLineLength <= |file|
              && Load(file).value.shooters[j] == ShooterOf(file[at .. at + ShooterLineLength])
  {
    var rest := file[HeaderLineLength..];
    var lines := FullLines(rest);
    FullLinesCut(rest);
    FullLinesCount(rest);
    forall j | 0 <= j < |lines|
      ensures var at := HeaderLineLength + ShooterLineLength * j;
        at + ShooterLineLength <= |file| && lines[j] == file[at .. at + ShooterLineLength]
    {
      var at := ShooterLineLength * j;
      assert rest[at .. at + ShooterLineLength] == file[HeaderLineLength + at .. HeaderLineLength + at + ShooterLineLength];
    }
  }

  /** A loaded roster has the shape the rest of the program relies on: at
      most 24 events, and 24 scores for every shooter. */
  lemma LoadedDatasetValid(file: seq<Byte>)
    requires Load(file).Success?
    ensures Load(file).value.Valid()
  {
    var line := file[..HeaderLineLength];
    HeaderOfSelectsRealSlots(line);
    KeptSlotsSelects(Slots(line));
  }

  /** A short piece after the last full line is dropped: appending fewer
      than 318 bytes to a file that ends on a line boundary does not change
      what it loads. */
  lemma TrailingPieceIgnored(file: seq<Byte>, piece: seq<Byte>)
    requires |file| >= HeaderLineLength && (|file| - HeaderLineLength) % ShooterLineLength == 0
    requires |piece| < ShooterLineLength
    ensures Load(file + piece) == Load(file)
  {
    var whole := file + piece;
    assert whole[..HeaderLineLength] == file[..HeaderLineLength];
    var rest, rest' := file[HeaderLineLength..], whole[HeaderLineLength..];
    assert rest' == rest + piece;
    var lines, lines' := FullLines(rest), FullLines(rest');
    FullLinesCut(rest);
    FullLinesCut(rest');
    assert |lines'| == |lines|;
    forall j | 0 <= j < |lines| ensures lines'[j] == lines[j] {
      var at := ShooterLineLength * j;
      assert rest'[at .. at + ShooterLineLength] == rest[at .. at + ShooterLineLength];
    }
    assert lines' == lines;
  }
}
