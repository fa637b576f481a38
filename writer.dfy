/** The layout read by the parsers, written out the other way round: the
    bytes of a roster file that holds a given header and given shooters. The
    round-trip lemmas below show that every well-formed roster is read back
    exactly as written, so the parsers lose nothing within the layout. */
module Writer {
  import opened Field
  import opened Records
  import opened Reader

  // ---------------------------------------------------------------------------
  // What fits the layout

  /** A real event with an 8-byte date and a count of at most three digits. */
  predicate WellFormedEvent(e: Event)
  {
    |e.date| == DateWidth && e.kind != NoEvent && e.targets < 1000
  }

  predicate WellFormedHeader(h: Header)
  {
    |h.clubNumber| == ClubWidth && |h.events| <= SlotCount
    && forall i :: 0 <= i < |h.events| ==> WellFormedEvent(h.events[i])
  }

  predicate WellFormedScore(s: Score)
  {
    s.hit < 1000 && s.shotAt < 1000 && |s.yardage| == 4
  }

  predicate WellFormedShooter(s: Shooter)
  {
    |s.ataNumber| == 7 && |s.name| == 18 && |s.address| == 25 && |s.city| == 18
    && |s.state| == 2 && |s.postalCode| == 5 && |s.classification| == 1
    && |s.scores| == SlotCount && forall i :: 0 <= i < |s.scores| ==> WellFormedScore(s.scores[i])
  }

  predicate WellFormed(d: Dataset)
  {
    WellFormedHeader(d.header) && forall j :: 0 <= j < |d.shooters| ==> WellFormedShooter(d.shooters[j])
  }

  // ---------------------------------------------------------------------------
  // Encoding

  /** The tag byte of a discipline; an empty slot gets a space. */
  function TagOf(kind: EventKind): Byte
  {
    match kind
    case Singles => TAG_SINGLES
    case Doubles => TAG_DOUBLES
    case Handicap => TAG_HANDICAP
    case NoEvent => SPACE
  }

  function EncodeEvent(e: Event): (w: seq<Byte>)
    requires WellFormedEvent(e)
    ensures |w| == EventWidth
  {
    e.date + [TagOf(e.kind), SPACE] + EncodeCount(e.targets)
  }

  /** An unused event slot: 13 spaces. */
  function BlankSlot(): (w: seq<Byte>)
    ensures |w| == EventWidth
  {
    seq(EventWidth, _ => SPACE)
  }

  /** Slot window `i`: event `i` if there is one, a blank slot otherwise. */
  function SlotWindow(events: seq<Event>, i: nat): (w: seq<Byte>)
    requires forall k :: 0 <= k < |events| ==> WellFormedEvent(events[k])
    ensures |w| == EventWidth
  {
    if i < |events| then EncodeEvent(events[i]) else BlankSlot()
  }

  /** The 24 slot windows: the events first, blank slots after them. */
  function SlotWindows(events: seq<Event>): (ws: seq<seq<Byte>>)
    requires |events| <= SlotCount && forall i :: 0 <= i < |events| ==> WellFormedEvent(events[i])
    ensures |ws| == SlotCount && forall i :: 0 <= i < SlotCount ==> |ws[i]| == EventWidth
  {
    seq(SlotCount, i requires 0 <= i < SlotCount => SlotWindow(events, i))
  }

  function EncodeHeaderLine(h: Header): (line: seq<Byte>)
    requires WellFormedHeader(h)
    ensures |line| == HeaderLineLength
  {
    ConcatLength(SlotWindows(h.events), EventWidth);
    h.clubNumber + Concat(SlotWindows(h.events)) + [CR, LF]
  }

  function EncodeScore(s: Score): (w: seq<Byte>)
    requires WellFormedScore(s)
    ensures |w| == ScoreWidth
  {
    EncodeCount(s.hit) + EncodeCount(s.shotAt) + s.yardage
  }

  function ScoreWindows(scores: seq<Score>): (ws: seq<seq<Byte>>)
    requires |scores| == SlotCount && forall i :: 0 <= i < |scores| ==> WellFormedScore(scores[i])
    ensures |ws| == SlotCount && forall i :: 0 <= i < SlotCount ==> |ws[i]| == ScoreWidth
  {
    seq(SlotCount, i requires 0 <= i < SlotCount => EncodeScore(scores[i]))
  }

  /** The 76 bytes of text fields in front of the scores. */
  function TextFields(s: Shooter): seq<Byte>
  {
    s.ataNumber + s.name + s.address + s.city + s.state + s.postalCode + s.classification
  }

  function EncodeShooterLine(s: Shooter): (line: seq<Byte>)
    requires WellFormedShooter(s)
    ensures |line| == ShooterLineLength
  {
    ConcatLength(ScoreWindows(s.scores), ScoreWidth);
    TextFields(s) + Concat(ScoreWindows(s.scores)) + [CR, LF]
  }

  function ShooterLines(shooters: seq<Shooter>): (lines: seq<seq<Byte>>)
    requires forall j :: 0 <= j < |shooters| ==> WellFormedShooter(shooters[j])
    ensures |lines| == |shooters|
    ensures forall j :: 0 <= j < |lines| ==> |lines[j]| == ShooterLineLength
  {
    seq(|shooters|, j requires 0 <= j < |shooters| => EncodeShooterLine(shooters[j]))
  }

  function EncodeFile(d: Dataset): seq<Byte>
    requires WellFormed(d)
  {
    EncodeHeaderLine(d.header) + Concat(ShooterLines(d.shooters))
  }

  // ---------------------------------------------------------------------------
  // Round trips

  lemma ParseEncodeEvent(e: Event)
    requires WellFormedEvent(e)
    ensures ParseEvent(EncodeEvent(e)) == e
  {
    var w := EncodeEvent(e);
    assert w[..DateWidth] == e.date;
    assert w[8] == TagOf(e.kind);
    assert w[10..13] == EncodeCount(e.targets);
    DecodeEncodeCount(e.targets);
  }

  lemma BlankSlotIsEmpty()
    ensures ParseEvent(BlankSlot()).kind == NoEvent
  {
  }

  /** The slots of a written header line are its events, then empty slots. */
  lemma SlotsOfEncodedHeader(h: Header)
    requires WellFormedHeader(h)
    ensures forall i :: 0 <= i < |h.events| ==> Slots(EncodeHeaderLine(h))[i] == h.events[i]
    ensures forall i :: |h.events| <= i < SlotCount ==> Slots(EncodeHeaderLine(h))[i].kind == NoEvent
  {
    var line := EncodeHeaderLine(h);
    forall i | 0 <= i < |h.events| ensures Slots(line)[i] == h.events[i] {
      EncodedSlot(h, i);
      ParseEncodeEvent(h.events[i]);
    }
    forall i | |h.events| <= i < SlotCount ensures Slots(line)[i].kind == NoEvent {
      EncodedSlot(h, i);
      BlankSlotIsEmpty();
    }
  }

  /** Slot `i` of a written header line is read from window `i`. */
  lemma EncodedSlot(h: Header, i: nat)
    requires WellFormedHeader(h) && i < SlotCount
    ensures EventSlot(EncodeHeaderLine(h), i) == ParseEvent(SlotWindows(h.events)[i])
  {
    WindowOfFramed(h.clubNumber, SlotWindows(h.events), [CR, LF], EventWidth, i);
  }

  /** Keeping the real events of a list that is made of real events followed
      by empty slots gives back the real events. */
  lemma {:induction false} KeepEventsOfPadded(xs: seq<Event>, ys: seq<Event>)
    requires forall e <- xs :: e.kind != NoEvent
    requires forall e <- ys :: e.kind == NoEvent
    ensures KeepEvents(xs + ys) == xs
    decreases |ys|
  {
    if ys == [] {
      assert xs + ys == xs;
      KeepEventsOfReal(xs);
    } else {
      var n := |ys| - 1;
      DropLastOfAppend(xs, ys);
      KeepEventsOfPadded(xs, ys[..n]);
    }
  }

  lemma ParseEncodeHeader(h: Header)
    requires WellFormedHeader(h)
    ensures HeaderOf(EncodeHeaderLine(h)) == h
  {
    var line := EncodeHeaderLine(h);
    var slots := Slots(line);
    SlotsOfEncodedHeader(h);
    var pad := slots[|h.events|..];
    forall e | e in pad ensures e.kind == NoEvent {
      var k :| 0 <= k < |pad| && pad[k] == e;
      assert e == slots[|h.events| + k];
    }
    assert slots == h.events + pad;
    KeepEventsOfPadded(h.events, pad);
    assert line[..ClubWidth] == h.clubNumber;
  }

  lemma ParseEncodeScore(s: Score)
    requires WellFormedScore(s)
    ensures ParseScore(EncodeScore(s)) == s
  {
    var w := EncodeScore(s);
    assert w[..3] == EncodeCount(s.hit);
    assert w[3..6] == EncodeCount(s.shotAt);
    assert w[6..] == s.yardage;
    DecodeEncodeCount(s.hit);
    DecodeEncodeCount(s.shotAt);
  }

  lemma ParseEncodeShooter(s: Shooter)
    requires WellFormedShooter(s)
    ensures ShooterOf(EncodeShooterLine(s)) == s
  {
    var line := EncodeShooterLine(s);
    ConcatLength(ScoreWindows(s.scores), ScoreWidth);
    assert line[..ScoresStart] == TextFields(s);
    TextFieldsRead(s, line);
    forall i | 0 <= i < SlotCount ensures ScoreSlot(line, i) == s.scores[i] {
      EncodedScoreSlot(s, i);
    }
  }

  /** Score slot `i` of a written shooter line is read back as score `i`. */
  lemma EncodedScoreSlot(s: Shooter, i: nat)
    requires WellFormedShooter(s) && i < SlotCount
    ensures ScoreSlot(EncodeShooterLine(s), i) == s.scores[i]
  {
    WindowOfFramed(TextFields(s), ScoreWindows(s.scores), [CR, LF], ScoreWidth, i);
    ParseEncodeScore(s.scores[i]);
  }

  /** The seven text fields are read back from their windows. */
  lemma TextFieldsRead(s: Shooter, line: seq<Byte>)
    requires WellFormedShooter(s)
    requires |line| >= ScoresStart && line[..ScoresStart] == TextFields(s)
    ensures line[0..7] == s.ataNumber && line[7..25] == s.name && line[25..50] == s.address
    ensures line[50..68] == s.city && line[68..70] == s.state && line[70..75] == s.postalCode
    ensures line[75..76] == s.classification
  {
    var text := TextFields(s);
    assert line[0..7] == text[0..7];
    assert line[7..25] == text[7..25];
    assert line[25..50] == text[25..50];
    assert line[50..68] == text[50..68];
    assert line[68..70] == text[68..70];
    assert line[70..75] == text[70..75];
    assert line[75..76] == text[75..76];
  }

  /** Cutting joined full lines gives back the lines. */
  lemma {:induction false} FullLinesOfConcat(lines: seq<seq<Byte>>)
    requires forall j :: 0 <= j < |lines| ==> |lines[j]| == ShooterLineLength
    ensures FullLines(Concat(lines)) == lines
  {
    if lines != [] {
      var rest := Concat(lines[1..]);
      assert Concat(lines) == lines[0] + rest;
      assert (lines[0] + rest)[..ShooterLineLength] == lines[0];
      assert (lines[0] + rest)[ShooterLineLength..] == rest;
      FullLinesOfConcat(lines[1..]);
      assert lines == [lines[0]] + lines[1..];
    }
  }

  /** Every well-formed roster loads back exactly as it was written. */
  lemma LoadEncodeFile(d: Dataset)
    requires WellFormed(d)
    ensures Load(EncodeFile(d)) == Success(d)
  {
    var file := EncodeFile(d);
    var headerLine := EncodeHeaderLine(d.header);
    var lines := ShooterLines(d.shooters);
    assert file[..HeaderLineLength] == headerLine;
    assert file[HeaderLineLength..] == Concat(lines);
    FullLinesOfConcat(lines);
    ParseEncodeHeader(d.header);
    EncodedLinesParse(d.shooters);
    LoadAcceptsGoodLines(file, d.shooters);
  }

  /** Each written shooter line ends in CR LF and is read back as its shooter. */
  lemma EncodedLinesParse(shooters: seq<Shooter>)
    requires forall j :: 0 <= j < |shooters| ==> WellFormedShooter(shooters[j])
    ensures ParsedLines(ShooterLines(shooters), shooters)
  {
    var lines := ShooterLines(shooters);
    forall j | 0 <= j < |lines|
      ensures EndsWithCrLf(lines[j]) && ShooterOf(lines[j]) == shooters[j]
    {
      ParseEncodeShooter(shooters[j]);
    }
  }
}
