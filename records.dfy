/** The records of the ATA roster file and the parsers that build them from
    fixed byte windows: events and the club header from the header line,
    scores and shooters from each shooter line. Every offset and width below
    is the one the parser uses; text fields are their byte windows verbatim. */
module Records {
  import opened Field

  datatype EventKind = Singles | Doubles | Handicap | NoEvent

  /** One event slot of the header: its 8 date bytes verbatim, its discipline
      and the number of targets thrown. */
  datatype Event = Event(date: seq<Byte>, kind: EventKind, targets: UShort)

  /** The club number and the events the header declares, in slot order. */
  datatype Header = Header(clubNumber: seq<Byte>, events: seq<Event>)

  /** One score slot of a shooter: targets hit, targets shot at (0 when the
      shooter did not enter), and the raw 4-byte yardage window. */
  datatype Score = Score(hit: UShort, shotAt: UShort, yardage: seq<Byte>)

  datatype Shooter = Shooter(
    ataNumber: seq<Byte>,
    name: seq<Byte>,
    address: seq<Byte>,
    city: seq<Byte>,
    state: seq<Byte>,
    postalCode: seq<Byte>,
    classification: seq<Byte>,
    scores: seq<Score>)

  /** The whole roster: the header and the shooters in file order. */
  datatype Dataset = Dataset(header: Header, shooters: seq<Shooter>)
  {
    /** The shape every loaded roster has: at most one event per slot, and a
        score for every slot in every shooter. */
    predicate Valid()
    {
      |header.events| <= SlotCount && forall s <- shooters :: |s.scores| == SlotCount
    }
  }

  /** Number of event slots in the header and score slots in a shooter line. */
  const SlotCount := 24

  const DateWidth := 8
  const ClubWidth := 6
  const EventWidth := 13
  /** Bytes of the header line before its terminator: 6 + 24 * 13. */
  const HeaderPayload := 318

  const ScoreWidth := 10
  /** Offset of the first score window in a shooter line. */
  const ScoresStart := 76
  /** Bytes of a shooter line before its terminator: 76 + 24 * 10. */
  const ShooterPayload := 316

  const TAG_SINGLES: Byte := 83   // 'S'
  const TAG_DOUBLES: Byte := 68   // 'D'
  const TAG_HANDICAP: Byte := 72  // 'H'

  /** The discipline a slot's tag byte names; any other byte marks an empty slot. */
  function KindOf(tag: Byte): EventKind
  {
    if tag == TAG_SINGLES then Singles
    else if tag == TAG_DOUBLES then Doubles
    else if tag == TAG_HANDICAP then Handicap
    else NoEvent
  }

  /** An event from its 13-byte slot: date (0..7), tag (8), an unread
      separator (9) and the target count (10..12), which is decoded only for a
      real event. */
  function ParseEvent(w: seq<Byte>): Event
    requires |w| == EventWidth
  {
    var kind := KindOf(w[8]);
    Event(w[..DateWidth], kind, if kind == NoEvent then 0 else DecodeCount(w[10..13]))
  }

  /** A score from its 10-byte window: hit (0..2), shot at (3..5), yardage (6..9). */
  function ParseScore(w: seq<Byte>): Score
    requires |w| == ScoreWidth
  {
    Score(DecodeCount(w[..3]), DecodeCount(w[3..6]), w[6..])
  }

  /** Slot `i` of the header line, read from `6 + 13 * i`. */
  function EventSlot(line: seq<Byte>, i: nat): Event
    requires |line| >= HeaderPayload && i < SlotCount
  {
    ParseEvent(line[ClubWidth + EventWidth * i .. ClubWidth + EventWidth * i + EventWidth])
  }

  /** All 24 slot parses of a header line, empty ones included. */
  function Slots(line: seq<Byte>): seq<Event>
    requires |line| >= HeaderPayload
  {
    seq(SlotCount, i requires 0 <= i < SlotCount => EventSlot(line, i))
  }

  /** The real events among the slot parses, in slot order. Empty slots are
      skipped wherever they are; a gap does not end the list. */
  function KeepEvents(slots: seq<Event>): seq<Event>
  {
    if slots == [] then []
    else
      var last := slots[|slots| - 1];
      KeepEvents(slots[..|slots| - 1]) + if last.kind != NoEvent then [last] else []
  }

  /** The positions of the real events among the slot parses, ascending. */
  function KeptSlots(slots: seq<Event>): seq<nat>
  {
    if slots == [] then []
    else
      var n := |slots| - 1;
      KeptSlots(slots[..n]) + if slots[n].kind != NoEvent then [n] else []
  }

  /** The header a header line describes. */
  function HeaderOf(line: seq<Byte>): Header
    requires |line| >= HeaderPayload
  {
    Header(line[..ClubWidth], KeepEvents(Slots(line)))
  }

  /** Score slot `i` of a shooter line, read from `76 + 10 * i`. */
  function ScoreSlot(line: seq<Byte>, i: nat): Score
    requires |line| >= ShooterPayload && i < SlotCount
  {
    ParseScore(line[ScoresStart + ScoreWidth * i .. ScoresStart + ScoreWidth * i + ScoreWidth])
  }

  /** The shooter a shooter line describes. */
  function ShooterOf(line: seq<Byte>): Shooter
    requires |line| >= ShooterPayload
  {
    Shooter(line[0..7], line[7..25], line[25..50], line[50..68], line[68..70], line[70..75], line[75..76],
            seq(SlotCount, i requires 0 <= i < SlotCount => ScoreSlot(line, i)))
  }

  /** The header constructor: the club number, then each of the 24 slots
      parsed in turn and appended when it holds a real event. */
  method ParseHeader(line: seq<Byte>) returns (h: Header)
    requires |line| >= HeaderPayload
    ensures h == HeaderOf(line)
    ensures |h.events| <= SlotCount
    ensures forall e <- h.events :: e.kind != NoEvent
  {
    ghost var slots := Slots(line);
    var events: seq<Event> := [];
    for i := 0 to SlotCount
      invariant events == KeepEvents(slots[..i])
    {
      var e := EventSlot(line, i);
      PrefixExtend(slots, i);
      if e.kind != NoEvent {
        events := events + [e];
      }
    }
    PrefixWhole(slots);
    h := Header(line[..ClubWidth], events);
    KeepEventsSelects(slots);
    KeptSlotsSelects(slots);
    KeepEventsAreReal(slots);
  }

  /** The shooter constructor: the seven text fields, then the 24 score
      windows appended in order. */
  method ParseShooter(line: seq<Byte>) returns (s: Shooter)
    requires |line| >= ShooterPayload
    ensures s == ShooterOf(line)
    ensures |s.scores| == SlotCount
  {
    ghost var all := seq(SlotCount, i requires 0 <= i < SlotCount => ScoreSlot(line, i));
    var scores: seq<Score> := [];
    for i := 0 to SlotCount
      invariant scores == all[..i]
    {
      PrefixExtend(all, i);
      scores := scores + [ScoreSlot(line, i)];
    }
    PrefixWhole(all);
    s := Shooter(line[0..7], line[7..25], line[25..50], line[50..68], line[68..70], line[70..75], line[75..76],
                 scores);
  }

  // ---------------------------------------------------------------------------
  // Events

  /** The discipline depends on the tag byte alone: `S`, `D` and `H` name
      Singles, Doubles and Handicap, and every other byte an empty slot. */
  lemma EventKindFromTag(w: seq<Byte>)
    requires |w| == EventWidth
    ensures ParseEvent(w).kind == Singles <==> w[8] == TAG_SINGLES
    ensures ParseEvent(w).kind == Doubles <==> w[8] == TAG_DOUBLES
    ensures ParseEvent(w).kind == Handicap <==> w[8] == TAG_HANDICAP
    ensures ParseEvent(w).kind == NoEvent <==> w[8] !in {TAG_SINGLES, TAG_DOUBLES, TAG_HANDICAP}
  {
  }

  /** The date is the first 8 bytes verbatim, an empty slot has no targets
      whatever its count bytes hold, and the separator byte is never read. */
  lemma EventWindowUse(w: seq<Byte>, sep: Byte)
    requires |w| == EventWidth
    ensures ParseEvent(w).date == w[..DateWidth]
    ensures ParseEvent(w).kind == NoEvent ==> ParseEvent(w) == Event(w[..DateWidth], NoEvent, 0)
    ensures ParseEvent(w[9 := sep]) == ParseEvent(w)
  {
    var v := w[9 := sep];
    assert v[..DateWidth] == w[..DateWidth] && v[10..13] == w[10..13];
  }

  // ---------------------------------------------------------------------------
  // Header

  /** The real events are exactly the slot parses whose kind is not
      `NoEvent`, kept in slot order: `KeptSlots` lists their positions,
      ascending (`KeptSlotsSelects`), and event `j` is the slot at position
      `j` of that list. */
  lemma {:induction false} KeepEventsSelects(slots: seq<Event>)
    ensures |KeepEvents(slots)| == |KeptSlots(slots)|
    ensures forall j :: 0 <= j < |KeptSlots(slots)| ==>
              KeptSlots(slots)[j] < |slots| && KeepEvents(slots)[j] == slots[KeptSlots(slots)[j]]
  {
    if slots != [] {
      var n := |slots| - 1;
      var init := slots[..n];
      KeepEventsSelects(init);
      forall j | 0 <= j < |KeptSlots(init)|
        ensures KeptSlots(init)[j] < |slots| && KeepEvents(init)[j] == slots[KeptSlots(init)[j]]
      {
        assert init[KeptSlots(init)[j]] == slots[KeptSlots(init)[j]];
      }
    }
  }

  /** The positions `KeptSlots` lists are ascending and are exactly those of
      the real slots: every real slot is kept, however many empty slots come
      before it, and no empty slot is. */
  lemma {:induction false} KeptSlotsSelects(slots: seq<Event>)
    ensures |KeptSlots(slots)| <= |slots|
    ensures forall j, k :: 0 <= j < k < |KeptSlots(slots)| ==> KeptSlots(slots)[j] < KeptSlots(slots)[k]
    ensures forall i :: 0 <= i < |slots| ==> (i in KeptSlots(slots) <==> slots[i].kind != NoEvent)
  {
    if slots != [] {
      var n := |slots| - 1;
      var init := slots[..n];
      KeptSlotsSelects(init);
      KeptSlotsBelow(init);
      forall i | 0 <= i < n ensures (i in KeptSlots(slots) <==> slots[i].kind != NoEvent) {
        assert init[i] == slots[i];
      }
    }
  }

  lemma {:induction false} KeptSlotsBelow(slots: seq<Event>)
    ensures forall j :: 0 <= j < |KeptSlots(slots)| ==> KeptSlots(slots)[j] < |slots|
  {
    if slots != [] {
      KeptSlotsBelow(slots[..|slots| - 1]);
    }
  }

  /** Every kept event is a real event. */
  lemma {:induction false} KeepEventsAreReal(slots: seq<Event>)
    ensures forall e <- KeepEvents(slots) :: e.kind != NoEvent
  {
    if slots != [] {
      KeepEventsAreReal(slots[..|slots| - 1]);
    }
  }

  /** The club number is the first 6 bytes of the line, and the events are
      the real slots among the 24 windows at `6 + 13 * i`, in slot order, so
      there are at most 24 of them. */
  lemma HeaderOfSelectsRealSlots(line: seq<Byte>)
    requires |line| >= HeaderPayload
    ensures HeaderOf(line).clubNumber == line[..ClubWidth]
    ensures |HeaderOf(line).events| == |KeptSlots(Slots(line))| <= SlotCount
    ensures forall j :: 0 <= j < |HeaderOf(line).events| ==>
              KeptSlots(Slots(line))[j] < SlotCount
              && HeaderOf(line).events[j] == EventSlot(line, KeptSlots(Slots(line))[j])
    ensures forall i :: 0 <= i < SlotCount ==>
              (i in KeptSlots(Slots(line)) <==> EventSlot(line, i).kind != NoEvent)
  {
    var slots := Slots(line);
    KeepEventsSelects(slots);
    KeptSlotsSelects(slots);
  }

  /** A list of real events is kept whole. */
  lemma {:induction false} KeepEventsOfReal(xs: seq<Event>)
    requires forall e <- xs :: e.kind != NoEvent
    ensures KeepEvents(xs) == xs
  {
    if xs != [] {
      var n := |xs| - 1;
      KeepEventsOfReal(xs[..n]);
      DropLast(xs);
    }
  }

  /** When no real slot follows an empty one, the kept events are the leading
      slots themselves: event `j` is slot `j`. */
  lemma {:induction false} KeepEventsOfContiguous(slots: seq<Event>)
    requires forall i, k :: 0 <= i < k < |slots| && slots[i].kind == NoEvent ==> slots[k].kind == NoEvent
    ensures |KeepEvents(slots)| <= |slots|
    ensures forall j :: 0 <= j < |KeepEvents(slots)| ==> KeepEvents(slots)[j] == slots[j]
  {
    if slots != [] {
      var n := |slots| - 1;
      var init := slots[..n];
      if slots[n].kind != NoEvent {
        forall e | e in init ensures e.kind != NoEvent {
          var i :| 0 <= i < n && init[i] == e;
          assert slots[i] == e;
        }
        KeepEventsOfReal(init);
        DropLast(slots);
      } else {
        KeepEventsOfContiguous(init);
      }
    }
  }

  /** A shooter's score slot `j` belongs to header event `j` when the header
      line has no gap, that is, no real slot after an empty one. With a gap
      the two numberings part: the events skip the empty slot and the scores
      do not. */
  lemma EventsAlignWithSlots(line: seq<Byte>)
    requires |line| >= HeaderPayload
    requires forall i, k :: 0 <= i < k < SlotCount && EventSlot(line, i).kind == NoEvent ==>
               EventSlot(line, k).kind == NoEvent
    ensures forall j :: 0 <= j < |HeaderOf(line).events| ==> j < SlotCount && HeaderOf(line).events[j] == EventSlot(line, j)
  {
    KeepEventsOfContiguous(Slots(line));
  }

  lemma {:induction false} KeptSlotsLength(slots: seq<Event>)
    ensures |KeptSlots(slots)| <= |slots|
  {
    if slots != [] {
      KeptSlotsLength(slots[..|slots| - 1]);
    }
  }

  /** Every slot is kept exactly when every slot is real. */
  lemma {:induction false} KeptSlotsCountAll(slots: seq<Event>)
    ensures |KeptSlots(slots)| == |slots| <==> forall i :: 0 <= i < |slots| ==> slots[i].kind != NoEvent
  {
    if slots != [] {
      var n := |slots| - 1;
      var init := slots[..n];
      KeptSlotsCountAll(init);
      KeptSlotsLength(init);
      assert |KeptSlots(slots)| == |KeptSlots(init)| + if slots[n].kind != NoEvent then 1 else 0;
      assert forall i :: 0 <= i < n ==> init[i] == slots[i];
    }
  }

  /** When slots `0` to `j` are all real, kept position `j` is slot `j`. */
  lemma {:induction false} AllRealPrefixKept(slots: seq<Event>, j: nat)
    requires j < |slots| && forall i :: 0 <= i <= j ==> slots[i].kind != NoEvent
    ensures j < |KeptSlots(slots)| && KeptSlots(slots)[j] == j
  {
    var n := |slots| - 1;
    var init := slots[..n];
    if j == n {
      assert forall i :: 0 <= i < n ==> init[i] == slots[i];
      KeptSlotsCountAll(init);
    } else {
      assert forall i :: 0 <= i <= j ==> init[i] == slots[i];
      AllRealPrefixKept(init, j);
    }
  }

  /** Kept position `j` is never before slot `j`, and it is slot `j` exactly
      when slots `0` to `j` are all real: after an empty slot, every later
      event comes from a later slot than its own index. */
  lemma {:induction false} KeptSlotsShift(slots: seq<Event>)
    ensures forall j :: 0 <= j < |KeptSlots(slots)| ==>
              j <= KeptSlots(slots)[j] < |slots|
              && (KeptSlots(slots)[j] == j <==> forall i :: 0 <= i <= j ==> slots[i].kind != NoEvent)
  {
    if slots != [] {
      var n := |slots| - 1;
      var init := slots[..n];
      var k := KeptSlots(init);
      KeptSlotsShift(init);
      KeptSlotsBelow(init);
      KeptSlotsLength(init);
      KeptSlotsCountAll(init);
      forall j | 0 <= j < |KeptSlots(slots)|
        ensures j <= KeptSlots(slots)[j] < |slots|
                && (KeptSlots(slots)[j] == j <==> forall i :: 0 <= i <= j ==> slots[i].kind != NoEvent)
      {
        if forall i :: 0 <= i <= j ==> slots[i].kind != NoEvent {
          AllRealPrefixKept(slots, j);
        }
        if j < |k| {
          assert KeptSlots(slots)[j] == k[j] < n;
          assert forall i :: 0 <= i <= j ==> init[i] == slots[i];
        } else {
          assert j == |k| && KeptSlots(slots)[j] == n;
          assert slots[n].kind != NoEvent;
          assert forall i :: 0 <= i < n ==> init[i] == slots[i];
        }
      }
    }
  }

  /** The score listing and the shooter report read score slot `j` for
      event `j`. Event `j` is read from a slot at or after `j`, and from slot
      `j` itself exactly when none of slots `0` to `j` is empty. */
  lemma EventSlotVersusScoreSlot(line: seq<Byte>)
    requires |line| >= HeaderPayload
    ensures |HeaderOf(line).events| == |KeptSlots(Slots(line))|
    ensures forall j :: 0 <= j < |KeptSlots(Slots(line))| ==>
              j <= KeptSlots(Slots(line))[j] < SlotCount
              && HeaderOf(line).events[j] == EventSlot(line, KeptSlots(Slots(line))[j])
              && (KeptSlots(Slots(line))[j] == j <==>
                    forall i :: 0 <= i <= j ==> EventSlot(line, i).kind != NoEvent)
  {
    var slots := Slots(line);
    HeaderOfSelectsRealSlots(line);
    KeptSlotsShift(slots);
    forall j | 0 <= j < |KeptSlots(slots)|
      ensures KeptSlots(slots)[j] == j <==> forall i :: 0 <= i <= j ==> EventSlot(line, i).kind != NoEvent
    {
      assert forall i :: 0 <= i <= j ==> slots[i] == EventSlot(line, i);
    }
  }

  /** A header depends on bytes 0..317 of its line only: the last slot ends
      at byte 318 and the terminator is never read. */
  lemma HeaderReadsPayloadOnly(a: seq<Byte>, b: seq<Byte>)
    requires |a| >= HeaderPayload && |b| >= HeaderPayload
    requires a[..HeaderPayload] == b[..HeaderPayload]
    ensures HeaderOf(a) == HeaderOf(b)
  {
    forall i | 0 <= i < SlotCount ensures EventSlot(a, i) == EventSlot(b, i) {
      var lo := ClubWidth + EventWidth * i;
      SlicesAgree(a, b, HeaderPayload, lo, lo + EventWidth);
    }
    assert Slots(a) == Slots(b);
    SlicesAgree(a, b, HeaderPayload, 0, ClubWidth);
  }

  /** Two byte sequences with the same first `n` bytes agree on every window
      inside those bytes. */
  lemma SlicesAgree(a: seq<Byte>, b: seq<Byte>, n: nat, lo: nat, hi: nat)
    requires n <= |a| && n <= |b| && a[..n] == b[..n]
    requires lo <= hi <= n
    ensures a[lo..hi] == b[lo..hi]
  {
    assert a[lo..hi] == a[..n][lo..hi];
    assert b[lo..hi] == b[..n][lo..hi];
  }

  // ---------------------------------------------------------------------------
  // Scores and shooters

  /** `hit` comes from bytes 0..2 and `shotAt` from bytes 3..5 alone; the
      yardage bytes 6..9 affect neither. */
  lemma ScoreFieldsIndependent(w: seq<Byte>, v: seq<Byte>)
    requires |w| == ScoreWidth && |v| == ScoreWidth
    ensures w[..3] == v[..3] ==> ParseScore(w).hit == ParseScore(v).hit
    ensures w[3..6] == v[3..6] ==> ParseScore(w).shotAt == ParseScore(v).shotAt
    ensures ParseScore(w).yardage == w[6..]
  {
  }

  /** The seven text fields tile bytes 0..75 with widths 7, 18, 25, 18, 2, 5
      and 1, and there are exactly 24 scores. */
  lemma ShooterLayout(line: seq<Byte>)
    requires |line| >= ShooterPayload
    ensures var s := ShooterOf(line);
      |s.ataNumber| == 7 && |s.name| == 18 && |s.address| == 25 && |s.city| == 18
      && |s.state| == 2 && |s.postalCode| == 5 && |s.classification| == 1
      && s.ataNumber + s.name + s.address + s.city + s.state + s.postalCode + s.classification
         == line[..ScoresStart]
      && |s.scores| == SlotCount
  {
  }

  /** A shooter depends on bytes 0..315 of its line only: the last score
      window ends at byte 316 and the terminator is never read. */
  lemma ShooterReadsPayloadOnly(a: seq<Byte>, b: seq<Byte>)
    requires |a| >= ShooterPayload && |b| >= ShooterPayload
    requires a[..ShooterPayload] == b[..ShooterPayload]
    ensures ShooterOf(a) == ShooterOf(b)
  {
    forall i | 0 <= i < SlotCount ensures ScoreSlot(a, i) == ScoreSlot(b, i) {
      var lo := ScoresStart + ScoreWidth * i;
      SlicesAgree(a, b, ShooterPayload, lo, lo + ScoreWidth);
    }
    SlicesAgree(a, b, ShooterPayload, 0, 7);
    SlicesAgree(a, b, ShooterPayload, 7, 25);
    SlicesAgree(a, b, ShooterPayload, 25, 50);
    SlicesAgree(a, b, ShooterPayload, 50, 68);
    SlicesAgree(a, b, ShooterPayload, 68, 70);
    SlicesAgree(a, b, ShooterPayload, 70, 75);
    SlicesAgree(a, b, ShooterPayload, 75, 76);
  }
}
