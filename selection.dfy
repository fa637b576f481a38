/** The selection rules inside the two report screens: which shooters a
    score listing for one event shows and in what order, and which of one
    shooter's slots the shooter report shows. The printing itself is not
    modelled. */
module Selection {
  import opened Field
  import opened Records

  datatype Option<+T> = None | Some(value: T)

  // ---------------------------------------------------------------------------
  // Score listing for one event

  /** One entry of the score listing: the hit count it is keyed on, the
      shooter's position in the roster and the shooter's name. */
  datatype Entry = Entry(hit: UShort, shooter: nat, name: seq<Byte>)

  /** Every shooter in the roster holds a score for slot `idx`. */
  predicate HasSlot(shooters: seq<Shooter>, idx: int)
  {
    0 <= idx && forall s <- shooters :: idx < |s.scores|
  }

  /** The shooters who shot at event `idx`, as entries, in roster order. */
  function Competitors(shooters: seq<Shooter>, idx: int): seq<Entry>
    requires HasSlot(shooters, idx)
    decreases |shooters|
  {
    if shooters == [] then []
    else
      var n := |shooters| - 1;
      var score := shooters[n].scores[idx];
      Competitors(shooters[..n], idx)
        + (if score.shotAt != 0 then [Entry(score.hit, n, shooters[n].name)] else [])
  }

  /** `a` is listed before `b`: a higher hit count first, and of equal hit
      counts the shooter who comes first in the roster. */
  predicate Before(a: Entry, b: Entry)
  {
    a.hit > b.hit || (a.hit == b.hit && a.shooter < b.shooter)
  }

  /** The listing order, strict between any two entries. */
  predicate RankedByHit(m: seq<Entry>)
  {
    forall i, j :: 0 <= i < j < |m| ==> Before(m[i], m[j])
  }

  /** The number of leading entries whose hit count is at least `key`: where
      a descending multimap inserts a new entry with that key, after all the
      entries with an equal key. */
  function UpperBound(m: seq<Entry>, key: UShort): (k: nat)
    ensures k <= |m|
    ensures forall j :: 0 <= j < k ==> m[j].hit >= key
    ensures k < |m| ==> m[k].hit < key
  {
    if m == [] || m[0].hit < key then 0 else 1 + UpperBound(m[1..], key)
  }

  /** Inserting an entry into the multimap. */
  function Emplace(m: seq<Entry>, e: Entry): seq<Entry>
  {
    var k := UpperBound(m, e.hit);
    m[..k] + [e] + m[k..]
  }

  /** In a listing in order, the entries from the insertion point on all
      have a lower hit count than the key. */
  lemma UpperBoundSplits(m: seq<Entry>, key: UShort)
    requires RankedByHit(m)
    ensures forall j :: UpperBound(m, key) <= j < |m| ==> m[j].hit < key
  {
    var k := UpperBound(m, key);
    forall j | k < j < |m| ensures m[j].hit < key {
      assert Before(m[k], m[j]);
    }
  }

  /** Inserting adds just that entry. */
  lemma EmplaceAddsEntry(m: seq<Entry>, e: Entry)
    ensures |Emplace(m, e)| == |m| + 1
    ensures multiset(Emplace(m, e)) == multiset(m) + multiset{e}
  {
    var k := UpperBound(m, e.hit);
    assert m == m[..k] + m[k..];
  }

  /** Inserting the entry of a shooter later in the roster than every entry
      already there keeps the listing order. */
  lemma EmplaceKeepsOrder(m: seq<Entry>, e: Entry)
    requires RankedByHit(m)
    requires forall x <- m :: x.shooter < e.shooter
    ensures RankedByHit(Emplace(m, e))
  {
    var k := UpperBound(m, e.hit);
    var r := Emplace(m, e);
    UpperBoundSplits(m, e.hit);
    assert |r| == |m| + 1 && r[k] == e;
    assert forall i :: 0 <= i < k ==> r[i] == m[i];
    assert forall i :: k < i < |r| ==> r[i] == m[i - 1];
    forall i, j | 0 <= i < j < |r| ensures Before(r[i], r[j]) {
      if i < k {
        assert m[i] in m;
      }
    }
  }

  /** The roster prefixes keep the slot. */
  lemma HasSlotPrefix(shooters: seq<Shooter>, idx: int, i: nat)
    requires HasSlot(shooters, idx) && i <= |shooters|
    ensures HasSlot(shooters[..i], idx)
  {
    forall s | s in shooters[..i] ensures idx < |s.scores| {
      var k :| 0 <= k < i && shooters[..i][k] == s;
      assert s == shooters[k];
    }
  }

  /** The competitors of one more shooter: that shooter's entry joins at the
      end when the shooter shot at the event. */
  lemma CompetitorsStep(shooters: seq<Shooter>, idx: int, i: nat)
    requires HasSlot(shooters, idx) && i < |shooters|
    ensures HasSlot(shooters[..i], idx) && HasSlot(shooters[..i + 1], idx)
    ensures var score := shooters[i].scores[idx];
      Competitors(shooters[..i + 1], idx)
      == Competitors(shooters[..i], idx)
         + (if score.shotAt != 0 then [Entry(score.hit, i, shooters[i].name)] else [])
  {
    HasSlotPrefix(shooters, idx, i);
    HasSlotPrefix(shooters, idx, i + 1);
    PrefixOfPrefix(shooters, i, i + 1);
  }

  /** Score listing for event `idx`: an index outside the event list is
      rejected; otherwise the listing holds exactly the shooters who shot at
      that event, highest hit count first, ties in roster order. */
  method RankEvent(d: Dataset, idx: int) returns (r: Option<seq<Entry>>)
    requires d.Valid()
    ensures r.None? <==> idx < 0 || idx >= |d.header.events|
    ensures r.Some? ==> HasSlot(d.shooters, idx)
                        && RankedByHit(r.value)
                        && multiset(r.value) == multiset(Competitors(d.shooters, idx))
  {
    if idx < 0 || idx >= |d.header.events| {
      return None;
    }
    assert HasSlot(d.shooters, idx);
    var ranking: seq<Entry> := [];
    for i := 0 to |d.shooters|
      invariant HasSlot(d.shooters[..i], idx)
      invariant RankedByHit(ranking)
      invariant multiset(ranking) == multiset(Competitors(d.shooters[..i], idx))
      invariant forall x <- ranking :: x.shooter < i
    {
      var shooter := d.shooters[i];
      var score := shooter.scores[idx];
      CompetitorsStep(d.shooters, idx, i);
      if score.shotAt == 0 {
        continue;
      }
      var e := Entry(score.hit, i, shooter.name);
      EmplaceKeepsOrder(ranking, e);
      EmplaceAddsEntry(ranking, e);
      ghost var before := ranking;
      ranking := Emplace(ranking, e);
      forall x | x in ranking ensures x.shooter < i + 1 {
        assert x in multiset(before) + multiset{e};
      }
    }
    PrefixWhole(d.shooters);
    return Some(ranking);
  }

  /** An entry is a competitor exactly when it is the hit count, position
      and name of a shooter who shot at event `idx`. */
  lemma {:induction false} CompetitorsExactly(shooters: seq<Shooter>, idx: int, e: Entry)
    requires HasSlot(shooters, idx)
    ensures e in Competitors(shooters, idx) <==>
      e.shooter < |shooters|
      && shooters[e.shooter].scores[idx].shotAt != 0
      && e.hit == shooters[e.shooter].scores[idx].hit
      && e.name == shooters[e.shooter].name
    decreases |shooters|
  {
    if shooters != [] {
      var n := |shooters| - 1;
      var front := shooters[..n];
      CompetitorsExactly(front, idx, e);
      if e.shooter < n {
        assert front[e.shooter] == shooters[e.shooter];
      }
    }
  }

  /** Competitors appear in roster order, each shooter at most once. */
  lemma {:induction false} CompetitorsInRosterOrder(shooters: seq<Shooter>, idx: int)
    requires HasSlot(shooters, idx)
    ensures forall i, j :: 0 <= i < j < |Competitors(shooters, idx)| ==>
              Competitors(shooters, idx)[i].shooter < Competitors(shooters, idx)[j].shooter
    decreases |shooters|
  {
    if shooters != [] {
      var n := |shooters| - 1;
      var front := shooters[..n];
      CompetitorsInRosterOrder(front, idx);
      var c := Competitors(front, idx);
      forall x | x in c ensures x.shooter < n {
        CompetitorsExactly(front, idx, x);
      }
      forall i | 0 <= i < |c| ensures c[i].shooter < n {
        assert c[i] in c;
      }
    }
  }

  /** The listing order leaves no choice: two listings in that order with the
      same entries are the same listing. So `RankEvent`'s result is the one
      and only ordering of the competitors. */
  lemma {:induction false} RankingUnique(a: seq<Entry>, b: seq<Entry>)
    requires RankedByHit(a) && RankedByHit(b)
    requires multiset(a) == multiset(b)
    ensures a == b
    decreases |a|
  {
    if a != [] {
      RankedHeadsAgree(a, b);
      RankedTail(a);
      RankedTail(b);
      TailMultiset(a);
      TailMultiset(b);
      RankingUnique(a[1..], b[1..]);
      SameHeadAndTail(a, b);
    }
  }

  lemma RankedTail(m: seq<Entry>)
    requires RankedByHit(m) && m != []
    ensures RankedByHit(m[1..])
  {
  }

  lemma TailMultiset<T>(s: seq<T>)
    requires s != []
    ensures multiset(s[1..]) == multiset(s) - multiset{s[0]}
  {
    assert s == [s[0]] + s[1..];
  }

  lemma SameHeadAndTail<T>(a: seq<T>, b: seq<T>)
    requires a != [] && b != [] && a[0] == b[0] && a[1..] == b[1..]
    ensures a == b
  {
    assert a == [a[0]] + a[1..] && b == [b[0]] + b[1..];
  }

  /** Two listings in order with the same entries start with the same entry. */
  lemma RankedHeadsAgree(a: seq<Entry>, b: seq<Entry>)
    requires RankedByHit(a) && RankedByHit(b)
    requires multiset(a) == multiset(b) && a != []
    ensures b != [] && a[0] == b[0]
  {
    assert a[0] in multiset(b);
    assert b[0] in multiset(a);
    var i :| 0 <= i < |a| && a[i] == b[0];
    var j :| 0 <= j < |b| && b[j] == a[0];
    assert i == 0 || j == 0;
  }

  // ---------------------------------------------------------------------------
  // Shooter report

  /** One line of the shooter report: the slot, the event held there and the
      shooter's score for it. */
  datatype Row = Row(slot: nat, event: Event, score: Score)

  /** The slots the report covers: those below both the score count and the
      event count. */
  function ReportedSlots(events: seq<Event>, scores: seq<Score>): (n: nat)
    ensures n <= |events| && n <= |scores|
    ensures n == |events| || n == |scores|
  {
    if |scores| < |events| then |scores| else |events|
  }

  /** The shooter report: for each slot in turn, stop once the slot is past
      the last event, skip the slot when the shooter shot at no targets there,
      and otherwise report the event and the score. */
  method ShooterResults(d: Dataset, s: Shooter) returns (rows: seq<Row>)
    ensures forall i, j :: 0 <= i < j < |rows| ==> rows[i].slot < rows[j].slot
    ensures forall r <- rows ::
              r.slot < ReportedSlots(d.header.events, s.scores)
              && r.event == d.header.events[r.slot]
              && r.score == s.scores[r.slot]
              && r.score.shotAt != 0
    ensures forall i :: 0 <= i < ReportedSlots(d.header.events, s.scores) && s.scores[i].shotAt != 0 ==>
              exists r <- rows :: r.slot == i
  {
    rows := [];
    for i := 0 to |s.scores|
      invariant forall a, b :: 0 <= a < b < |rows| ==> rows[a].slot < rows[b].slot
      invariant forall r <- rows ::
                  r.slot < i && r.slot < ReportedSlots(d.header.events, s.scores)
                  && r.event == d.header.events[r.slot]
                  && r.score == s.scores[r.slot]
                  && r.score.shotAt != 0
      invariant forall k :: 0 <= k < i && k < ReportedSlots(d.header.events, s.scores) && s.scores[k].shotAt != 0 ==>
                  exists r <- rows :: r.slot == k
    {
      if i >= |d.header.events| {
        break;
      }
      var score := s.scores[i];
      var event := d.header.events[i];
      if score.shotAt == 0 {
        continue;
      }
      var row := Row(i, event, score);
      assert row in rows + [row];
      rows := rows + [row];
    }
  }
}
