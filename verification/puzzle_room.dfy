/** The room controller: owns the player's position and look direction, the
    single active-puzzle slot and its lock, the per-puzzle progress records,
    the completed set, and the de-duplicated list of revealed facts it
    publishes. Station activation settles after a deferred step. */
module PuzzleRoom {
  import opened Common
  import LogicPuzzle
  import MemoryPuzzle
  import PuzzleGame

  /** A station of `puzzlesData` (position and colour are presentation). */
  datatype PuzzleInfo = PuzzleInfo(id: nat, title: string, puzzleType: string, facts: seq<string>)

  /** The look direction as two opaque angles. */
  datatype Look = Look(horizontal: real, vertical: real)

  /** `prevCameraState`: the position and look taken at activation. */
  datatype Snapshot = Snapshot(position: Vec3, look: Look)

  /** The active puzzle as the deferred activation step creates it. */
  datatype ActivePuzzle = ActivePuzzle(puzzleType: string, title: string)

  /** One entry of `puzzleProgress`. */
  datatype ProgressRecord = ProgressRecord(facts: seq<string>, progress: nat)

  /** One entry of `getEnhancedPuzzleData()`. */
  datatype StationStatus = StationStatus(info: PuzzleInfo, progress: nat, isCompleted: bool)

  const Catalogue: seq<PuzzleInfo> := [
    PuzzleInfo(1, "Skills", "shape", PuzzleGame.ProgressFacts),
    PuzzleInfo(2, "Experience", "logic", LogicPuzzle.ProgressFacts),
    PuzzleInfo(3, "Interests", "memory", MemoryPuzzle.ProgressFacts)
  ]

  /** The ids in the order `Object.entries` lists integer keys: ascending. */
  const CatalogueIds: seq<nat> := [1, 2, 3]

  /** `puzzlesData.find(p => p.type === puzzleType)`. */
  function FindByType(puzzleType: string): (r: Option<PuzzleInfo>)
    ensures r.Some? ==> r.value in Catalogue && r.value.puzzleType == puzzleType
    ensures r.None? ==> forall p :: p in Catalogue ==> p.puzzleType != puzzleType
  {
    if Catalogue[0].puzzleType == puzzleType then Some(Catalogue[0])
    else if Catalogue[1].puzzleType == puzzleType then Some(Catalogue[1])
    else if Catalogue[2].puzzleType == puzzleType then Some(Catalogue[2])
    else None
  }

  /** The catalogue is well formed: ids are the listed ids, types and ids are
      unique, every puzzle has five facts, and each solver's own fact list is
      the one its station publishes, so solver reports are prefixes of it. */
  lemma CatalogueShape()
    ensures forall k :: 0 <= k < |Catalogue| ==> Catalogue[k].id == CatalogueIds[k]
    ensures forall p :: p in Catalogue ==> |p.facts| == 5
    ensures Distinct(CatalogueIds)
    ensures FindByType(PuzzleGame.Tag).Some? && FindByType(PuzzleGame.Tag).value.facts == PuzzleGame.ProgressFacts
    ensures FindByType(LogicPuzzle.Tag).Some? && FindByType(LogicPuzzle.Tag).value.facts == LogicPuzzle.ProgressFacts
    ensures FindByType(MemoryPuzzle.Tag).Some? && FindByType(MemoryPuzzle.Tag).value.facts == MemoryPuzzle.ProgressFacts
  {
  }

  /** The facts of the other puzzles' records, in id order, skipping `skip`:
      what the `forEach` over `Object.entries(puzzleProgress)` collects. */
  function OtherFacts(records: map<nat, ProgressRecord>, ids: seq<nat>, skip: nat): (r: seq<string>)
    ensures forall x :: x in r <==>
      exists k :: 0 <= k < |ids| && ids[k] in records && ids[k] != skip && x in records[ids[k]].facts
  {
    if ids == [] then [] else
      var init, last := ids[..|ids| - 1], ids[|ids| - 1];
      var rest := OtherFacts(records, init, skip);
      var r := rest + (if last in records && last != skip then records[last].facts else []);
      assert forall k :: 0 <= k < |init| ==> init[k] == ids[k];
      r
  }

  /** `[...new Set(list)]`: the first occurrence of every element, in order. */
  function Dedup(s: seq<string>): (r: seq<string>)
    ensures Distinct(r)
    ensures forall x :: x in r <==> x in s
    ensures |r| <= |s|
  {
    if s == [] then [] else
      var init, last := s[..|s| - 1], s[|s| - 1];
      assert s == init + [last];
      var d := Dedup(init);
      if last in d then d else
        DistinctAppend(d, last);
        d + [last]
  }

  /** The position of the first occurrence of x in s. */
  function FirstIndex(s: seq<string>, x: string): (i: nat)
    requires x in s
    ensures i < |s| && s[i] == x && x !in s[..i]
  {
    if s[0] == x then 0 else
      assert x in s[1..];
      var i := 1 + FirstIndex(s[1..], x);
      assert s[..i] == [s[0]] + s[1..][..i - 1];
      i
  }

  /** A position holding x with no x before it is the first occurrence. */
  lemma FirstIndexUnique(s: seq<string>, x: string, i: nat)
    requires i < |s| && s[i] == x && x !in s[..i]
    ensures FirstIndex(s, x) == i
  {
  }

  /** Dedup keeps the elements in the order of their first occurrences in
      the input, which, with its other guarantees, determines it uniquely. */
  lemma {:induction false} DedupFirstOccurrenceOrder(s: seq<string>)
    ensures forall i, j :: 0 <= i < j < |Dedup(s)| ==>
      FirstIndex(s, Dedup(s)[i]) < FirstIndex(s, Dedup(s)[j])
  {
    if s != [] {
      var init, last := s[..|s| - 1], s[|s| - 1];
      assert s == init + [last];
      var d := Dedup(init);
      DedupFirstOccurrenceOrder(init);
      forall x | x in init ensures FirstIndex(s, x) == FirstIndex(init, x) {
        var f := FirstIndex(init, x);
        assert s[..f] == init[..f];
        FirstIndexUnique(s, x, f);
      }
      if last !in d {
        assert s[..|init|] == init;
        FirstIndexUnique(s, last, |init|);
        forall i, j | 0 <= i < j < |Dedup(s)|
          ensures FirstIndex(s, Dedup(s)[i]) < FirstIndex(s, Dedup(s)[j])
        {
          assert Dedup(s) == d + [last];
          if j < |d| {
            assert Dedup(s)[i] == d[i] && Dedup(s)[j] == d[j];
          } else {
            assert Dedup(s)[i] == d[i] && d[i] in init;
          }
        }
      }
    }
  }

  /** Dedup leaves a list without repetitions as it is, and so it is idempotent. */
  lemma {:induction false} DedupOfDistinct(s: seq<string>)
    requires Distinct(s)
    ensures Dedup(s) == s
  {
    if s != [] {
      var init := s[..|s| - 1];
      assert Distinct(init);
      DedupOfDistinct(init);
    }
  }

  /** `getEnhancedPuzzleData()`. */
  function Enhanced(records: map<nat, ProgressRecord>, completed: seq<nat>): (r: seq<StationStatus>)
    ensures |r| == |Catalogue|
    ensures forall k :: 0 <= k < |r| ==>
      && r[k].info == Catalogue[k]
      && r[k].progress == (if Catalogue[k].id in records then records[Catalogue[k].id].progress else 0)
      && (r[k].isCompleted <==> Catalogue[k].id in completed)
  {
    seq(|Catalogue|, k requires 0 <= k < |Catalogue| =>
      var p := Catalogue[k];
      StationStatus(p, if p.id in records then records[p.id].progress else 0, p.id in completed))
  }

  /** Records the room keeps: only for catalogue ids, with the percentage of
      their own facts. */
  ghost predicate RecordsValid(records: map<nat, ProgressRecord>) {
    forall id :: id in records ==>
      id in CatalogueIds && records[id].progress == CappedPercent(|records[id].facts|, 5)
  }

  /** Every station's progress shown to the presentation layer is within 0..100,
      and is the percentage of the facts its record holds. */
  lemma EnhancedInRange(records: map<nat, ProgressRecord>, completed: seq<nat>)
    requires RecordsValid(records)
    ensures forall k :: 0 <= k < |Catalogue| ==> Enhanced(records, completed)[k].progress <= 100
  {
    forall k | 0 <= k < |Catalogue| ensures Enhanced(records, completed)[k].progress <= 100 {
      var id := Catalogue[k].id;
      if id in records {
        assert records[id].progress == CappedPercent(|records[id].facts|, 5);
      }
    }
  }

  class Room {
    var position: Vec3
    var look: Look
    var active: Option<ActivePuzzle>
    var locked: bool
    var completed: seq<nat>
    var records: map<nat, ProgressRecord>
    var snapshot: Option<Snapshot>
    /** The puzzle types of activations whose deferred step has not run yet,
        in the order their timers fire. */
    var pending: seq<string>

    ghost predicate Valid()
      reads this
    {
      && (locked <==> active.Some?)
      && (active.Some? ==> FindByType(active.value.puzzleType).Some?)
      && (forall k :: 0 <= k < |pending| ==> FindByType(pending[k]).Some?)
      && RecordsValid(records)
      && Distinct(completed)
      && (forall k :: 0 <= k < |completed| ==> completed[k] in CatalogueIds)
    }

    constructor ()
      ensures Valid()
      ensures position == Vec3(0.0, 0.0, 0.0) && look == Look(0.0, 0.0)
      ensures active == None && !locked && completed == [] && records == map[]
      ensures snapshot == None && pending == []
    {
      position := Vec3(0.0, 0.0, 0.0);
      look := Look(0.0, 0.0);
      active := None;
      locked := false;
      completed := [];
      records := map[];
      snapshot := None;
      pending := [];
    }

    /** `handleActivatePuzzle(puzzleType)`, up to scheduling its deferred step.
        The approach position and look direction are computed by the
        presentation layer and come in as `approach` and `approachLook`. */
    method ActivatePuzzle(puzzleType: string, hasPlayer: bool, approach: Vec3, approachLook: Look)
      requires Valid()
      modifies this
      ensures Valid()
      ensures active == old(active) && locked == old(locked)
      ensures records == old(records) && completed == old(completed)
      ensures old(locked) || !hasPlayer ==>
        position == old(position) && look == old(look) && snapshot == old(snapshot) && pending == old(pending)
      ensures !old(locked) && hasPlayer ==>
        && snapshot == Some(Snapshot(old(position), old(look)))
        && (FindByType(puzzleType).Some? ==>
              position == approach && look == approachLook && pending == old(pending) + [puzzleType])
        && (FindByType(puzzleType).None? ==>
              position == old(position) && look == old(look) && pending == old(pending))
    {
      if locked || !hasPlayer {
        return;
      }
      snapshot := Some(Snapshot(position, look));
      var station := FindByType(puzzleType);
      if station.Some? {
        position := approach;
        look := approachLook;
        pending := pending + [puzzleType];
      }
    }

    /** The deferred activation step: lock, and make the station's puzzle the
        active one. It runs whether or not the player left in the meantime. */
    method FireActivation()
      requires Valid()
      requires pending != []
      modifies this
      ensures Valid()
      ensures locked
      ensures active == Some(ActivePuzzle(old(pending)[0], FindByType(old(pending)[0]).value.title))
      ensures pending == old(pending)[1..]
      ensures position == old(position) && look == old(look) && snapshot == old(snapshot)
      ensures records == old(records) && completed == old(completed)
    {
      var puzzleType := pending[0];
      var station := FindByType(puzzleType);
      locked := true;
      active := Some(ActivePuzzle(puzzleType, station.value.title));
      pending := pending[1..];
    }

    /** `handlePuzzleDeactivation()`: clear the active puzzle and the lock, and
        put the player back exactly where the snapshot says. */
    method Deactivate()
      requires Valid()
      modifies this
      ensures Valid()
      ensures active == None && !locked
      ensures old(snapshot).Some? ==>
        position == old(snapshot).value.position && look == old(snapshot).value.look
      ensures old(snapshot).None? ==> position == old(position) && look == old(look)
      ensures snapshot == old(snapshot) && pending == old(pending)
      ensures records == old(records) && completed == old(completed)
    {
      active := None;
      locked := false;
      if snapshot.Some? {
        position := snapshot.value.position;
        look := snapshot.value.look;
      }
    }

    /** The Escape check of the player's frame loop. */
    method Escape(pressed: bool)
      requires Valid()
      modifies this
      ensures Valid()
      ensures pressed && old(active).Some? ==>
        && active == None && !locked
        && (old(snapshot).Some? ==> position == old(snapshot).value.position && look == old(snapshot).value.look)
        && (old(snapshot).None? ==> position == old(position) && look == old(look))
      ensures !(pressed && old(active).Some?) ==>
        active == old(active) && locked == old(locked) && position == old(position) && look == old(look)
      ensures records == old(records) && completed == old(completed)
      ensures snapshot == old(snapshot) && pending == old(pending)
    {
      if pressed && active.Some? {
        Deactivate();
      }
    }

    /** The ingestion of a progress report is refused (and nothing changes)
        for a missing tag, a tag other than the active puzzle's, or a tag no
        station has; without an active puzzle only the last two apply. */
    predicate Accepts(tag: string)
      reads this
    {
      tag != "" && !(active.Some? && active.value.puzzleType != tag) && FindByType(tag).Some?
    }

    /** `handlePuzzleProgress(facts, puzzleType)`: returns the list published
        to `onPuzzleProgress`, if any. */
    method HandleProgress(facts: seq<string>, tag: string) returns (published: Option<seq<string>>)
      requires Valid()
      modifies this`records, this`completed
      ensures Valid()
      ensures !old(Accepts(tag)) ==>
        records == old(records) && completed == old(completed) && published == None
      ensures old(Accepts(tag)) ==>
        var p := FindByType(tag).value;
        && records == old(records)[p.id := ProgressRecord(facts, CappedPercent(|facts|, |p.facts|))]
        && completed == (if |facts| == |p.facts| && p.id !in old(completed) then old(completed) + [p.id]
                         else old(completed))
        && published == Some(Dedup(OtherFacts(old(records), CatalogueIds, p.id) + facts))
    {
      published := None;
      if tag == "" {
        return;
      }
      if active.Some? && active.value.puzzleType != tag {
        return;
      }
      var station := FindByType(tag);
      if station.None? {
        return;
      }
      var p := station.value;
      var id := p.id;
      var total := |p.facts|;
      var progressPercent := CappedPercent(|facts|, total);
      var previous := records;
      records := records[id := ProgressRecord(facts, progressPercent)];
      if |facts| == total && id !in completed {
        DistinctAppend(completed, id);
        completed := completed + [id];
      }
      var all := CollectOtherFacts(previous, id);
      published := Some(Dedup(all + facts));
    }

    /** The `onProgress` wrapper the room hands to the screen, which is
        mounted only while a puzzle is active: a missing tag falls back to the
        active puzzle's type, and only a type some station has reaches
        `HandleProgress`. A report the screen relays under its session type
        is therefore always ingested for the active puzzle. */
    method OnScreenProgress(facts: seq<string>, tag: string) returns (published: Option<seq<string>>)
      requires Valid()
      requires active.Some?
      modifies this`records, this`completed
      ensures Valid()
      ensures var t := if tag != "" then tag else old(active).value.puzzleType;
        && (!old(Accepts(t)) ==> records == old(records) && completed == old(completed) && published == None)
        && (old(Accepts(t)) ==>
              var p := FindByType(t).value;
              && records == old(records)[p.id := ProgressRecord(facts, CappedPercent(|facts|, 5))]
              && completed == (if |facts| == |p.facts| && p.id !in old(completed) then old(completed) + [p.id]
                               else old(completed))
              && published == Some(Dedup(OtherFacts(old(records), CatalogueIds, p.id) + facts)))
      ensures tag == "" || tag == old(active).value.puzzleType ==>
        var p := FindByType(old(active).value.puzzleType).value;
        records == old(records)[p.id := ProgressRecord(facts, CappedPercent(|facts|, 5))]
    {
      var t := if tag != "" then tag else active.value.puzzleType;
      published := None;
      if FindByType(t).Some? {
        published := HandleProgress(facts, t);
      }
    }
  }

  /** The `forEach` over the records: concatenates the facts of every other
      puzzle's record, in id order. */
  method CollectOtherFacts(records: map<nat, ProgressRecord>, skip: nat) returns (all: seq<string>)
    ensures all == OtherFacts(records, CatalogueIds, skip)
  {
    all := [];
    for k := 0 to |CatalogueIds|
      invariant all == OtherFacts(records, CatalogueIds[..k], skip)
    {
      var puzzleId := CatalogueIds[k];
      assert CatalogueIds[..k + 1][..k] == CatalogueIds[..k];
      if puzzleId in records && puzzleId != skip {
        all := all + records[puzzleId].facts;
      }
    }
    assert CatalogueIds[..|CatalogueIds|] == CatalogueIds;
  }

  /** With every record under a catalogue id, the collected facts are those
      of every record other than `skip`'s, whatever the id order. */
  lemma OtherFactsByKey(records: map<nat, ProgressRecord>, skip: nat, x: string)
    requires forall k :: k in records ==> k in CatalogueIds
    ensures x in OtherFacts(records, CatalogueIds, skip) <==>
      exists k :: k in records && k != skip && x in records[k].facts
  {
    if exists k :: k in records && k != skip && x in records[k].facts {
      var k :| k in records && k != skip && x in records[k].facts;
      var j :| 0 <= j < |CatalogueIds| && CatalogueIds[j] == k;
    }
  }

  /** Fact x is held by some record. */
  ghost predicate Recorded(records: map<nat, ProgressRecord>, x: string) {
    exists k :: k in records && x in records[k].facts
  }

  /** The published list has no repetitions, and holds exactly the facts of
      every record once the submitted facts are recorded for their puzzle. */
  lemma PublishedIsGlobalFactSet(records: map<nat, ProgressRecord>, id: nat, entry: ProgressRecord)
    requires forall k :: k in records ==> k in CatalogueIds
    ensures var published := Dedup(OtherFacts(records, CatalogueIds, id) + entry.facts);
      && Distinct(published)
      && forall x :: x in published <==> Recorded(records[id := entry], x)
  {
    var others := OtherFacts(records, CatalogueIds, id);
    var updated := records[id := entry];
    forall x ensures x in others + entry.facts <==> Recorded(updated, x) {
      OtherFactsByKey(records, id, x);
      if x in entry.facts {
        assert id in updated && x in updated[id].facts;
      } else if x in others {
        var k :| k in records && k != id && x in records[k].facts;
        assert k in updated && x in updated[k].facts;
      }
    }
  }

  /** A report with a tag other than the active puzzle's leaves every record
      and the completed set as they were, and publishes nothing. */
  method MismatchedReportChangesNothing(room: Room, facts: seq<string>, tag: string)
    returns (published: Option<seq<string>>)
    requires room.Valid()
    requires room.active.Some? && tag != room.active.value.puzzleType
    modifies room
    ensures room.records == old(room.records) && room.completed == old(room.completed)
    ensures published == None
  {
    published := room.HandleProgress(facts, tag);
  }

  /** Activating a station, letting the deferred step run, and leaving again
      brings the player back to exactly the position and look direction held
      before the activation. */
  method VisitRestoresPlayer(room: Room, puzzleType: string, approach: Vec3, approachLook: Look)
    requires room.Valid()
    requires !room.locked && room.pending == []
    requires FindByType(puzzleType).Some?
    modifies room
    ensures room.Valid()
    ensures room.position == old(room.position) && room.look == old(room.look)
    ensures room.active == None && !room.locked
  {
    room.ActivatePuzzle(puzzleType, true, approach, approachLook);
    room.FireActivation();
    room.Deactivate();
  }

  /** The lock is only set by the deferred step: a second activation before
      that step runs is accepted, and its snapshot is the first activation's
      approach position, which a later exit then restores. */
  method SecondActivationBeforeSettle(room: Room, first: string, second: string,
                                      approach1: Vec3, look1: Look, approach2: Vec3, look2: Look)
    requires room.Valid()
    requires !room.locked && room.pending == []
    requires FindByType(first).Some? && FindByType(second).Some?
    modifies room
    ensures room.Valid()
    ensures room.pending == [first, second]
    ensures room.snapshot == Some(Snapshot(approach1, look1))
    ensures room.position == approach2 && room.look == look2
  {
    room.ActivatePuzzle(first, true, approach1, look1);
    room.ActivatePuzzle(second, true, approach2, look2);
  }
}
