/** The placement puzzle: five shapes are dragged onto their outlines; a drop
    within planar distance 1.0 of the outline places the piece for good and
    reveals one more fact. */
module PuzzleGame {
  import opened Common

  datatype Piece = Piece(id: nat, shape: string, position: Vec3, target: Vec3, placed: bool)

  const Tag: string := "shape"

  const ProgressFacts: seq<string> := [
    "I'm a creative developer specializing in immersive 3D web experiences",
    "I have expertise in React, Three.js, WebGL, and interactive 3D animations",
    "I've developed both frontend and backend systems for various applications",
    "I enjoy solving complex problems using modern web technologies",
    "I'm proficient in JavaScript/TypeScript, CSS, and responsive web design"
  ]

  const Shapes: seq<string> := ["box", "sphere", "cylinder", "cone", "torus"]

  const TargetPositions: seq<Vec3> := [
    Vec3(-2.0, 1.0, 0.0), Vec3(-1.0, 1.0, 0.0), Vec3(0.0, 1.0, 0.0), Vec3(1.0, 1.0, 0.0), Vec3(2.0, 1.0, 0.0)
  ]

  const InitialPositions: seq<Vec3> := [
    Vec3(-2.0, -1.0, 0.0), Vec3(-1.0, -1.0, 0.0), Vec3(0.0, -1.0, 0.0), Vec3(1.0, -1.0, 0.0), Vec3(2.0, -1.0, 0.0)
  ]

  /** `shapes.map((shape, i) => ({ id: i, shape, ..., isPlaced: false }))`. */
  function InitialPieces(): (r: seq<Piece>)
    ensures |r| == |Shapes|
    ensures forall i :: 0 <= i < |r| ==>
      r[i].id == i && r[i].shape == Shapes[i] && r[i].target == TargetPositions[i] && !r[i].placed
  {
    seq(|Shapes|, i requires 0 <= i < |Shapes| =>
      Piece(i, Shapes[i], InitialPositions[i], TargetPositions[i], false))
  }

  /** Every piece has its own outline: no two targets coincide. */
  lemma TargetsDistinct()
    ensures Distinct(TargetPositions)
  {
  }

  /** `Math.sqrt(dx² + dy²) < 1.0` with z ignored; for a non-negative distance
      this is the same as comparing the squared distance with 1. */
  predicate Snaps(position: Vec3, target: Vec3) {
    var dx, dy := position.x - target.x, position.y - target.y;
    dx * dx + dy * dy < 1.0
  }

  /** Dropping exactly on the outline always snaps; a drop a full unit away
      along x or y never does; the height of the drop plays no part. */
  lemma SnapShape(position: Vec3, target: Vec3, z: real)
    ensures Snaps(target, target)
    ensures Snaps(position, target) <==> Snaps(position.(z := z), target)
    ensures position.x - target.x >= 1.0 || target.x - position.x >= 1.0 ==> !Snaps(position, target)
    ensures position.y - target.y >= 1.0 || target.y - position.y >= 1.0 ==> !Snaps(position, target)
  {
    var dx, dy := position.x - target.x, position.y - target.y;
    if dx >= 1.0 || -dx >= 1.0 {
      assert dx * dx >= 1.0;
    }
    if dy >= 1.0 || -dy >= 1.0 {
      assert dy * dy >= 1.0;
    }
  }

  /** The percentage at which fact i is revealed. */
  function Threshold(i: int): int {
    20 * (i + 1)
  }

  /** The threshold selection: fact i is shown exactly when the percentage
      reaches its threshold, so the facts shown are always a prefix of the
      fact list. */
  method FactsAtPercent(percent: int) returns (facts: seq<string>)
    ensures |facts| <= |ProgressFacts|
    ensures facts == ProgressFacts[..|facts|]
    ensures forall i :: 0 <= i < |ProgressFacts| ==> (i < |facts| <==> percent >= Threshold(i))
  {
    facts := [];
    if percent >= 20 { facts := facts + [ProgressFacts[0]]; }
    if percent >= 40 { facts := facts + [ProgressFacts[1]]; }
    if percent >= 60 { facts := facts + [ProgressFacts[2]]; }
    if percent >= 80 { facts := facts + [ProgressFacts[3]]; }
    if percent >= 100 { facts := facts + [ProgressFacts[4]]; }
  }

  /** An entry of `placedPieces` is a bare piece id: reading `isCorrect` off
      a number gives `undefined`, which is falsy. */
  predicate EntryIsCorrectAsWritten(entry: nat) {
    false
  }

  /** `placedPieces.filter(p => p.isCorrect).length` as written. */
  function CorrectPiecesAsWritten(placedPieces: seq<nat>): (r: nat)
    ensures r <= |placedPieces|
  {
    if placedPieces == [] then 0
    else CorrectPiecesAsWritten(placedPieces[1..]) + (if EntryIsCorrectAsWritten(placedPieces[0]) then 1 else 0)
  }

  /** `Math.floor((correctPieces / pieces.length) * 100)`. */
  function EffectPercent(correctPieces: nat, total: nat): (r: nat)
    requires total > 0
    ensures total * r <= 100 * correctPieces < total * (r + 1)
  {
    (100 * correctPieces) / total
  }

  /** As written, the progress effect counts no correct piece whatever has
      been placed, so it always computes 0 percent, which differs from the
      percentage the drop handler has just set as soon as a piece is placed. */
  lemma {:induction false} EffectAsWrittenIgnoresPlacement(placedPieces: seq<nat>)
    ensures CorrectPiecesAsWritten(placedPieces) == 0
    ensures EffectPercent(CorrectPiecesAsWritten(placedPieces), |Shapes|) == 0
    ensures |placedPieces| > 0 ==>
      EffectPercent(CorrectPiecesAsWritten(placedPieces), |Shapes|) != RoundPercent(|placedPieces|, |Shapes|)
  {
    if placedPieces != [] {
      EffectAsWrittenIgnoresPlacement(placedPieces[1..]);
      RoundPercentOfFive(|placedPieces|);
    }
  }

  /** Counting the placed pieces themselves, the effect's percentage agrees
      with the drop handler's: 20 per placed piece. */
  lemma CorrectedEffectPercent(placed: nat)
    requires placed <= |Shapes|
    ensures EffectPercent(placed, |Shapes|) == RoundPercent(placed, |Shapes|) == 20 * placed
  {
    RoundPercentOfFive(placed);
  }

  /** As written, every drop reports the piece's initial position, and no
      piece starts within snapping distance of its own outline. */
  lemma InitialPositionNeverSnaps()
    ensures forall i :: 0 <= i < |InitialPositions| ==> !Snaps(InitialPositions[i], TargetPositions[i])
  {
    forall i | 0 <= i < |InitialPositions| ensures !Snaps(InitialPositions[i], TargetPositions[i]) {
      SnapShape(InitialPositions[i], TargetPositions[i], 0.0);
    }
  }

  /** The argument `handlePointerDown` receives: the pointer event, or the
      "start-drag" label it is called back with through the piece's own
      `userData`. */
  datatype PointerArg = PointerEvent | Label(name: string)

  /** How a call of `handlePointerDown` ends: the report it caused, and
      whether it threw a `TypeError`. */
  datatype PointerDownResult = PointerDownResult(report: Option<Report>, typeError: bool)

  /** `handlePointerDown` as written. The piece's `userData` holds the
      handler itself, so on a pointer event it calls itself with a label;
      a string has no `stopPropagation`, and calling it throws. */
  function PointerDownAsWritten(placed: bool, arg: PointerArg): (r: PointerDownResult)
    decreases if arg.PointerEvent? then 1 else 0
  {
    if placed then PointerDownResult(None, false)
    else if arg.Label? then PointerDownResult(None, true)
    else
      var inner := PointerDownAsWritten(placed, Label("start-drag"));
      PointerDownResult(inner.report, inner.typeError)
  }

  /** As written, a drag start never reports progress: on an unplaced piece
      the self-call throws before anything is reported. */
  lemma DragStartAsWrittenNeverReports(placed: bool)
    ensures PointerDownAsWritten(placed, PointerEvent).report == None
    ensures PointerDownAsWritten(placed, PointerEvent).typeError <==> !placed
  {
  }

  class PlacementPuzzle {
    var pieces: seq<Piece>
    var placedPieces: seq<nat>
    var progress: nat

    ghost predicate Valid()
      reads this
    {
      && |pieces| == |Shapes|
      && (forall i :: 0 <= i < |pieces| ==>
            pieces[i].id == i && pieces[i].position == InitialPositions[i] && pieces[i].target == TargetPositions[i])
      && Distinct(placedPieces)
      && (forall k :: 0 <= k < |placedPieces| ==> placedPieces[k] < |pieces|)
      && (forall i :: 0 <= i < |pieces| ==> (pieces[i].placed <==> i in placedPieces))
      && progress == RoundPercent(|placedPieces|, |pieces|)
    }

    constructor ()
      ensures Valid()
      ensures pieces == InitialPieces() && placedPieces == [] && progress == 0
    {
      pieces := InitialPieces();
      placedPieces := [];
      progress := 0;
    }

    /** `handleDragEnd(id, position, targetPosition)`. */
    method DropPiece(id: nat, position: Vec3) returns (report: Option<Report>)
      requires Valid()
      requires id < |pieces|
      modifies this
      ensures Valid()
      ensures !Snaps(position, old(pieces)[id].target) || id in old(placedPieces) ==>
        pieces == old(pieces) && placedPieces == old(placedPieces) && progress == old(progress) && report == None
      ensures Snaps(position, old(pieces)[id].target) && id !in old(placedPieces) ==>
        && pieces == old(pieces)[id := old(pieces)[id].(placed := true)]
        && placedPieces == old(placedPieces) + [id]
        && progress == RoundPercent(|placedPieces|, |pieces|)
        && report == Some(Report(Slice(ProgressFacts, |placedPieces|), Tag))
      ensures forall i :: 0 <= i < |pieces| ==> (old(pieces)[i].placed ==> pieces[i].placed)
    {
      report := None;
      var target := pieces[id].target;
      var dx, dy := position.x - target.x, position.y - target.y;
      if dx * dx + dy * dy < 1.0 {
        pieces := pieces[id := pieces[id].(placed := true)];
        if id !in placedPieces {
          DistinctAppend(placedPieces, id);
          placedPieces := placedPieces + [id];
          progress := RoundPercent(|placedPieces|, |pieces|);
          report := Some(Report(Slice(ProgressFacts, |placedPieces|), Tag));
        }
      }
    }

    /** `handlePointerUp` as written: the drop reports `currentPosition`,
        which holds the piece's initial position and is never updated, so
        releasing a piece never places it. */
    method ReleaseAsWritten(id: nat) returns (report: Option<Report>)
      requires Valid()
      requires id < |pieces|
      modifies this
      ensures Valid()
      ensures pieces == old(pieces) && placedPieces == old(placedPieces) && progress == old(progress)
      ensures report == None
    {
      InitialPositionNeverSnaps();
      report := DropPiece(id, pieces[id].position);
    }

    /** The drag guard of `handlePointerDown` with the parent's
        `handlePieceInteraction("start-drag")` wired in, as intended: a placed
        piece cannot be picked up; any other piece reports the facts revealed
        so far. */
    method StartDrag(id: nat) returns (report: Option<Report>)
      requires Valid()
      requires id < |pieces|
      ensures pieces[id].placed ==> report == None
      ensures !pieces[id].placed ==> report == Some(Report(Slice(ProgressFacts, |placedPieces|), Tag))
    {
      if pieces[id].placed {
        return None;
      }
      report := Some(Report(Slice(ProgressFacts, |placedPieces|), Tag));
    }

    /** The progress effect as written: it sets progress to 0 and reports no
        facts, whatever has been placed. Once a piece is placed the state it
        leaves is outside `Valid()`, so no further drop is modelled after it. */
    method ProgressEffectAsWritten() returns (report: Report)
      requires Valid()
      modifies this`progress
      ensures progress == 0
      ensures report == Report([], Tag)
    {
      var correctPieces := CorrectPiecesAsWritten(placedPieces);
      EffectAsWrittenIgnoresPlacement(placedPieces);
      assert |pieces| == |Shapes|;
      var percent := EffectPercent(correctPieces, |pieces|);
      progress := percent;
      var facts := FactsAtPercent(percent);
      assert !(percent >= Threshold(0));
      report := Report(facts, Tag);
    }

    /** The progress effect counting the placed pieces: it keeps the drop
        handler's percentage and reports the same prefix of facts. */
    method ReportProgress() returns (report: Report)
      requires Valid()
      modifies this`progress
      ensures Valid()
      ensures progress == old(progress)
      ensures report == Report(Slice(ProgressFacts, |placedPieces|), Tag)
    {
      PlacedCount(pieces, placedPieces);
      var correctPieces := |placedPieces|;
      CorrectedEffectPercent(correctPieces);
      assert |pieces| == |Shapes|;
      var percent := EffectPercent(correctPieces, |pieces|);
      progress := percent;
      var facts := FactsAtPercent(percent);
      if correctPieces > 0 {
        assert percent >= Threshold(correctPieces - 1);
      }
      if correctPieces < |ProgressFacts| {
        assert !(percent >= Threshold(correctPieces));
      }
      report := Report(facts, Tag);
    }
  }

  /** Every placed piece is in `placedPieces` exactly once, so at most all
      pieces are listed, and all are listed exactly when every piece is placed. */
  lemma PlacedCount(pieces: seq<Piece>, placedPieces: seq<nat>)
    requires Distinct(placedPieces)
    requires forall k :: 0 <= k < |placedPieces| ==> placedPieces[k] < |pieces|
    requires forall i :: 0 <= i < |pieces| ==> (pieces[i].placed <==> i in placedPieces)
    ensures |placedPieces| <= |pieces|
    ensures |placedPieces| == |pieces| <==> forall i :: 0 <= i < |pieces| ==> pieces[i].placed
  {
    var n := |pieces|;
    var below := Below(n);
    forall x | x in placedPieces ensures x in below { }
    DistinctLength(placedPieces, below);
    if forall i :: 0 <= i < n ==> pieces[i].placed {
      forall x | x in below ensures x in placedPieces {
        assert pieces[x].placed;
      }
      assert (set x: nat | x in placedPieces) == below;
      DistinctCard(placedPieces);
    }
    if |placedPieces| == n {
      forall i | 0 <= i < n ensures pieces[i].placed {
        assert i in below;
      }
    }
  }

  /** Progress of the placement puzzle is 20 per placed piece, never above
      100, and 100 exactly when every piece is placed. */
  lemma PlacementProgress(pieces: seq<Piece>, placedPieces: seq<nat>)
    requires |pieces| == |Shapes|
    requires Distinct(placedPieces)
    requires forall k :: 0 <= k < |placedPieces| ==> placedPieces[k] < |pieces|
    requires forall i :: 0 <= i < |pieces| ==> (pieces[i].placed <==> i in placedPieces)
    ensures RoundPercent(|placedPieces|, |pieces|) == 20 * |placedPieces| <= 100
    ensures RoundPercent(|placedPieces|, |pieces|) == 100 <==> forall i :: 0 <= i < |pieces| ==> pieces[i].placed
  {
    PlacedCount(pieces, placedPieces);
    RoundPercentOfFive(|placedPieces|);
  }
}
