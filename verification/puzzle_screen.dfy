/** The puzzle screen: the overlay that hosts the active solver, pins the
    session's puzzle type on activation, and relays the solver's progress
    reports upwards under that type. */
module PuzzleScreen {
  import opened Common
  import LogicPuzzle
  import MemoryPuzzle
  import PuzzleGame

  /** What `renderPuzzle` shows for a puzzle type. */
  datatype View = MemoryView | LogicView | ShapeView | UnknownView(puzzleType: string)

  /** The facts total `handlePuzzleProgress` assumes for every type. */
  const TotalRequired: nat := 5

  /** `renderPuzzle`: a switch on `puzzle.type || ''`. */
  function Dispatch(puzzleType: string): (v: View)
    ensures v == MemoryView <==> puzzleType == MemoryPuzzle.Tag
    ensures v == LogicView <==> puzzleType == LogicPuzzle.Tag
    ensures v == ShapeView <==> puzzleType == PuzzleGame.Tag
    ensures v.UnknownView? <==> puzzleType !in {MemoryPuzzle.Tag, LogicPuzzle.Tag, PuzzleGame.Tag}
  {
    match puzzleType
    case "memory" => MemoryView
    case "logic" => LogicView
    case "shape" => ShapeView
    case _ => UnknownView(puzzleType)
  }

  /** The tag the solver behind a view puts on its reports. */
  function SolverTag(v: View): string {
    match v
    case MemoryView => MemoryPuzzle.Tag
    case LogicView => LogicPuzzle.Tag
    case ShapeView => PuzzleGame.Tag
    case UnknownView(t) => t
  }

  /** Each solver the screen dispatches to tags its reports with the very type
      that selected it, so its reports pass the screen's type check. */
  lemma DispatchMatchesSolverTags(puzzleType: string)
    ensures !Dispatch(puzzleType).UnknownView? ==> SolverTag(Dispatch(puzzleType)) == puzzleType
  {
  }

  class Screen {
    /** The `puzzle.type` of the hosted puzzle ("" when it has none). */
    var puzzleType: string
    /** The `initialPuzzleType` ref; "" stands for `null`. */
    var initialType: string
    var revealedFacts: seq<string>
    var progressPercent: nat
    var errorMsg: string

    ghost predicate Valid()
      reads this
    {
      progressPercent <= 100
    }

    constructor (puzzleType: string)
      ensures Valid()
      ensures this.puzzleType == puzzleType && initialType == ""
      ensures revealedFacts == [] && progressPercent == 0 && errorMsg == ""
    {
      this.puzzleType := puzzleType;
      initialType := "";
      revealedFacts := [];
      progressPercent := 0;
      errorMsg := "";
    }

    /** The type a report must carry: the pinned type, else `puzzle.type`. */
    function ExpectedType(): string
      reads this
    {
      if initialType != "" then initialType else puzzleType
    }

    /** The set-up effect while active: pin the type if nothing is pinned yet
        and the puzzle has one, then reset error, facts and progress. */
    method Activate(puzzle: string)
      requires Valid()
      modifies this
      ensures Valid()
      ensures puzzleType == puzzle
      ensures initialType == if old(initialType) == "" && puzzle != "" then puzzle else old(initialType)
      ensures errorMsg == "" && revealedFacts == [] && progressPercent == 0
    {
      puzzleType := puzzle;
      if puzzleType != "" && initialType == "" {
        initialType := puzzleType;
      }
      errorMsg := "";
      revealedFacts := [];
      progressPercent := 0;
    }

    /** The reset effect when the screen becomes inactive. */
    method Deactivate()
      requires Valid()
      modifies this`initialType
      ensures Valid()
      ensures initialType == ""
    {
      initialType := "";
    }

    /** `handlePuzzleProgress(facts, puzzleTypeFromChild)`; `None` stands for
        facts that are not an array. */
    method HandleProgress(facts: Option<seq<string>>, tag: string) returns (forwarded: Option<Report>)
      requires Valid()
      modifies this`revealedFacts, this`progressPercent
      ensures Valid()
      ensures facts.None? || (tag != "" && tag != ExpectedType()) ==>
        forwarded == None && revealedFacts == old(revealedFacts) && progressPercent == old(progressPercent)
      ensures facts.Some? && (tag == "" || tag == ExpectedType()) ==>
        && forwarded == Some(Report(facts.value, ExpectedType()))
        && revealedFacts == facts.value
        && progressPercent == CappedPercent(|facts.value|, TotalRequired)
    {
      if facts.None? {
        return None;
      }
      var expected := if initialType != "" then initialType else puzzleType;
      if tag != "" && tag != expected {
        return None;
      }
      revealedFacts := facts.value;
      progressPercent := CappedPercent(|facts.value|, TotalRequired);
      forwarded := Some(Report(facts.value, expected));
    }
  }
}
