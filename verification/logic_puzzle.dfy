/** The connection puzzle: the player joins six fixed nodes with directed
    connections; the path Start → Analysis → Design → Development → Testing →
    End is the solution, and each correct connection reveals one fact. */
module LogicPuzzle {
  import opened Common

  datatype Node = Node(id: int, name: string, isFixed: bool)

  /** A connection from the node selected first to the node clicked second. */
  datatype Connection = Connection(from: int, to: int)

  /** What one evaluation pass over the connections counts and notices. */
  datatype Tally = Tally(correct: nat, hasStart: bool, hasEnd: bool)

  const StartNode: int := 1
  const EndNode: int := 6
  const Tag: string := "logic"

  const Nodes: seq<Node> := [
    Node(1, "Start", true),
    Node(2, "Analysis", false),
    Node(3, "Design", false),
    Node(4, "Development", false),
    Node(5, "Testing", false),
    Node(6, "End", true)
  ]

  const CorrectSequence: seq<Connection> := [
    Connection(1, 2), Connection(2, 3), Connection(3, 4), Connection(4, 5), Connection(5, 6)
  ]

  const ProgressFacts: seq<string> := [
    "I've worked on projects for brands in e-commerce, education, and entertainment",
    "I've built interactive data visualizations for business analytics platforms",
    "I've developed engaging user interfaces for mobile and web applications",
    "I've collaborated with design teams to implement pixel-perfect interfaces",
    "I've optimized web applications for performance and accessibility"
  ]

  const PathWarning: string := "Your path must connect from Start to End"
  const IncorrectWarning: string := "Some connections aren't correct"

  /** `nodes.find(n => n.id === id)` succeeds. */
  predicate NodeExists(id: int) {
    exists n :: n in Nodes && n.id == id
  }

  lemma NodeIds(id: int)
    ensures NodeExists(id) <==> StartNode <= id <= EndNode
  {
    if StartNode <= id <= EndNode {
      assert Nodes[id - 1] in Nodes;
    }
  }

  /** Directed membership in the fixed correct sequence. */
  predicate IsCorrectConnection(from: int, to: int) {
    Connection(from, to) in CorrectSequence
  }

  lemma CorrectConnectionShape(from: int, to: int)
    ensures IsCorrectConnection(from, to) <==> StartNode <= from < EndNode && to == from + 1
    ensures IsCorrectConnection(from, to) ==> !IsCorrectConnection(to, from)
  {
    if StartNode <= from < EndNode && to == from + 1 {
      assert CorrectSequence[from - 1] == Connection(from, to);
    }
  }

  /** The two connections join the same unordered pair of nodes. */
  predicate SamePair(a: Connection, b: Connection) {
    (a.from == b.from && a.to == b.to) || (a.from == b.to && a.to == b.from)
  }

  predicate NoSelfLoops(cs: seq<Connection>) {
    forall i :: 0 <= i < |cs| ==> cs[i].from != cs[i].to
  }

  predicate NoDuplicatePairs(cs: seq<Connection>) {
    forall i, j :: 0 <= i < j < |cs| ==> !SamePair(cs[i], cs[j])
  }

  predicate EndpointsExist(cs: seq<Connection>) {
    forall i :: 0 <= i < |cs| ==> NodeExists(cs[i].from) && NodeExists(cs[i].to)
  }

  /** The connection the click handler would create joins two existing nodes
      that no connection joins yet, in either direction. */
  predicate CanConnect(cs: seq<Connection>, from: int, to: int) {
    NodeExists(from) && NodeExists(to) &&
    !(exists c :: c in cs && SamePair(c, Connection(from, to)))
  }

  /** `connections.filter(conn => isCorrectConnection(conn.from, conn.to))`. */
  function CorrectOnes(cs: seq<Connection>): (r: seq<Connection>)
    ensures forall c :: c in r <==> c in cs && IsCorrectConnection(c.from, c.to)
    ensures |r| <= |cs|
  {
    if cs == [] then [] else
      var init, last := cs[..|cs| - 1], cs[|cs| - 1];
      assert cs == init + [last];
      var rest := CorrectOnes(init);
      if IsCorrectConnection(last.from, last.to) then rest + [last] else rest
  }

  /** The counters of `checkSolution`'s loop after visiting every connection. */
  function Evaluate(cs: seq<Connection>): (t: Tally)
    ensures t.correct == |CorrectOnes(cs)|
    ensures t.hasStart <==> exists c :: c in cs && c.from == StartNode
    ensures t.hasEnd <==> exists c :: c in cs && c.to == EndNode
  {
    if cs == [] then Tally(0, false, false) else
      var init, last := cs[..|cs| - 1], cs[|cs| - 1];
      assert cs == init + [last];
      var t := Evaluate(init);
      Tally(t.correct + (if IsCorrectConnection(last.from, last.to) then 1 else 0),
            t.hasStart || last.from == StartNode,
            t.hasEnd || last.to == EndNode)
  }

  predicate IsSolved(t: Tally) {
    t.hasStart && t.hasEnd && t.correct == |CorrectSequence|
  }

  /** `Math.min(100, Math.round((correctConnections / 5) * 100))`. */
  function ProgressFor(t: Tally): nat {
    CappedPercent(t.correct, |CorrectSequence|)
  }

  /** The single warning an evaluation leaves behind (None is `null`). */
  function WarningFor(cs: seq<Connection>): Option<string> {
    var t := Evaluate(cs);
    if IsSolved(t) then None
    else if |cs| > 0 && (!t.hasStart || !t.hasEnd) then Some(PathWarning)
    else if |cs| > 0 && t.correct < |cs| then Some(IncorrectWarning)
    else None
  }

  /** The report an evaluation sends: on a solve, or while anything is correct. */
  function ReportFor(cs: seq<Connection>): Option<Report> {
    var t := Evaluate(cs);
    if IsSolved(t) || t.correct > 0 then Some(Report(Slice(ProgressFacts, t.correct), Tag))
    else None
  }

  /** `newConnections.splice(index, 1)` on a copy (an index past the end removes nothing). */
  function RemoveAt(cs: seq<Connection>, index: nat): (r: seq<Connection>)
    ensures index < |cs| ==> |r| == |cs| - 1
    ensures index < |cs| ==> forall k :: 0 <= k < |r| ==> r[k] == if k < index then cs[k] else cs[k + 1]
    ensures index >= |cs| ==> r == cs
  {
    if index < |cs| then cs[..index] + cs[index + 1..] else cs
  }

  /** `checkSolution`'s loop: one pass over the connections with three counters. */
  method CountConnections(cs: seq<Connection>) returns (t: Tally)
    ensures t == Evaluate(cs)
  {
    var hasStart, hasEnd, correct := false, false, 0;
    for i := 0 to |cs|
      invariant Tally(correct, hasStart, hasEnd) == Evaluate(cs[..i])
    {
      var conn := cs[i];
      assert cs[..i + 1][..i] == cs[..i];
      if conn.from == StartNode {
        hasStart := true;
      }
      if conn.to == EndNode {
        hasEnd := true;
      }
      if IsCorrectConnection(conn.from, conn.to) {
        correct := correct + 1;
      }
    }
    assert cs[..|cs|] == cs;
    t := Tally(correct, hasStart, hasEnd);
  }

  class ConnectionPuzzle {
    var selected: Option<int>
    var connections: seq<Connection>
    var progress: nat
    var warning: Option<string>

    ghost predicate Valid()
      reads this
    {
      NoSelfLoops(connections) && NoDuplicatePairs(connections) &&
      EndpointsExist(connections) && progress <= 100
    }

    constructor ()
      ensures Valid()
      ensures selected == None && connections == [] && progress == 0 && warning == None
    {
      selected := None;
      connections := [];
      progress := 0;
      warning := None;
    }

    /** `checkSolution(currentConnections)`: clears the warning, sets progress,
        raises at most one warning and reports the revealed prefix of facts. */
    method CheckSolution(cs: seq<Connection>) returns (solved: bool, report: Option<Report>)
      modifies this`progress, this`warning
      ensures solved == IsSolved(Evaluate(cs))
      ensures progress == ProgressFor(Evaluate(cs))
      ensures warning == WarningFor(cs)
      ensures report == ReportFor(cs)
    {
      warning := None;
      var t := CountConnections(cs);
      progress := CappedPercent(t.correct, |CorrectSequence|);
      var revealed := Slice(ProgressFacts, t.correct);
      if t.hasStart && t.hasEnd && t.correct == |CorrectSequence| {
        return true, Some(Report(revealed, Tag));
      } else if |cs| > 0 && (!t.hasStart || !t.hasEnd) {
        warning := Some(PathWarning);
      } else if |cs| > 0 && t.correct < |cs| {
        warning := Some(IncorrectWarning);
      }
      report := if t.correct > 0 then Some(Report(revealed, Tag)) else None;
      solved := false;
    }

    /** `handleNodeClick(id)`: select, deselect, or connect and evaluate. */
    method NodeClick(id: int) returns (report: Option<Report>)
      requires Valid()
      modifies this
      ensures Valid()
      ensures old(selected).None? ==>
        selected == Some(id) && connections == old(connections) && progress == old(progress) &&
        warning == None &&
        report == Some(Report(Slice(ProgressFacts, Evaluate(connections).correct), Tag))
      ensures old(selected) == Some(id) ==>
        selected == None && connections == old(connections) && progress == old(progress) &&
        warning == None && report == None
      ensures old(selected).Some? && old(selected) != Some(id) ==>
        selected == None &&
        var added := CanConnect(old(connections), old(selected).value, id);
        connections == (if added then old(connections) + [Connection(old(selected).value, id)] else old(connections)) &&
        (added ==> progress == ProgressFor(Evaluate(connections)) && warning == WarningFor(connections) &&
                   report == ReportFor(connections)) &&
        (!added ==> progress == old(progress) && warning == None && report == None)
    {
      warning := None;
      report := None;
      if selected.None? {
        selected := Some(id);
        var correctCount := |CorrectOnes(connections)|;
        report := Some(Report(Slice(ProgressFacts, correctCount), Tag));
      } else if selected == Some(id) {
        selected := None;
      } else {
        var from := selected.value;
        if NodeExists(from) && NodeExists(id) {
          var connectionExists := exists c :: c in connections && SamePair(c, Connection(from, id));
          if !connectionExists {
            var newConnections := connections + [Connection(from, id)];
            AppendKeepsValid(connections, from, id);
            connections := newConnections;
            var _, r := CheckSolution(newConnections);
            report := r;
          }
        }
        selected := None;
      }
    }

    /** `handleRemoveConnection(index)`: drops one entry and re-evaluates. */
    method RemoveConnection(index: nat) returns (report: Option<Report>)
      requires Valid()
      modifies this
      ensures Valid()
      ensures connections == RemoveAt(old(connections), index)
      ensures selected == old(selected)
      ensures progress == ProgressFor(Evaluate(connections))
      ensures warning == WarningFor(connections)
      ensures report == ReportFor(connections)
    {
      var newConnections := RemoveAt(connections, index);
      RemoveKeepsValid(connections, index);
      connections := newConnections;
      var _, r := CheckSolution(newConnections);
      report := r;
    }
  }

  /** The connection the click handler creates keeps both invariants. */
  lemma AppendKeepsValid(cs: seq<Connection>, from: int, to: int)
    requires NoSelfLoops(cs) && NoDuplicatePairs(cs) && EndpointsExist(cs)
    requires from != to && CanConnect(cs, from, to)
    ensures var r := cs + [Connection(from, to)];
      NoSelfLoops(r) && NoDuplicatePairs(r) && EndpointsExist(r)
  {
    var r := cs + [Connection(from, to)];
    forall i, j | 0 <= i < j < |r| ensures !SamePair(r[i], r[j]) {
      if j == |cs| {
        assert r[i] in cs;
      }
    }
  }

  /** Removing one entry keeps both invariants. */
  lemma RemoveKeepsValid(cs: seq<Connection>, index: nat)
    requires NoSelfLoops(cs) && NoDuplicatePairs(cs) && EndpointsExist(cs)
    ensures var r := RemoveAt(cs, index);
      NoSelfLoops(r) && NoDuplicatePairs(r) && EndpointsExist(r)
  {
    RemoveKeepsEntries(cs, index);
    RemoveKeepsNoDuplicates(cs, index);
  }

  /** Every remaining entry is an entry of the board before. */
  lemma RemoveKeepsEntries(cs: seq<Connection>, index: nat)
    requires NoSelfLoops(cs) && EndpointsExist(cs)
    ensures NoSelfLoops(RemoveAt(cs, index)) && EndpointsExist(RemoveAt(cs, index))
  {
    var r := RemoveAt(cs, index);
    if index < |cs| {
      forall k | 0 <= k < |r|
        ensures r[k].from != r[k].to && NodeExists(r[k].from) && NodeExists(r[k].to)
      {
        var k' := if k < index then k else k + 1;
        assert r[k] == cs[k'];
      }
    }
  }

  /** Two remaining entries were two different entries before. */
  lemma RemoveKeepsNoDuplicates(cs: seq<Connection>, index: nat)
    requires NoDuplicatePairs(cs)
    ensures NoDuplicatePairs(RemoveAt(cs, index))
  {
    var r := RemoveAt(cs, index);
    if index < |cs| {
      forall i, j | 0 <= i < j < |r| ensures !SamePair(r[i], r[j]) {
        var i' := if i < index then i else i + 1;
        var j' := if j < index then j else j + 1;
        assert i' < j' < |cs|;
        assert r[i] == cs[i'] && r[j] == cs[j'];
      }
    }
  }

  /** Without duplicate pairs the correct connections are all different. */
  lemma {:induction false} CorrectOnesDistinct(cs: seq<Connection>)
    requires NoDuplicatePairs(cs)
    ensures Distinct(CorrectOnes(cs))
  {
    if cs != [] {
      var init, last := cs[..|cs| - 1], cs[|cs| - 1];
      assert NoDuplicatePairs(init);
      CorrectOnesDistinct(init);
      if IsCorrectConnection(last.from, last.to) {
        DistinctAppend(CorrectOnes(init), last);
      }
    }
  }

  /** At most five connections can be correct, whatever the player builds. */
  lemma CorrectAtMostFive(cs: seq<Connection>)
    requires NoDuplicatePairs(cs)
    ensures Evaluate(cs).correct <= |CorrectSequence|
    ensures Evaluate(cs).correct == |CorrectSequence| ==> forall c :: c in CorrectSequence ==> c in cs
  {
    CorrectOnesDistinct(cs);
    var u := {Connection(1, 2), Connection(2, 3), Connection(3, 4), Connection(4, 5), Connection(5, 6)};
    assert |u| == 5;
    forall c | c in CorrectOnes(cs) ensures c in u { }
    DistinctLength(CorrectOnes(cs), u);
  }

  /** With no duplicate pairs, five correct connections already include an
      edge leaving Start and one entering End: the puzzle is solved exactly
      when all five are present, whatever incorrect extras there are. */
  lemma SolvedIffAllCorrect(cs: seq<Connection>)
    requires NoDuplicatePairs(cs)
    ensures IsSolved(Evaluate(cs)) <==> Evaluate(cs).correct == |CorrectSequence|
    ensures IsSolved(Evaluate(cs)) <==> ProgressFor(Evaluate(cs)) == 100
    ensures ProgressFor(Evaluate(cs)) == 20 * Evaluate(cs).correct
    ensures IsSolved(Evaluate(cs)) <==> forall c :: c in CorrectSequence ==> c in cs
  {
    CorrectAtMostFive(cs);
    RoundPercentOfFive(Evaluate(cs).correct);
    if Evaluate(cs).correct == |CorrectSequence| {
      assert Connection(1, 2) in cs;
      assert Connection(5, 6) in cs;
    }
    if forall c :: c in CorrectSequence ==> c in cs {
      CorrectOnesDistinct(cs);
      AllCorrectPresentCountsFive(cs);
    }
  }

  /** Every correct edge being present makes five correct connections. */
  lemma AllCorrectPresentCountsFive(cs: seq<Connection>)
    requires Distinct(CorrectOnes(cs))
    requires forall c :: c in CorrectSequence ==> c in cs
    ensures |CorrectOnes(cs)| >= |CorrectSequence|
  {
    CorrectSequenceKept(cs);
    CorrectSequenceDistinct();
    DistinctCovered(CorrectSequence, CorrectOnes(cs));
  }

  /** The five correct edges are five different connections. */
  lemma CorrectSequenceDistinct()
    ensures Distinct(CorrectSequence)
  {
  }

  /** The filter keeps every correct edge the board holds. */
  lemma CorrectSequenceKept(cs: seq<Connection>)
    requires forall c :: c in CorrectSequence ==> c in cs
    ensures forall c :: c in CorrectSequence ==> c in CorrectOnes(cs)
  {
    forall c | c in CorrectSequence ensures c in CorrectOnes(cs) {
      assert IsCorrectConnection(c.from, c.to);
    }
  }

  /** An extra incorrect connection changes neither the correct count nor a
      solve, and a board that ends with it and is unsolved carries a warning. */
  lemma ExtraIncorrectConnection(cs: seq<Connection>, c: Connection)
    requires !IsCorrectConnection(c.from, c.to)
    ensures Evaluate(cs + [c]).correct == Evaluate(cs).correct
    ensures IsSolved(Evaluate(cs)) ==> IsSolved(Evaluate(cs + [c]))
    ensures !IsSolved(Evaluate(cs + [c])) ==> WarningFor(cs + [c]).Some?
  {
    assert (cs + [c])[..|cs|] == cs;
  }
}
