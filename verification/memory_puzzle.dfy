/** The pair-match (memory) puzzle: ten face-down cards, five symbols twice
    each; two flipped cards with the same symbol stay matched and reveal one
    more fact. The two `setTimeout` resolutions are explicit methods. */
module MemoryPuzzle {
  import opened Common

  datatype Card = Card(symbol: string, matched: bool)

  /** The resolution a second flip schedules: the match callback captures both
      indices, the symbol and `matchedPairs.length` at the time of the click. */
  datatype Resolution =
    | MatchDue(first: nat, second: nat, symbol: string, pairsBefore: nat)
    | MismatchDue

  const Tag: string := "memory"

  const Symbols: seq<string> := ["diamond", "heart", "spade", "club", "star"]

  const ProgressFacts: seq<string> := [
    "I enjoy combining design thinking with technical implementation",
    "I'm passionate about creating memorable user experiences",
    "Outside of coding, I love photography and exploring new technologies",
    "I regularly contribute to open-source projects in my free time",
    "I'm interested in the intersection of art and technology"
  ]

  /** `cardSymbols.flatMap(card => [card, card])`, every card unmatched. */
  function Pairs(symbols: seq<string>): (r: seq<Card>)
    ensures |r| == 2 * |symbols|
  {
    if symbols == [] then []
    else [Card(symbols[0], false), Card(symbols[0], false)] + Pairs(symbols[1..])
  }

  function PairedDeck(): seq<Card> {
    Pairs(Symbols)
  }

  /** The indices of the cards showing symbol s. */
  function Positions(cards: seq<Card>, s: string): set<nat> {
    set i: nat | i < |cards| && cards[i].symbol == s
  }

  /** The deck invariant every arrangement of the shuffled deck satisfies:
      ten unmatched cards, each of the five symbols on exactly two of them. */
  ghost predicate IsDeck(cards: seq<Card>) {
    && |cards| == 2 * |Symbols|
    && (forall i :: 0 <= i < |cards| ==> cards[i].symbol in Symbols && !cards[i].matched)
    && (forall s :: s in Symbols ==> |Positions(cards, s)| == 2)
  }

  lemma {:induction false} PairsAt(symbols: seq<string>, i: nat)
    requires i < 2 * |symbols|
    ensures Pairs(symbols)[i] == Card(symbols[i / 2], false)
  {
    if i >= 2 {
      PairsAt(symbols[1..], i - 2);
    }
  }

  /** The deck before shuffling already satisfies the deck invariant. */
  lemma PairedDeckIsDeck()
    ensures IsDeck(PairedDeck())
  {
    var d := PairedDeck();
    forall i | 0 <= i < |d| ensures d[i].symbol in Symbols && !d[i].matched {
      PairsAt(Symbols, i);
    }
    forall s | s in Symbols ensures |Positions(d, s)| == 2 {
      var k :| 0 <= k < |Symbols| && Symbols[k] == s;
      forall i: nat | i < |d| ensures d[i].symbol == s <==> i == 2 * k || i == 2 * k + 1 {
        PairsAt(Symbols, i);
      }
      assert Positions(d, s) == {2 * k, 2 * k + 1};
    }
  }

  /** The relation between cards and matched pairs every state keeps. */
  ghost predicate PairsConsistent(cards: seq<Card>, matchedPairs: seq<string>) {
    && Distinct(matchedPairs)
    && (forall k :: 0 <= k < |matchedPairs| ==> matchedPairs[k] in Symbols)
    && (forall i :: 0 <= i < |cards| ==> (cards[i].matched <==> cards[i].symbol in matchedPairs))
  }

  /** The flipped cards of a turn: at most two different unmatched cards. */
  ghost predicate FlipsConsistent(cards: seq<Card>, flipped: seq<nat>) {
    && |flipped| <= 2
    && Distinct(flipped)
    && (forall k :: 0 <= k < |flipped| ==> flipped[k] < |cards| && !cards[flipped[k]].matched)
  }

  /** `matchedPairs` holds at most the five symbols, and it holds all five
      exactly when every card is matched. */
  lemma MatchedPairsBound(cards: seq<Card>, matchedPairs: seq<string>)
    requires PairsConsistent(cards, matchedPairs)
    requires forall i :: 0 <= i < |cards| ==> cards[i].symbol in Symbols
    requires forall s :: s in Symbols ==> |Positions(cards, s)| == 2
    ensures |matchedPairs| <= |Symbols|
    ensures (forall i :: 0 <= i < |cards| ==> cards[i].matched) <==> |matchedPairs| == |Symbols|
  {
    var u := set s | s in Symbols;
    assert |u| == 5 by {
      assert u == {"diamond", "heart", "spade", "club", "star"};
    }
    DistinctLength(matchedPairs, u);
    if forall i :: 0 <= i < |cards| ==> cards[i].matched {
      forall s | s in u ensures s in matchedPairs {
        var ps := Positions(cards, s);
        assert |ps| == 2;
        var i :| i in ps;
        assert cards[i].matched;
      }
      SetCoveredByDistinct(matchedPairs, u);
    }
  }

  /** A distinct sequence covering a set is at least as long as the set. */
  lemma SetCoveredByDistinct(s: seq<string>, u: set<string>)
    requires Distinct(s)
    requires forall x :: x in s ==> x in u
    requires forall x :: x in u ==> x in s
    ensures |s| == |u|
  {
    var v := set x | x in s;
    assert v == u;
    DistinctCard(s);
  }

  class PairMatchPuzzle {
    var cards: seq<Card>
    var flipped: seq<nat>
    var matchedPairs: seq<string>
    var locked: bool
    var progress: nat
    /** The `setTimeout` callback a second flip has scheduled, if any. */
    var pending: Option<Resolution>

    ghost predicate Valid()
      reads this
    {
      && |cards| == 2 * |Symbols|
      && (forall i :: 0 <= i < |cards| ==> cards[i].symbol in Symbols)
      && (forall s :: s in Symbols ==> |Positions(cards, s)| == 2)
      && PairsConsistent(cards, matchedPairs)
      && FlipsConsistent(cards, flipped)
      && (locked <==> |flipped| == 2)
      && (pending.Some? <==> locked)
      && (pending.Some? && pending.value.MatchDue? ==>
            var m := pending.value;
            m.first < |cards| && m.second < |cards| &&
            flipped == [m.first, m.second] && m.first != m.second &&
            cards[m.first].symbol == m.symbol && cards[m.second].symbol == m.symbol &&
            m.pairsBefore == |matchedPairs|)
      && (pending.Some? && pending.value.MismatchDue? ==>
            cards[flipped[0]].symbol != cards[flipped[1]].symbol)
      && progress == CappedPercent(|matchedPairs|, |Symbols|)
    }

    /** The mount effect with the shuffle abstracted: any arrangement that
        satisfies the deck invariant. */
    constructor (arrangement: seq<Card>)
      requires IsDeck(arrangement)
      ensures Valid()
      ensures cards == arrangement && flipped == [] && matchedPairs == []
      ensures !locked && progress == 0 && pending == None
    {
      cards := arrangement;
      flipped := [];
      matchedPairs := [];
      locked := false;
      progress := 0;
      pending := None;
    }

    /** `handleCardClick(index)`. */
    method FlipCard(index: nat) returns (report: Option<Report>)
      requires Valid()
      requires index < |cards|
      modifies this
      ensures Valid()
      ensures cards == old(cards) && matchedPairs == old(matchedPairs) && progress == old(progress)
      ensures old(locked || index in flipped || cards[index].matched) ==>
        flipped == old(flipped) && locked == old(locked) && pending == old(pending) && report == None
      ensures !old(locked || index in flipped || cards[index].matched) ==>
        && flipped == old(flipped) + [index]
        && locked == (|flipped| == 2)
        && report == (if |flipped| == 1 then Some(Report(Slice(ProgressFacts, |matchedPairs|), Tag)) else None)
        && pending == (if |flipped| < 2 then None
                       else if cards[flipped[0]].symbol == cards[flipped[1]].symbol
                       then Some(MatchDue(flipped[0], flipped[1], cards[flipped[0]].symbol, |matchedPairs|))
                       else Some(MismatchDue))
    {
      report := None;
      if locked || index in flipped || cards[index].matched {
        return;
      }
      var newFlipped := flipped + [index];
      DistinctAppend(flipped, index);
      flipped := newFlipped;
      if |newFlipped| == 1 {
        report := Some(Report(Slice(ProgressFacts, |matchedPairs|), Tag));
      }
      if |newFlipped| == 2 {
        locked := true;
        var firstIndex, secondIndex := newFlipped[0], newFlipped[1];
        if cards[firstIndex].symbol == cards[secondIndex].symbol {
          pending := Some(MatchDue(firstIndex, secondIndex, cards[firstIndex].symbol, |matchedPairs|));
        } else {
          pending := Some(MismatchDue);
        }
      }
    }

    /** The deferred match callback: both cards become matched, the symbol
        joins `matchedPairs`, the turn ends and progress and facts advance. */
    method ResolveMatch() returns (report: Report)
      requires Valid()
      requires pending.Some? && pending.value.MatchDue?
      modifies this
      ensures Valid()
      ensures var m := old(pending).value;
        && cards == old(cards)[m.first := old(cards)[m.first].(matched := true)]
                              [m.second := old(cards)[m.second].(matched := true)]
        && matchedPairs == old(matchedPairs) + [m.symbol]
        && flipped == [] && !locked && pending == None
        && progress == CappedPercent(m.pairsBefore + 1, |Symbols|)
        && report == Report(Slice(ProgressFacts, m.pairsBefore + 1), Tag)
      ensures forall i :: 0 <= i < |cards| ==> (old(cards)[i].matched ==> cards[i].matched)
      ensures |matchedPairs| == old(|matchedPairs|) + 1
    {
      var m := pending.value;
      var oldCards := cards;
      assert flipped[0] == m.first && !oldCards[flipped[0]].matched;
      cards := cards[m.first := cards[m.first].(matched := true)];
      cards := cards[m.second := cards[m.second].(matched := true)];
      MatchKeepsPairs(oldCards, matchedPairs, m.first, m.second, m.symbol);
      matchedPairs := matchedPairs + [m.symbol];
      flipped := [];
      locked := false;
      pending := None;
      progress := CappedPercent(m.pairsBefore + 1, |Symbols|);
      report := Report(Slice(ProgressFacts, m.pairsBefore + 1), Tag);
    }

    /** The deferred mismatch callback: the turn ends, nothing is matched. */
    method ResolveMismatch()
      requires Valid()
      requires pending == Some(MismatchDue)
      modifies this
      ensures Valid()
      ensures cards == old(cards) && matchedPairs == old(matchedPairs) && progress == old(progress)
      ensures flipped == [] && !locked && pending == None
    {
      flipped := [];
      locked := false;
      pending := None;
    }
  }

  /** Marking the two cards of a matching pair keeps cards and pairs consistent:
      they are the only cards with that symbol, and it was not yet matched. */
  lemma MatchKeepsPairs(cards: seq<Card>, matchedPairs: seq<string>, i: nat, j: nat, s: string)
    requires PairsConsistent(cards, matchedPairs)
    requires forall s :: s in Symbols ==> |Positions(cards, s)| == 2
    requires i < |cards| && j < |cards| && i != j
    requires cards[i].symbol == s && cards[j].symbol == s && !cards[i].matched
    requires s in Symbols
    ensures var c := cards[i := cards[i].(matched := true)][j := cards[j].(matched := true)];
      && PairsConsistent(c, matchedPairs + [s])
      && (forall t :: Positions(c, t) == Positions(cards, t))
  {
    var c := cards[i := cards[i].(matched := true)][j := cards[j].(matched := true)];
    assert s !in matchedPairs;
    DistinctAppend(matchedPairs, s);
    var ps := Positions(cards, s);
    assert {i, j} <= ps;
    assert ps == {i, j} by {
      assert |ps - {i, j}| == |ps| - |{i, j}|;
    }
    forall k | 0 <= k < |c| ensures c[k].matched <==> c[k].symbol in matchedPairs + [s] {
      if cards[k].symbol == s {
        assert k in ps;
      }
    }
    forall t ensures Positions(c, t) == Positions(cards, t) {
      assert forall k :: 0 <= k < |c| ==> c[k].symbol == cards[k].symbol;
    }
  }
}
