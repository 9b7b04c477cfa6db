/**
 * The outcome shown on each card of the history list: the highest total, the
 * rows that reach it, whether the game counts as invalid ("Unknown") and
 * whether it is a draw. Both revisions of the history screen compute it the
 * same way.
 */
module Outcomes {
  import opened Primitives
  import opened Seqs
  import opened ScoreEntries
  import opened Players
  import opened Games

  /** `maxOfOrNull { it.score.total }`: null for an empty list, else the largest total. */
  function MaxTotal(s: seq<ScoreWithPlayer>): (r: Option<Int32>)
    ensures r.None? <==> s == []
    ensures r.Some? ==> exists i | 0 <= i < |s| :: s[i].score.Total() == r.value
    ensures r.Some? ==> forall i | 0 <= i < |s| :: s[i].score.Total() <= r.value
  {
    if s == [] then None
    else
      var t := s[0].score.Total();
      match MaxTotal(s[1..])
      case None => Some(t)
      case Some(m) =>
        assert forall i | 1 <= i < |s| :: s[i] == s[1..][i - 1];
        if t >= m then Some(t) else Some(m)
  }

  datatype Outcome = Outcome(maxScore: Int32, winners: seq<ScoreWithPlayer>, isInvalidGame: bool, isDraw: bool)

  /** A row whose total no other row exceeds. */
  predicate IsTop(s: seq<ScoreWithPlayer>, x: ScoreWithPlayer)
  {
    x in s && forall y | y in s :: y.score.Total() <= x.score.Total()
  }

  /** The four values the history card is drawn from. */
  function GameOutcome(s: seq<ScoreWithPlayer>): (o: Outcome)
    ensures forall x :: x in o.winners <==> IsTop(s, x)
    ensures IsSubsequence(o.winners, s)
    ensures s == [] ==> o.maxScore == 0 && o.winners == []
    ensures s != [] ==> forall x | x in s :: x.score.Total() <= o.maxScore
    ensures s != [] ==> exists i | 0 <= i < |s| :: s[i].score.Total() == o.maxScore
    ensures forall x | x in o.winners :: x.score.Total() == o.maxScore
  {
    var maxScore := match MaxTotal(s) case None => 0 case Some(m) => m;
    var winners := Filter(s, (x: ScoreWithPlayer) => x.score.Total() == maxScore);
    FilterIsSubsequence(s, (x: ScoreWithPlayer) => x.score.Total() == maxScore);
    assert forall x | IsTop(s, x) :: x.score.Total() == maxScore by {
      forall x | IsTop(s, x) ensures x.score.Total() == maxScore {
        var i :| 0 <= i < |s| && s[i].score.Total() == maxScore;
        assert s[i] in s;
        var k :| 0 <= k < |s| && s[k] == x;
      }
    }
    Outcome(maxScore, winners, maxScore == 0 || winners == [], |winners| > 1)
  }

  /** With no rows the maximum falls back to 0, so the game is invalid. */
  lemma EmptyIsInvalid()
    ensures GameOutcome([]).maxScore == 0 && GameOutcome([]).isInvalidGame && !GameOutcome([]).isDraw
  {
  }

  /** With rows, someone always reaches the maximum, so validity turns on the maximum alone. */
  lemma NonEmptyHasWinners(s: seq<ScoreWithPlayer>)
    requires s != []
    ensures GameOutcome(s).winners != []
    ensures GameOutcome(s).isInvalidGame <==> GameOutcome(s).maxScore == 0
  {
    var o := GameOutcome(s);
    var i :| 0 <= i < |s| && s[i].score.Total() == o.maxScore;
    assert forall y | y in s :: y.score.Total() <= o.maxScore;
    assert s[i] in s;
    assert IsTop(s, s[i]);
    assert s[i] in o.winners;
  }

  /** If every total is 0 the game is invalid although every row is a winner. */
  lemma AllZeroIsInvalid(s: seq<ScoreWithPlayer>)
    requires s != []
    requires forall x | x in s :: x.score.Total() == 0
    ensures GameOutcome(s).isInvalidGame
    ensures GameOutcome(s).winners == s
  {
    FilterAll(s, (x: ScoreWithPlayer) => x.score.Total() == GameOutcome(s).maxScore);
  }

  /** When no total is negative, the game is invalid exactly when every total is 0. */
  lemma InvalidIffAllZero(s: seq<ScoreWithPlayer>)
    requires forall x | x in s :: x.score.Total() >= 0
    ensures GameOutcome(s).isInvalidGame <==> forall x | x in s :: x.score.Total() == 0
  {
    if s != [] {
      NonEmptyHasWinners(s);
    }
  }

  /** A draw is two different rows reaching the maximum. */
  lemma DrawIffTwoTop(s: seq<ScoreWithPlayer>)
    ensures GameOutcome(s).isDraw <==>
      exists i, j | 0 <= i < j < |s| :: s[i].score.Total() == GameOutcome(s).maxScore
                                      && s[j].score.Total() == GameOutcome(s).maxScore
  {
    FilterHasTwo(s, (x: ScoreWithPlayer) => x.score.Total() == GameOutcome(s).maxScore);
  }

  // ---------------------------------------------------------------------------
  // The card's headline

  datatype Headline =
    | Unknown
    | Draw(names: seq<string>)                 // joined with ", " on the card
    | Winner(name: string, points: Int32)

  /** The warning, the winners' names, or the one winner (`winners.first()`) with their points. */
  function CardHeadline(s: seq<ScoreWithPlayer>): (h: Headline)
    ensures h.Unknown? <==> GameOutcome(s).isInvalidGame
    ensures h.Draw? ==> |h.names| == |GameOutcome(s).winners| > 1
    ensures h.Draw? ==> forall k | 0 <= k < |h.names| :: h.names[k] == GameOutcome(s).winners[k].player.name
    ensures h.Winner? ==> exists x | IsTop(s, x) :: h.name == x.player.name && h.points == x.score.Total()
    ensures h.Winner? ==> h.points != 0 && |GameOutcome(s).winners| == 1
  {
    var o := GameOutcome(s);
    if o.isInvalidGame then Unknown
    else if o.isDraw then Draw(seq(|o.winners|, k requires 0 <= k < |o.winners| => o.winners[k].player.name))
    else
      assert o.winners[0] in o.winners;
      Winner(o.winners[0].player.name, o.winners[0].score.Total())
  }

  /** When the card names a single winner, no other row reaches the top total. */
  lemma WinnerIsUnique(s: seq<ScoreWithPlayer>, i: nat)
    requires !GameOutcome(s).isInvalidGame && !GameOutcome(s).isDraw
    requires i < |s| && s[i].score.Total() == GameOutcome(s).maxScore
    ensures GameOutcome(s).winners == [s[i]]
    ensures forall j | 0 <= j < |s| && j != i :: s[j].score.Total() < GameOutcome(s).maxScore
  {
    var o := GameOutcome(s);
    var m := o.maxScore;
    assert s[i] in s;
    assert IsTop(s, s[i]);
    assert s[i] in o.winners;
    forall j | 0 <= j < |s| && j != i ensures s[j].score.Total() < m {
      assert s[j] in s;
      if s[j].score.Total() == m {
        if i < j { TwoTopIsDraw(s, i, j); } else { TwoTopIsDraw(s, j, i); }
      }
    }
  }

  lemma TwoTopIsDraw(s: seq<ScoreWithPlayer>, a: nat, b: nat)
    requires a < b < |s|
    requires s[a].score.Total() == GameOutcome(s).maxScore && s[b].score.Total() == GameOutcome(s).maxScore
    ensures GameOutcome(s).isDraw
  {
    DrawIffTwoTop(s);
  }

  // ---------------------------------------------------------------------------
  // The detail view

  /** Tapping a card opens the scoring sheet on the game's rows and their players, in row order. */
  function DetailColumns(s: seq<ScoreWithPlayer>): (r: (seq<ScoreEntry>, seq<Player>))
    ensures |r.0| == |s| && |r.1| == |s|
    ensures forall k | 0 <= k < |s| :: ScoreWithPlayer(r.0[k], r.1[k]) == s[k]
  {
    (seq(|s|, k requires 0 <= k < |s| => s[k].score), seq(|s|, k requires 0 <= k < |s| => s[k].player))
  }
}
