/**
 * The two earlier revisions of the scoring sheet. Both keep the cell text as a
 * plain string rebuilt whenever the stored value changes, and accept typed text
 * without stripping zeros. The oldest one also labels its columns with the first
 * three letters of each name, and lays its columns out by score row rather
 * than by player.
 */
module LegacyScoring {
  import opened Primitives
  import opened ScoreEntries
  import opened Players
  import opened Scoring

  /** The earlier `onValueChange` filter: empty or `Int` text is taken as typed. */
  function LegacyFilterEdit(raw: string): (r: Edit)
    ensures r.Accepted? <==> raw == [] || ParseInt(raw).Some?
    ensures r.Accepted? ==> r.text == raw && r.value == ParseOrZero(raw)
  {
    if raw == [] || ParseInt(raw).Some? then Accepted(raw, ParseOrZero(raw)) else Rejected
  }

  /** Whatever the earlier filter takes, the current one takes too, and reports the same value. */
  lemma LegacyAcceptedIsAccepted(raw: string)
    requires LegacyFilterEdit(raw).Accepted?
    ensures FilterEdit(raw).Accepted? && FilterEdit(raw).value == LegacyFilterEdit(raw).value
  {
    var t := TrimLeadingZeros(raw);
    if raw == [] {
    } else if raw[0] == '-' || raw[0] == '+' {
      assert t == raw;
    } else {
      assert AllDigits(raw) && ParseInt(raw) == Some(DigitsValue(raw));
      TrimKeepsDigitsValue(raw);
      if t == [] {
        assert DigitsValue(raw) == 0;
      } else {
        assert IsDigit(t[0]);
        assert ParseInt(t) == Some(DigitsValue(t));
      }
    }
  }

  /** The converse fails: zeros in front of a sign are stripped now, and were refused before. */
  lemma SignAfterZeroDiffers()
    ensures LegacyFilterEdit("0+5").Rejected?
    ensures FilterEdit("0+5") == Accepted("+5", 5)
  {
    assert TrimLeadingZeros("0+5") == "+5" by { assert "0+5"[1..] == "+5"; }
    assert "+5"[1..] == "5";
    assert DigitsValue("5") == 5;
  }

  /** Zeros in front are kept as typed by the earlier filter and stripped by the current one. */
  lemma ZeroKeptOnlyByLegacy()
    ensures LegacyFilterEdit("05") == Accepted("05", 5)
    ensures FilterEdit("05") == Accepted("5", 5)
  {
    assert TrimLeadingZeros("05") == "5" by { assert "05"[1..] == "5"; }
    assert DigitsValue("05") == 5 by { assert "05"[..1] == "0"; }
  }

  /** A cell of the earlier revisions: `remember(value)` keeps the text until the value changes. */
  class LegacyScoreCell {
    var key: Int32
    var text: string

    constructor (value: Int32)
      ensures key == value && text == Display(value)
    {
      key, text := value, Display(value);
    }

    /** Composition with a stored value: a different value rebuilds the text, the same one keeps it. */
    method Recompose(value: Int32)
      modifies this
      ensures key == value
      ensures value == old(key) ==> text == old(text)
      ensures value != old(key) ==> text == Display(value)
      ensures value != old(key) ==> ParseOrZero(text) == value
    {
      if value != key {
        key, text := value, Display(value);
      }
    }

    /** An accepted edit replaces the text and reports its value; a refused one changes nothing. */
    method OnValueChange(raw: string) returns (reported: Option<Int32>)
      modifies this`text
      ensures LegacyFilterEdit(raw).Rejected? ==> reported == None && text == old(text)
      ensures LegacyFilterEdit(raw).Accepted? ==> reported == Some(ParseOrZero(raw)) && text == raw
    {
      if raw == [] || ParseInt(raw).Some? {
        text := raw;
        reported := Some(ParseOrZero(raw));
      } else {
        reported := None;
      }
    }
  }

  // ---------------------------------------------------------------------------
  // The oldest sheet

  /** The sheet's category rows in the oldest revision, top to bottom. */
  const OldestOrder: seq<string> := ["io", "europa", "ganymede", "callisto", "tech", "achievements", "assistants"]

  /** `take(3).uppercase()`: the column label of a player. */
  function Abbreviation(name: string): (r: string)
    ensures |r| <= 3
    ensures |r| == if |name| < 3 then |name| else 3
    ensures forall i | 0 <= i < |r| :: r[i] == UpperChar(name[i])
  {
    Uppercase(Take(name, 3))
  }

  /**
   * Names that the store treats as the same name (NOCASE) get the same label,
   * and a label is its own label.
   */
  lemma AbbreviationRespectsNoCase(a: string, b: string)
    requires NameEquals(a, b)
    ensures Abbreviation(a) == Abbreviation(b)
    ensures Abbreviation(Abbreviation(a)) == Abbreviation(a)
  {
    forall i | 0 <= i < |Abbreviation(a)| ensures Abbreviation(a)[i] == Abbreviation(b)[i] {
      assert FoldCase(a[i]) == FoldCase(b[i]);
    }
  }

  datatype OldestSheet = OldestSheet(labels: seq<string>, columns: seq<seq<Int32>>, totals: seq<string>)

  /**
   * The labels come from the player list, but the input columns and the totals come
   * from the score rows, one per row and in row order.
   */
  function OldestLayout(scores: seq<ScoreEntry>, players: seq<Player>): (r: OldestSheet)
    ensures |r.labels| == |players|
    ensures forall k | 0 <= k < |players| :: r.labels[k] == Abbreviation(players[k].name)
    ensures |r.columns| == |scores| && |r.totals| == |scores|
    ensures forall k | 0 <= k < |scores| :: |r.columns[k]| == |OldestOrder|
    ensures forall k, c | 0 <= k < |scores| && 0 <= c < |OldestOrder| :: r.columns[k][c] == GetVal(scores[k], OldestOrder[c])
    ensures forall k | 0 <= k < |scores| :: ParseInt(r.totals[k]) == Some(scores[k].Total())
  {
    OldestSheet(
      seq(|players|, k requires 0 <= k < |players| => Abbreviation(players[k].name)),
      seq(|scores|, k requires 0 <= k < |scores| =>
        seq(|OldestOrder|, c requires 0 <= c < |OldestOrder| => GetVal(scores[k], OldestOrder[c]))),
      seq(|scores|, k requires 0 <= k < |scores| => TotalText(scores[k])))
  }

  function TotalText(e: ScoreEntry): (t: string)
    ensures ParseInt(t) == Some(e.Total())
  {
    IntToStringRoundTrip(e.Total());
    IntToString(e.Total())
  }

  /** The columns do not depend on the players at all: a reordered player list leaves them as they are. */
  lemma ColumnsFollowScores(scores: seq<ScoreEntry>, players: seq<Player>, others: seq<Player>)
    ensures OldestLayout(scores, players).columns == OldestLayout(scores, others).columns
    ensures OldestLayout(scores, players).totals == OldestLayout(scores, others).totals
  {
  }

  /** Both orders show the same seven categories. */
  lemma OldestOrderIsPermutation()
    ensures multiset(OldestOrder) == multiset(SheetOrder)
    ensures forall t :: t in OldestOrder <==> t in Tags
  {
    assert OldestOrder == SheetOrder[..4] + SheetOrder[5..] + [SheetOrder[4]];
  }
}
