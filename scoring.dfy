/**
 * The scoring sheet of the current screen revision: how a score row is read
 * cell by cell, what a cell shows, which typed text a cell accepts and what
 * value it then reports, how a cell falls back to the stored value, how the
 * rows are matched to the players, and when the game may be finished.
 */
module Scoring {
  import opened Primitives
  import opened Seqs
  import opened ScoreEntries
  import opened Players
  import opened Games
  import opened Outcomes

  /** The seven category tags. */
  const Tags: set<string> := {"io", "europa", "ganymede", "callisto", "tech", "achievements", "assistants"}

  /** The sheet's category rows, top to bottom. */
  const SheetOrder: seq<string> := ["io", "europa", "ganymede", "callisto", "assistants", "tech", "achievements"]

  /** `getVal`: the field a tag names, 0 for any other tag. */
  function GetVal(e: ScoreEntry, tag: string): (v: Int32)
    ensures tag !in Tags ==> v == 0
  {
    if tag == "io" then e.io
    else if tag == "europa" then e.europa
    else if tag == "ganymede" then e.ganymede
    else if tag == "callisto" then e.callisto
    else if tag == "tech" then e.technologies
    else if tag == "achievements" then e.achievements
    else if tag == "assistants" then e.assistants
    else 0
  }

  /** The sum of the cells that the given rows show. */
  function CellSum(e: ScoreEntry, tags: seq<string>): int
  {
    if tags == [] then 0 else GetVal(e, tags[0]) + CellSum(e, tags[1..])
  }

  /** The sheet shows every category exactly once. */
  lemma SheetShowsEveryCategory()
    ensures |SheetOrder| == |Tags|
    ensures forall t :: t in SheetOrder <==> t in Tags
    ensures forall i, j | 0 <= i < j < |SheetOrder| :: SheetOrder[i] != SheetOrder[j]
  {
  }

  /** The cells of a line add up to the row's sum, which its total shows when it does not wrap. */
  lemma CellsAddUpToSum(e: ScoreEntry)
    ensures CellSum(e, SheetOrder) == e.Sum()
  {
    var s := SheetOrder;
    assert s[6..][1..] == [];
    assert CellSum(e, s[6..]) == e.achievements;
    assert s[5..][1..] == s[6..];
    assert CellSum(e, s[5..]) == e.technologies + e.achievements;
    assert s[4..][1..] == s[5..];
    assert CellSum(e, s[4..]) == e.assistants + e.technologies + e.achievements;
    assert s[3..][1..] == s[4..];
    assert CellSum(e, s[3..]) == e.callisto + e.assistants + e.technologies + e.achievements;
    assert s[2..][1..] == s[3..];
    assert CellSum(e, s[2..]) == e.ganymede + e.callisto + e.assistants + e.technologies + e.achievements;
    assert s[1..][1..] == s[2..];
    assert CellSum(e, s[1..]) == e.europa + e.ganymede + e.callisto + e.assistants + e.technologies + e.achievements;
  }

  /** Two rows with the same keys that agree on every cell are the same row. */
  lemma RowDeterminedByCells(e: ScoreEntry, f: ScoreEntry)
    requires e.id == f.id && e.gameId == f.gameId && e.playerId == f.playerId
    requires forall t | t in Tags :: GetVal(e, t) == GetVal(f, t)
    ensures e == f
  {
    assert GetVal(e, "io") == GetVal(f, "io");
    assert GetVal(e, "europa") == GetVal(f, "europa");
    assert GetVal(e, "ganymede") == GetVal(f, "ganymede");
    assert GetVal(e, "callisto") == GetVal(f, "callisto");
    assert GetVal(e, "tech") == GetVal(f, "tech");
    assert GetVal(e, "achievements") == GetVal(f, "achievements");
    assert GetVal(e, "assistants") == GetVal(f, "assistants");
  }

  // ---------------------------------------------------------------------------
  // Text of a cell

  /** `toIntOrNull() ?: 0`. */
  function ParseOrZero(text: string): Int32
  {
    match ParseInt(text)
    case None => 0
    case Some(v) => v
  }

  /** What a cell shows for a value: nothing for 0, else the decimal digits. */
  function Display(v: Int32): (t: string)
    ensures t == [] <==> v == 0
    ensures ParseOrZero(t) == v
    ensures t == [] || t[0] != '0'
  {
    if v == 0 then ""
    else
      IntToStringRoundTrip(v);
      IntToStringNoLeadingZero(v);
      IntToString(v)
  }

  datatype Edit = Rejected | Accepted(text: string, value: Int32)

  /** The `onValueChange` filter: strip leading zeros, then take empty or `Int` text. */
  function FilterEdit(raw: string): (r: Edit)
    ensures r.Accepted? <==> TrimLeadingZeros(raw) == [] || ParseInt(TrimLeadingZeros(raw)).Some?
    ensures r.Accepted? ==> r.text == TrimLeadingZeros(raw) && r.value == ParseOrZero(r.text)
    ensures r.Accepted? ==> r.text == [] || r.text[0] != '0'
    ensures r.Accepted? ==> raw[|raw| - |r.text|..] == r.text && forall i | 0 <= i < |raw| - |r.text| :: raw[i] == '0'
  {
    var text := TrimLeadingZeros(raw);
    if text == [] || ParseInt(text).Some? then Accepted(text, ParseOrZero(text)) else Rejected
  }

  /** Re-entering what a cell shows for `v` is accepted as it stands and reports `v`, negative values included. */
  lemma DisplayIsAccepted(v: Int32)
    ensures FilterEdit(Display(v)) == Accepted(Display(v), v)
  {
  }

  /** An accepted text is a fixed point of the filter. */
  lemma FilterIsIdempotent(raw: string)
    requires FilterEdit(raw).Accepted?
    ensures FilterEdit(FilterEdit(raw).text) == FilterEdit(raw)
  {
  }

  /** A zero typed in front changes nothing: not the text kept, not the value reported. */
  lemma LeadingZeroIgnored(raw: string)
    ensures FilterEdit("0" + raw) == FilterEdit(raw)
  {
    assert ("0" + raw)[1..] == raw;
  }

  /** Plain digits whose value fits in `Int` are accepted and report that value. */
  lemma DigitsAreAccepted(raw: string)
    requires AllDigits(raw) && DigitsValue(raw) <= MaxInt32
    ensures FilterEdit(raw).Accepted? && FilterEdit(raw).value == DigitsValue(raw)
  {
    TrimKeepsDigitsValue(raw);
    var t := TrimLeadingZeros(raw);
    assert AllDigits(t) && DigitsValue(t) == DigitsValue(raw);
    if t != [] {
      assert IsDigit(t[0]) && t[0] != '-' && t[0] != '+';
      assert ParseInt(t) == Some(DigitsValue(t));
    }
    assert FilterEdit(raw) == Accepted(t, ParseOrZero(t));
  }

  /** Accepted text is empty, or a sign or digit followed by digits only. */
  lemma AcceptedTextShape(raw: string)
    requires FilterEdit(raw).Accepted?
    ensures var t := FilterEdit(raw).text;
      t == [] || ((IsDigit(t[0]) || t[0] == '-' || t[0] == '+') && forall j | 0 < j < |t| :: IsDigit(t[j]))
  {
    var t := FilterEdit(raw).text;
    if t != [] && (t[0] == '-' || t[0] == '+') {
      assert forall j | 0 < j < |t| :: t[j] == t[1..][j - 1];
    }
  }

  // ---------------------------------------------------------------------------
  // The cell's text field

  /** Compose's `TextFieldValue`: the text and the selection range. */
  datatype TextFieldValue = TextFieldValue(text: string, selectionStart: int, selectionEnd: int)

  function Clamp(x: int, hi: nat): (r: nat)
    ensures r <= hi
    ensures 0 <= x <= hi ==> r == x
  {
    if x < 0 then 0 else if x > hi then hi else x
  }

  /** `copy(text = ...)`: the new text with the selection kept, constrained to the text. */
  function WithText(f: TextFieldValue, text: string): (r: TextFieldValue)
    ensures r.text == text
    ensures 0 <= r.selectionStart <= |text| && 0 <= r.selectionEnd <= |text|
    ensures 0 <= f.selectionStart <= |text| ==> r.selectionStart == f.selectionStart
    ensures 0 <= f.selectionEnd <= |text| ==> r.selectionEnd == f.selectionEnd
  {
    TextFieldValue(text, Clamp(f.selectionStart, |text|), Clamp(f.selectionEnd, |text|))
  }

  /** One input cell of the sheet, holding its own text between recompositions. */
  class ScoreInputCell {
    var field: TextFieldValue

    /** The first composition shows the value with the cursor at the start. */
    constructor (value: Int32)
      ensures field == TextFieldValue(Display(value), 0, 0)
      ensures ParseOrZero(field.text) == value
    {
      field := TextFieldValue(Display(value), 0, 0);
    }

    /**
     * The user's edit: accepted text (after stripping zeros) replaces the field and its
     * value is reported; rejected text leaves the field as it was and reports nothing.
     */
    method OnValueChange(newValue: TextFieldValue) returns (reported: Option<Int32>)
      modifies this
      ensures FilterEdit(newValue.text).Rejected? ==> reported == None && field == old(field)
      ensures FilterEdit(newValue.text).Accepted? ==>
        reported == Some(FilterEdit(newValue.text).value) && field == WithText(newValue, FilterEdit(newValue.text).text)
      ensures reported.Some? ==> ParseOrZero(field.text) == reported.value
    {
      var edit := FilterEdit(newValue.text);
      if edit.Accepted? {
        field := WithText(newValue, edit.text);
        reported := Some(edit.value);
      } else {
        reported := None;
      }
    }

    /**
     * The delayed check against the stored value: text that does not read as the value
     * is replaced by the value's display text with the cursor at its end.
     */
    method Resync(value: Int32)
      modifies this
      ensures ParseOrZero(field.text) == value
      ensures ParseOrZero(old(field.text)) == value ==> field == old(field)
      ensures ParseOrZero(old(field.text)) != value ==>
        field == TextFieldValue(Display(value), |Display(value)|, |Display(value)|)
    {
      if ParseOrZero(field.text) != value {
        var newText := Display(value);
        field := TextFieldValue(newText, |newText|, |newText|);
      }
    }
  }

  // ---------------------------------------------------------------------------
  // Rows of the sheet

  /** `scores.find { it.playerId == playerId }`. */
  function FindEntry(scores: seq<ScoreEntry>, playerId: int): (r: Option<ScoreEntry>)
    ensures r.Some? ==> r.value.playerId == playerId
    ensures r.Some? ==> exists k | 0 <= k < |scores| :: scores[k] == r.value
                          && forall j | 0 <= j < k :: scores[j].playerId != playerId
    ensures r.None? <==> forall e | e in scores :: e.playerId != playerId
  {
    if scores == [] then None
    else if scores[0].playerId == playerId then Some(scores[0])
    else
      var r := FindEntry(scores[1..], playerId);
      assert forall e | e in scores :: e == scores[0] || e in scores[1..];
      assert r.Some? ==> exists k | 0 <= k < |scores| :: scores[k] == r.value
                           && forall j | 0 <= j < k :: scores[j].playerId != playerId by {
        if r.Some? {
          var k :| 0 <= k < |scores| - 1 && scores[1..][k] == r.value
                   && forall j | 0 <= j < k :: scores[1..][j].playerId != playerId;
          assert scores[k + 1] == r.value;
          assert forall j | 1 <= j < k + 1 :: scores[j] == scores[1..][j - 1];
        }
      }
      r
  }

  /** One player's line: their name, seven input cells if they have a row, and the total text. */
  datatype PlayerLine = PlayerLine(name: string, cells: Option<seq<Int32>>, total: string)

  function SheetLine(scores: seq<ScoreEntry>, player: Player): (r: PlayerLine)
    ensures r.name == player.name
    ensures r.cells.None? <==> FindEntry(scores, player.id).None?
    ensures r.cells.Some? ==> |r.cells.value| == |SheetOrder|
    ensures r.cells.Some? ==> forall k | 0 <= k < |SheetOrder| ::
                                r.cells.value[k] == GetVal(FindEntry(scores, player.id).value, SheetOrder[k])
    ensures FindEntry(scores, player.id).None? ==> r.total == "0"
    ensures ParseInt(r.total) == Some(if FindEntry(scores, player.id).Some? then FindEntry(scores, player.id).value.Total() else 0)
  {
    match FindEntry(scores, player.id)
    case None => PlayerLine(player.name, None, "0")
    case Some(e) =>
      IntToStringRoundTrip(e.Total());
      PlayerLine(player.name,
                 Some(seq(|SheetOrder|, k requires 0 <= k < |SheetOrder| => GetVal(e, SheetOrder[k]))),
                 IntToString(e.Total()))
  }

  /** The sheet has one line per player, in the players' order. */
  function Sheet(scores: seq<ScoreEntry>, players: seq<Player>): (r: seq<PlayerLine>)
    ensures |r| == |players|
    ensures forall k | 0 <= k < |players| :: r[k] == SheetLine(scores, players[k])
  {
    seq(|players|, k requires 0 <= k < |players| => SheetLine(scores, players[k]))
  }

  /** In the history detail view each player's line shows that player's own row, when every player has one row. */
  lemma DetailLinesMatchRows(s: seq<ScoreWithPlayer>, k: nat)
    requires k < |s|
    requires forall i | 0 <= i < |s| :: s[i].player.id == s[i].score.playerId
    requires forall i, j | 0 <= i < j < |s| :: s[i].score.playerId != s[j].score.playerId
    ensures FindEntry(DetailColumns(s).0, DetailColumns(s).1[k].id) == Some(s[k].score)
  {
    var scores := DetailColumns(s).0;
    var r := FindEntry(scores, s[k].player.id);
    assert scores[k] in scores;
    var m :| 0 <= m < |scores| && scores[m] == r.value && forall j | 0 <= j < m :: scores[j].playerId != s[k].player.id;
    assert scores[m] == s[m].score;
  }

  // ---------------------------------------------------------------------------
  // Finishing

  /** The finish button's enable condition. */
  function CanFinish(isReadOnly: bool, scores: seq<ScoreEntry>): (r: bool)
    ensures isReadOnly ==> r
    ensures !isReadOnly ==> (r <==> scores != [] && forall e | e in scores :: e.Total() > 0)
  {
    isReadOnly || (scores != [] && forall e | e in scores :: e.Total() > 0)
  }

  /** A game that could be finished from its own rows is never shown as "Unknown" in the history. */
  lemma FinishableGameHasOutcome(s: seq<ScoreWithPlayer>)
    requires CanFinish(false, DetailColumns(s).0)
    ensures !GameOutcome(s).isInvalidGame
    ensures GameOutcome(s).maxScore > 0
  {
    var o := GameOutcome(s);
    NonEmptyHasWinners(s);
    var i :| 0 <= i < |s| && s[i].score.Total() == o.maxScore;
    assert DetailColumns(s).0[i] == s[i].score;
    assert DetailColumns(s).0[i] in DetailColumns(s).0;
  }
}
