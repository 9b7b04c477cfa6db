# Galileo Project score keeper, modelled in Dafny

Galileo Project score keeper is an Android app. It scores a board game for up to four players. The model covers its core:

- **Selection.** Players are picked into a selection (`togglePlayerSelection`). A toggle never takes it above four, and no other picking command grows it; the resume step loads one player per resolvable row of the stored game.
- **Scoring.** A game starts with one all-zero score row per selected player. Each of seven categories is entered through a text cell that filters what is typed. `updateScore` stores a value only when it lies inside that category's range.
- **Finishing.** A game is finished, or cancelled and deleted. An unfinished game is resumed at start-up.
- **History.** The history lists finished games, newest first. Each card shows the winner, a draw, or "Unknown" when nobody scored.
- **Storage.** Players are soft-deleted and restored, never removed.

The model has these parts:

| Dafny file | models |
|---|---|
| `primitives.dfy` (module `Primitives`) | the Kotlin pieces the sheet relies on: 32-bit `Int` with its wrap-around, `toIntOrNull`, `toString`, `trimStart('0')`, `take` and `uppercase` |
| `seqs.dfy` (module `Seqs`) | order-preserving `filter` and a stable sort: the meaning of `filter`, `WHERE` and `ORDER BY` |
| `score_entry.dfy`, `player.dfy` and `game.dfy` | the three entities as values, and the joined records `ScoreWithPlayer` and `GameHistory` |
| `store.dfy` (module `Store`) | the two DAOs as one in-memory database. It is a class with one `seq` per table and one AUTOINCREMENT counter per table. Queries are functions; the statements that change rows are methods. |
| `history.dfy` (module `Outcomes`) | the outcome rule of the history cards (both revisions of `HistoryScreen.kt` compute it identically) |
| `scoring.dfy` (module `Scoring`) | the current scoring sheet, including its input cell as a class holding its own text field |
| `legacy_scoring.dfy` (module `LegacyScoring`) | the two earlier sheets and their simpler input filter |
| `score_view_model.dfy` (module `Engine`) | the view model, as a class |
| `legacy_view_model.dfy` (module `LegacyEngine`) | the view model of the earlier `be.nilsbergs` package |

Inputs the model does not compute:
- **Clock.** The clock reading `System.currentTimeMillis()` is the `startTime` parameter of `StartNewGame`.
- **Foreign keys.** Whether SQLite enforces them is the `foreignKeys` parameter of the `Database` constructor. Room turns enforcement on for entities that declare foreign keys, but the generated code that does so is not part of this model. The model covers both settings.

Each command of the view model runs as one sequential step. Two things raise an exception inside a command: a `require` in `Player`'s constructor, or a foreign-key violation. Only the resume step catches exceptions (`ScoreViewModel.kt:103-128`), and no handler is installed for the other coroutines, so on Android an exception in any other command ends the app. The model abstracts that crash: the method returns `ok == false`, the statements after the failing one do not run, and the state reached so far is kept. What the crash loses (the in-memory selection, current game and history selection, with the next start running the resume step) is not modelled. The exception the resume step catches cannot happen there; `ResumeUnfinishedGame` proves this.

Behaviour of the source worth knowing:
- **No cascade.** The foreign keys in `data/ScoreEntry.kt:10-11` declare no `onDelete` action, so deleting a game does not delete its score rows.
  - With enforcement off, the rows stay behind, referring to a game that is gone.
  - With enforcement on, `DELETE` of a game that still has rows is refused, so `cancelGame` and `deleteHistoryGame` throw for every game with rows. In the model they return `ok == false` without clearing the current game or the history selection (`CancelGame`, `DeleteHistoryGame`); in the app the exception ends it.
- **History selection.** `deleteHistoryGame` clears the history selection whichever game was open, not only when the deleted game was the one shown.
- **Deleted players on resume.** The resume step joins the game's rows with every player, deleted ones included.

## Model

Source paths below are relative to the repository root.

| member | source | states |
|---|---|---|
| Primitives.Wrap32 | app/src/main/java/be/nilsberghs/galileoproject/data/ScoreEntry.kt:28 | inside `Int`'s range the exact value is kept; outside it the result differs from it by a multiple of 2^32 (two's-complement wrap) |
| Primitives.NatToDigits | app/src/main/java/be/nilsberghs/galileoproject/ui/screens/GameScoringScreen.kt:207 | the decimal digits of a natural number: ASCII digits whose value is the number, with no leading zero unless the number is 0 |
| Primitives.IntToStringRoundTrip | app/src/main/java/be/nilsberghs/galileoproject/ui/screens/GameScoringScreen.kt:207 | `toIntOrNull` reads every `Int.toString` back as the same value |
| Primitives.IntToStringNoLeadingZero | app/src/main/java/be/nilsberghs/galileoproject/ui/screens/GameScoringScreen.kt:334-338 | `toString` of a non-zero `Int` does not start with the digit 0 |
| Primitives.TrimLeadingZeros | app/src/main/java/be/nilsberghs/galileoproject/ui/screens/GameScoringScreen.kt:354 | the result is a suffix of the input; everything dropped is '0'; the result does not start with '0' |
| Primitives.DigitsValueLeadingZero | app/src/main/java/be/nilsberghs/galileoproject/ui/screens/GameScoringScreen.kt:354-358 | a zero in front of a digit string leaves its value unchanged |
| Primitives.TrimKeepsDigitsValue | app/src/main/java/be/nilsberghs/galileoproject/ui/screens/GameScoringScreen.kt:354-358 | trimming the zeros in front of a digit string leaves digits with the same value |
| Primitives.Take | app/src/main/java/be/nilsberghs/galileoproject/GameScoringScreen.kt:69 | `take(n)` is the prefix of length `min(n, length)` |
| Primitives.Uppercase | app/src/main/java/be/nilsberghs/galileoproject/GameScoringScreen.kt:69 | same length, each character upper-cased (ASCII letters only) |
| Seqs.Filter | app/src/main/java/be/nilsberghs/galileoproject/ScoreViewModel.kt:165 | only elements of the input that satisfy the predicate, and every such element |
| Seqs.FilterMultiset | app/src/main/java/be/nilsberghs/galileoproject/data/GameDao.kt:22-23 | every kept element occurs as often as in the input; every other occurs zero times |
| Seqs.FilterIsSubsequence | app/src/main/java/be/nilsberghs/galileoproject/data/GameDao.kt:22-23 | filtering keeps the input order |
| Seqs.FilterHasTwo | app/src/main/java/be/nilsberghs/galileoproject/ui/screens/HistoryScreen.kt:76-78 | more than one element of the input is kept exactly when two different positions satisfy the predicate |
| Seqs.SortBy | app/src/main/java/be/nilsberghs/galileoproject/data/PlayerDao.kt:13-14 | the sort is a permutation of its input |
| Seqs.SortedPairwise | app/src/main/java/be/nilsberghs/galileoproject/data/PlayerDao.kt:13-18 | for a total, transitive order, every pair of the sorted list is in order |
| ScoreEntries.ScoreEntry.Total | app/src/main/java/be/nilsberghs/galileoproject/data/ScoreEntry.kt:28 | `total` is the sum of the seven categories when it fits in `Int`, and wraps around otherwise |
| ScoreEntries.FreshEntryIsZero | app/src/main/java/be/nilsberghs/galileoproject/data/ScoreEntry.kt:14-25 | a row built from a game and a player alone has id 0, every category 0 and total 0 |
| ScoreEntries.TotalIgnoresKeys | app/src/main/java/be/nilsberghs/galileoproject/data/ScoreEntry.kt:28 | the total depends on the seven categories only, not on the id, game or player |
| Players.NewPlayer | app/src/main/java/be/nilsberghs/galileoproject/data/Player.kt:16-18 | construction succeeds exactly when the name has at most 25 characters; otherwise it fails with `IllegalArgumentException` and the source's message |
| Players.NewPlayerDefaults | app/src/main/java/be/nilsberghs/galileoproject/data/Player.kt:10-14 | a player built from a name alone has id 0 and is not deleted |
| Players.CopiesAreDistinct | app/src/main/java/be/nilsberghs/galileoproject/data/Player.kt:8 | equality is structural: a renamed copy, or one with its deleted flag flipped, is a different value (so toggling a renamed copy does not find the old one) |
| Players.NameAtMostTotal | app/src/main/java/be/nilsberghs/galileoproject/data/Player.kt:12 | any two names are ordered one way or the other under NOCASE |
| Players.NameAtMostTransitive | app/src/main/java/be/nilsberghs/galileoproject/data/Player.kt:12 | the NOCASE order is transitive |
| Players.NameEqualsIffBothWays | app/src/main/java/be/nilsberghs/galileoproject/data/Player.kt:12 | NOCASE equality holds exactly when two names are ordered both ways |
| Store.FirstWithId | app/src/main/java/be/nilsberghs/galileoproject/ScoreViewModel.kt:112-114 | `find { it.id == id }`: a member with that id, and nothing only when no member has it |
| Store.FirstWithIdUnique | app/src/main/java/be/nilsberghs/galileoproject/data/Player.kt:9-10 | under a primary key, the player found by id is the one stored under it |
| Store.SetDeleted | app/src/main/java/be/nilsberghs/galileoproject/data/PlayerDao.kt:24-28 | `UPDATE players SET isDeleted`: every row with the id gets the flag; ids, names and every other row stay as they were |
| Store.RestoreUndoesSoftDelete | app/src/main/java/be/nilsberghs/galileoproject/data/PlayerDao.kt:24-28 | a soft delete followed by a restore gives back the table exactly, when that player was present |
| Store.ReplacePlayer | app/src/main/java/be/nilsberghs/galileoproject/data/PlayerDao.kt:33-34 | `@Update`: rows with the player's id are replaced by it, all others kept, in place |
| Store.ReplaceScore | app/src/main/java/be/nilsberghs/galileoproject/data/GameDao.kt:19-20 | `@Update`: rows with the entry's id are replaced by it, all others kept, in place |
| Store.MarkFinished | app/src/main/java/be/nilsberghs/galileoproject/data/GameDao.kt:39-40 | rows with the id are marked finished, all others kept |
| Store.RemoveGame | app/src/main/java/be/nilsberghs/galileoproject/data/GameDao.kt:29-30 | exactly the rows with another id remain, in their order |
| Store.ListedBeforeIsOrder | app/src/main/java/be/nilsberghs/galileoproject/data/PlayerDao.kt:13 | `ORDER BY isDeleted, name` is a total, transitive order |
| Store.NameBeforeIsOrder | app/src/main/java/be/nilsberghs/galileoproject/data/PlayerDao.kt:17 | `ORDER BY name` under NOCASE is a total, transitive order |
| Store.LatestActive | app/src/main/java/be/nilsberghs/galileoproject/data/GameDao.kt:32-33 | none exactly when every game is finished; otherwise an unfinished game that no unfinished game started after |
| Store.JoinPlayers | app/src/main/java/be/nilsberghs/galileoproject/data/GameDao.kt:35-37 | only stored players that some row names, and every stored player that some row names |
| Store.JoinScores | app/src/main/java/be/nilsberghs/galileoproject/data/HistoryData.kt:16-23 | each output pairs a given row with its own stored player; there are at most as many outputs as rows |
| Store.JoinScoresKeepsEveryRow | app/src/main/java/be/nilsberghs/galileoproject/data/HistoryData.kt:16-23 | when every row's player is stored, the join is one pair per row, in row order |
| Store.RowsOfGame | app/src/main/java/be/nilsberghs/galileoproject/data/GameDao.kt:22-27 | `WHERE gameId = :gameId`: exactly the rows of that game, each as often as stored, in table order |
| Store.SubsequenceKeepsDistinct | app/src/main/java/be/nilsberghs/galileoproject/data/GameDao.kt:29-30 | deleting rows keeps the primary key unique |
| Store.KeepsPlayerIds | app/src/main/java/be/nilsberghs/galileoproject/data/PlayerDao.kt:24-34 | rewriting players in place keeps the id set, and so the primary key and every reference |
| Store.Database.constructor | app/src/main/java/be/nilsberghs/galileoproject/data/AppDatabase.kt:8-12 | an empty, consistent database with the given foreign-key setting |
| Store.Database.AllPlayers | app/src/main/java/be/nilsberghs/galileoproject/data/PlayerDao.kt:13-14 | a permutation of the table, ordered by `isDeleted, name`, so deleted players come last |
| Store.Database.ActivePlayers | app/src/main/java/be/nilsberghs/galileoproject/data/PlayerDao.kt:17-18 | exactly the non-deleted rows, each as often as stored, ordered by name |
| Store.Database.PlayerByName | app/src/main/java/be/nilsberghs/galileoproject/data/PlayerDao.kt:20-21 | a stored player whose name equals the given one under NOCASE, and none only when there is no such player |
| Store.Database.InsertPlayer | app/src/main/java/be/nilsberghs/galileoproject/data/PlayerDao.kt:30-31 | id 0 stores the player under the next AUTOINCREMENT id and returns it; a taken explicit id is ignored and returns -1; a free one is stored as given |
| Store.Database.UpdatePlayer | app/src/main/java/be/nilsberghs/galileoproject/data/PlayerDao.kt:33-34 | the players table becomes `ReplacePlayer` of the old one; nothing else changes |
| Store.Database.SoftDeletePlayer | app/src/main/java/be/nilsberghs/galileoproject/data/PlayerDao.kt:24-25 | the players table becomes `SetDeleted(…, true)` and stays consistent |
| Store.Database.RestorePlayer | app/src/main/java/be/nilsberghs/galileoproject/data/PlayerDao.kt:27-28 | the players table becomes `SetDeleted(…, false)` and stays consistent |
| Store.Database.InsertGame | app/src/main/java/be/nilsberghs/galileoproject/data/GameDao.kt:13-14 | id 0 appends the game under the next id and returns that id; a taken explicit id aborts with nothing changed |
| Store.Database.InsertScoreEntry | app/src/main/java/be/nilsberghs/galileoproject/data/GameDao.kt:16-17 | succeeds exactly when the references may be stored and the id is 0 or free; a generated id is the next one |
| Store.Database.UpdateScoreEntry | app/src/main/java/be/nilsberghs/galileoproject/data/GameDao.kt:19-20 | an update matching no row is a no-op; otherwise it fails exactly on an enforced missing reference, and on success replaces the row by id |
| Store.Database.ScoresForGame | app/src/main/java/be/nilsberghs/galileoproject/data/GameDao.kt:22-27 | exactly the stored rows of the game, in table order |
| Store.Database.DeleteGameById | app/src/main/java/be/nilsberghs/galileoproject/data/GameDao.kt:29-30 | fails exactly when foreign keys are enforced and the game exists with rows; otherwise every game with that id is removed and the score rows stay |
| Store.Database.LatestActiveGameId | app/src/main/java/be/nilsberghs/galileoproject/data/GameDao.kt:32-33 | null exactly when every game is finished; otherwise the id of an unfinished game |
| Store.Database.PlayersForGame | app/src/main/java/be/nilsberghs/galileoproject/data/GameDao.kt:35-37 | every stored player that a row of the game names, deleted or not, and no other |
| Store.Database.MarkGameFinished | app/src/main/java/be/nilsberghs/galileoproject/data/GameDao.kt:39-40 | the games table becomes `MarkFinished` of the old one and stays consistent |
| Store.Database.ScoresWithPlayers | app/src/main/java/be/nilsberghs/galileoproject/data/GameDao.kt:46-48 | stored rows of that game only, each with its own player; when every row's player is stored, every row of the game appears once, in row order |
| Store.EnforcedJoinIsComplete | app/src/main/java/be/nilsberghs/galileoproject/data/HistoryData.kt:16-23 | with enforced foreign keys, the join pairs every row of the game with its own player, in row order |
| Store.Database.FullHistory | app/src/main/java/be/nilsberghs/galileoproject/data/GameDao.kt:42-44 | exactly the finished games, newest start first, each with the joined rows of that game |
| Outcomes.MaxTotal | app/src/main/java/be/nilsberghs/galileoproject/ui/screens/HistoryScreen.kt:75 | null exactly for no rows; otherwise a total some row reaches and no row exceeds |
| Outcomes.GameOutcome | app/src/main/java/be/nilsberghs/galileoproject/ui/screens/HistoryScreen.kt:75-78 | the winners are exactly the top rows, in row order; the maximum is reached; with no rows the maximum is 0 and there are no winners |
| Outcomes.EmptyIsInvalid | app/src/main/java/be/nilsberghs/galileoproject/HistoryScreen.kt:78-81 | a game without rows is "Unknown" and not a draw |
| Outcomes.NonEmptyHasWinners | app/src/main/java/be/nilsberghs/galileoproject/ui/screens/HistoryScreen.kt:75-77 | with rows there is always a winner, so the `winners.isEmpty()` test never decides and a game is invalid exactly when its maximum is 0 |
| Outcomes.AllZeroIsInvalid | app/src/main/java/be/nilsberghs/galileoproject/ui/screens/HistoryScreen.kt:75-77 | when every total is 0, every row "wins" and the game is still "Unknown" |
| Outcomes.InvalidIffAllZero | app/src/main/java/be/nilsberghs/galileoproject/ui/screens/HistoryScreen.kt:75-77 | with no negative totals, a game is invalid exactly when every total is 0 |
| Outcomes.DrawIffTwoTop | app/src/main/java/be/nilsberghs/galileoproject/ui/screens/HistoryScreen.kt:76-78 | a draw is exactly two different rows reaching the maximum |
| Outcomes.CardHeadline | app/src/main/java/be/nilsberghs/galileoproject/ui/screens/HistoryScreen.kt:88-124 | "Unknown" exactly for an invalid game; a draw lists every winner's name in order; a single winner is a top row, named with a non-zero total |
| Outcomes.WinnerIsUnique | app/src/main/java/be/nilsberghs/galileoproject/HistoryScreen.kt:121 | when the card shows one winner, that row is the only winner and every other row scores strictly less |
| Outcomes.DetailColumns | app/src/main/java/be/nilsberghs/galileoproject/ui/screens/HistoryScreen.kt:53-60 | the detail sheet gets the rows and the players position by position, as joined |
| Scoring.GetVal | app/src/main/java/be/nilsberghs/galileoproject/ui/screens/GameScoringScreen.kt:379-388 | an unknown tag reads 0 |
| Scoring.SheetShowsEveryCategory | app/src/main/java/be/nilsberghs/galileoproject/ui/screens/GameScoringScreen.kt:122-130 | the sheet's seven rows are the seven categories, each exactly once |
| Scoring.CellsAddUpToSum | app/src/main/java/be/nilsberghs/galileoproject/ui/screens/GameScoringScreen.kt:190-207 | the cells of a line add up to the row's sum, which the total shows when it does not wrap |
| Scoring.RowDeterminedByCells | app/src/main/java/be/nilsberghs/galileoproject/ui/screens/GameScoringScreen.kt:379-388 | two rows with the same keys and the same value in every category are the same row |
| Scoring.Display | app/src/main/java/be/nilsberghs/galileoproject/ui/screens/GameScoringScreen.kt:334-338 | a cell shows nothing exactly for 0; what it shows parses back to the value and has no leading zero |
| Scoring.FilterEdit | app/src/main/java/be/nilsberghs/galileoproject/ui/screens/GameScoringScreen.kt:353-359 | typed text is accepted exactly when, with its zeros in front trimmed, it is empty or an `Int`; the kept text is that trimmed text and the value reported is its value |
| Scoring.DisplayIsAccepted | app/src/main/java/be/nilsberghs/galileoproject/ui/screens/GameScoringScreen.kt:334-359 | what a cell shows for a value, typed again, is accepted unchanged and reports that value |
| Scoring.FilterIsIdempotent | app/src/main/java/be/nilsberghs/galileoproject/ui/screens/GameScoringScreen.kt:353-359 | accepted text passes the filter again unchanged |
| Scoring.LeadingZeroIgnored | app/src/main/java/be/nilsberghs/galileoproject/ui/screens/GameScoringScreen.kt:354 | a zero typed in front changes neither what is kept nor what is reported |
| Scoring.DigitsAreAccepted | app/src/main/java/be/nilsberghs/galileoproject/ui/screens/GameScoringScreen.kt:353-359 | plain digits with a value in `Int` are accepted and report that value |
| Scoring.AcceptedTextShape | app/src/main/java/be/nilsberghs/galileoproject/ui/screens/GameScoringScreen.kt:353-359 | accepted text is empty, or a sign or digit followed by digits only |
| Scoring.WithText | app/src/main/java/be/nilsberghs/galileoproject/ui/screens/GameScoringScreen.kt:357 | `copy(text = …)`: the new text, with the selection kept where it fits and constrained to the text otherwise |
| Scoring.ScoreInputCell.constructor | app/src/main/java/be/nilsberghs/galileoproject/ui/screens/GameScoringScreen.kt:334-338 | the first composition shows the value with the cursor at the start |
| Scoring.ScoreInputCell.OnValueChange | app/src/main/java/be/nilsberghs/galileoproject/ui/screens/GameScoringScreen.kt:353-359 | a refused edit changes nothing and reports nothing; an accepted one keeps the trimmed text with the edit's selection and reports its value |
| Scoring.ScoreInputCell.Resync | app/src/main/java/be/nilsberghs/galileoproject/ui/screens/GameScoringScreen.kt:340-349 | the text always shows the stored value afterwards; it is rebuilt only when it did not already parse to that value |
| Scoring.FindEntry | app/src/main/java/be/nilsberghs/galileoproject/ui/screens/GameScoringScreen.kt:179 | the first row of that player, and none only when the player has no row |
| Scoring.SheetLine | app/src/main/java/be/nilsberghs/galileoproject/ui/screens/GameScoringScreen.kt:178-207 | a player's line shows seven cells exactly when they have a row, each cell that row's category in sheet order, and a total text that parses to its total ("0" without a row) |
| Scoring.Sheet | app/src/main/java/be/nilsberghs/galileoproject/ui/screens/GameScoringScreen.kt:178 | one line per player, in the players' order |
| Scoring.DetailLinesMatchRows | app/src/main/java/be/nilsberghs/galileoproject/ui/screens/HistoryScreen.kt:53-60 | in the history detail sheet each player's line shows that player's own row, when the players' rows are one each |
| Scoring.CanFinish | app/src/main/java/be/nilsberghs/galileoproject/ui/screens/GameScoringScreen.kt:136 | always allowed read-only; otherwise exactly when there are rows and every total is positive |
| Scoring.FinishableGameHasOutcome | app/src/main/java/be/nilsberghs/galileoproject/ui/screens/GameScoringScreen.kt:136 | a game its sheet lets finish gets a real winner or a draw in the history, never "Unknown" |
| LegacyScoring.LegacyFilterEdit | app/src/main/java/be/nilsberghs/galileoproject/ui/GameScoringScreen.kt:229-233 | the earlier filter accepts exactly empty or `Int` text, keeps it as typed and reports its value |
| LegacyScoring.LegacyAcceptedIsAccepted | app/src/main/java/be/nilsberghs/galileoproject/GameScoringScreen.kt:146-150 | whatever the earlier filter accepts, the current one accepts too with the same value |
| LegacyScoring.SignAfterZeroDiffers | app/src/main/java/be/nilsberghs/galileoproject/ui/GameScoringScreen.kt:229-233 | the converse fails: "0+5" is refused by the earlier filter and accepted as "+5" by the current one |
| LegacyScoring.ZeroKeptOnlyByLegacy | app/src/main/java/be/nilsberghs/galileoproject/ui/GameScoringScreen.kt:229-233 | "05" is kept as typed by the earlier filter and trimmed to "5" by the current one, both reporting 5 |
| LegacyScoring.LegacyScoreCell.constructor | app/src/main/java/be/nilsberghs/galileoproject/ui/GameScoringScreen.kt:225 | the cell starts showing the value's display text |
| LegacyScoring.LegacyScoreCell.Recompose | app/src/main/java/be/nilsberghs/galileoproject/ui/GameScoringScreen.kt:225 | `remember(value)`: a changed value rebuilds the text, an unchanged one keeps whatever was typed |
| LegacyScoring.LegacyScoreCell.OnValueChange | app/src/main/java/be/nilsberghs/galileoproject/GameScoringScreen.kt:146-150 | an accepted edit replaces the text and reports its value; a refused one changes nothing |
| LegacyScoring.Abbreviation | app/src/main/java/be/nilsberghs/galileoproject/GameScoringScreen.kt:69 | the label is the first three characters, upper-cased |
| LegacyScoring.AbbreviationRespectsNoCase | app/src/main/java/be/nilsberghs/galileoproject/GameScoringScreen.kt:69 | names equal under NOCASE get the same label, and a label's own label is itself |
| LegacyScoring.OldestLayout | app/src/main/java/be/nilsberghs/galileoproject/GameScoringScreen.kt:65-123 | labels come from the players, in their order; columns and totals come from the rows, one per row in row order, each total text parsing to that row's total |
| LegacyScoring.ColumnsFollowScores | app/src/main/java/be/nilsberghs/galileoproject/GameScoringScreen.kt:97-121 | the oldest sheet's columns and totals do not depend on the player list at all |
| LegacyScoring.OldestOrderIsPermutation | app/src/main/java/be/nilsberghs/galileoproject/GameScoringScreen.kt:50-58 | the oldest sheet shows the same seven categories as the current one, in another order |
| Engine.Toggle | app/src/main/java/be/nilsberghs/galileoproject/ScoreViewModel.kt:176-184 | a selected player leaves, one copy fewer; an unselected one is appended while fewer than four are selected; otherwise nothing changes |
| Engine.ToggleBound | app/src/main/java/be/nilsberghs/galileoproject/ScoreViewModel.kt:176-184 | toggling keeps a selection of at most four at most four |
| Engine.ToggleTwiceRestores | app/src/main/java/be/nilsberghs/galileoproject/ScoreViewModel.kt:176-184 | adding and then removing a player gives back the exact selection |
| Engine.ToggleKeepsDistinct | app/src/main/java/be/nilsberghs/galileoproject/ScoreViewModel.kt:176-184 | toggling never introduces a duplicate; the player is selected afterwards exactly when it was added |
| Engine.RemoveFirst | app/src/main/java/be/nilsberghs/galileoproject/ScoreViewModel.kt:179 | `remove` drops one occurrence and shifts the rest down; the list is unchanged when the element is absent |
| Engine.IndexOfFirstId | app/src/main/java/be/nilsberghs/galileoproject/ScoreViewModel.kt:155 | -1 exactly when no player has the id; otherwise the first position that has it |
| Engine.ResolvePlayers | app/src/main/java/be/nilsberghs/galileoproject/ScoreViewModel.kt:112-114 | at most one player per row, each from the list; one per row, in row order, when every row's player is in the list |
| Engine.ResolveSkipsUnresolved | app/src/main/java/be/nilsberghs/galileoproject/ScoreViewModel.kt:112-114 | `mapNotNull` drops exactly the rows without a player: the result is the players of the remaining rows, one per row, in row order |
| Engine.ResolveThroughJoin | app/src/main/java/be/nilsberghs/galileoproject/ScoreViewModel.kt:109-114 | resolving through the joined player list gives the same result as resolving through the players table |
| Engine.UpdatedEntry | app/src/main/java/be/nilsberghs/galileoproject/ScoreViewModel.kt:196-209 | an accepted value sets exactly that category and leaves the others and the keys; an out-of-range value or unknown category leaves the row as it was |
| Engine.UpdateShiftsSum | app/src/main/java/be/nilsberghs/galileoproject/ScoreViewModel.kt:198-209 | an update moves the row's sum by exactly the change in that category |
| Engine.LimitsBoundTotal | app/src/main/java/be/nilsberghs/galileoproject/ScoreViewModel.kt:198-209 | a row within the ranges has a total between 0 and 124, with no wrap-around |
| Engine.UpdateKeepsLimits | app/src/main/java/be/nilsberghs/galileoproject/ScoreViewModel.kt:198-209 | updates keep a row within the ranges, and a fresh row starts within them |
| Engine.NewRows | app/src/main/java/be/nilsberghs/galileoproject/ScoreViewModel.kt:188-190 | one all-zero row per player of the game, in order, with consecutive ids |
| Engine.NewGameOwnsNewRows | app/src/main/java/be/nilsberghs/galileoproject/ScoreViewModel.kt:186-194 | when every earlier row names an earlier game, the rows of a new game are exactly the rows inserted for it |
| Engine.ScoreViewModel.constructor | app/src/main/java/be/nilsberghs/galileoproject/ScoreViewModel.kt:36-53 | starts initialising, with nothing selected, no current game and no history game |
| Engine.ScoreViewModel.CurrentScores | app/src/main/java/be/nilsberghs/galileoproject/ScoreViewModel.kt:79-84 | nothing without a current game; otherwise that game's rows |
| Engine.ScoreViewModel.HistoryScores | app/src/main/java/be/nilsberghs/galileoproject/ScoreViewModel.kt:87-92 | nothing without a history game; otherwise the joined rows of that game, and stored rows of that game only |
| Engine.HistoryShowsEveryRow | app/src/main/java/be/nilsberghs/galileoproject/ScoreViewModel.kt:87-92 | with enforced foreign keys, the history detail shows every row of its game once, in row order, each with its own player |
| Engine.ScoreViewModel.HasAnyScores | app/src/main/java/be/nilsberghs/galileoproject/ScoreViewModel.kt:243-245 | some row of the current game has a positive total; never without a current game |
| Engine.FinishableHasScores | app/src/main/java/be/nilsberghs/galileoproject/ScoreViewModel.kt:243-245 | a game its sheet lets finish always has scores according to `hasAnyScores` |
| Engine.ScoreViewModel.ResumeUnfinishedGame | app/src/main/java/be/nilsberghs/galileoproject/ScoreViewModel.kt:102-130 | always ends initialising. No unfinished game changes nothing. Otherwise, the game's players in row order become the selection, at most one per row of the game, and the game becomes current; if none resolve, the game is deleted, which cannot fail there |
| Engine.ScoreViewModel.TogglePlayerSelection | app/src/main/java/be/nilsberghs/galileoproject/ScoreViewModel.kt:176-184 | the selection becomes `Toggle` of the old one, and nothing else changes; a selection of at most four stays at most four |
| Engine.ScoreViewModel.AddPlayerToDatabase | app/src/main/java/be/nilsberghs/galileoproject/ScoreViewModel.kt:139-147 | a name over 25 characters fails with nothing changed; otherwise the player is stored under the next id, which the player counter moves to, and that stored player is toggled into the selection; the games, the rows and their counters never change |
| Engine.ScoreViewModel.UpdatePlayerName | app/src/main/java/be/nilsberghs/galileoproject/ScoreViewModel.kt:149-161 | a name over 25 characters fails with nothing changed; otherwise the renamed copy replaces the stored row and the first selected player with that id; the selection keeps its length |
| Engine.ScoreViewModel.DeletePlayer | app/src/main/java/be/nilsberghs/galileoproject/ScoreViewModel.kt:163-168 | every selected player with that id leaves the selection, which never grows, and the row is soft-deleted |
| Engine.ScoreViewModel.RestorePlayer | app/src/main/java/be/nilsberghs/galileoproject/ScoreViewModel.kt:170-174 | the row is restored; the selection is untouched |
| Engine.ScoreViewModel.StartNewGame | app/src/main/java/be/nilsberghs/galileoproject/ScoreViewModel.kt:186-194 | a new unfinished game under the next id is always stored. It succeeds exactly when every selected player exists or keys are not enforced. On success it has one fresh row per selected player, the row counter moves by their number, and it becomes current; with enforcement those rows are exactly its current scores. On failure the rows for the players before the first unknown one stay stored, the row counter moves by their number, and the current game is kept |
| Engine.ScoreViewModel.InsertStartingRows | app/src/main/java/be/nilsberghs/galileoproject/ScoreViewModel.kt:189-191 | all rows are inserted in selection order, or it stops at the first player unknown to an enforcing store, with the earlier rows kept; the row counter moves by the number of rows inserted |
| Engine.ScoreViewModel.UpdateScore | app/src/main/java/be/nilsberghs/galileoproject/ScoreViewModel.kt:196-212 | the store receives `UpdatedEntry` of the row, with the update's success rule |
| Engine.ScoreViewModel.FinishGame | app/src/main/java/be/nilsberghs/galileoproject/ScoreViewModel.kt:214-221 | the current game, if any, is marked finished; there is no current game afterwards |
| Engine.ScoreViewModel.CancelGame | app/src/main/java/be/nilsberghs/galileoproject/ScoreViewModel.kt:223-230 | the current game, if any, is deleted and cleared; a refused delete keeps it current and in the table |
| Engine.ScoreViewModel.DeleteHistoryGame | app/src/main/java/be/nilsberghs/galileoproject/ScoreViewModel.kt:232-237 | the game is deleted and the open history game is closed, whichever it was; a refused delete changes neither |
| Engine.ScoreViewModel.OnHistoryDetailAction | app/src/main/java/be/nilsberghs/galileoproject/ui/screens/HistoryScreen.kt:48-60 | the read-only detail sheet: editing a cell changes nothing, the finish button and the back gesture close the detail, and the store is never touched (the earlier `HistoryScreen.kt:48-60` is wired the same way) |
| Engine.ScoreViewModel.SelectHistoryGame | app/src/main/java/be/nilsberghs/galileoproject/ScoreViewModel.kt:239-241 | the opened history game becomes the given one, or none |
| LegacyEngine.PresentPlayersArePrefix | app/src/main/java/be/nilsbergs/galileoproject/ScoreViewModel.kt:22-24 | in a list with the deleted players last, the present players are exactly its front |
| LegacyEngine.PresentOnly | app/src/main/java/be/nilsbergs/galileoproject/ScoreViewModel.kt:24 | `filter { !it.isDeleted }` of such a list is a prefix of it holding every present player as often as it occurs |
| LegacyEngine.LegacyScoreViewModel.constructor | app/src/main/java/be/nilsbergs/galileoproject/ScoreViewModel.kt:18-33 | deleted players hidden and nothing selected |
| LegacyEngine.LegacyScoreViewModel.AllPlayers | app/src/main/java/be/nilsbergs/galileoproject/ScoreViewModel.kt:22-30 | showing deleted players gives the full list; otherwise the front of it with exactly the present players; always in `isDeleted, name` order |
| LegacyEngine.ListedPlayersAreStored | app/src/main/java/be/nilsbergs/galileoproject/ScoreViewModel.kt:22-30 | every listed player is stored, and with deleted players hidden none of them is deleted |
| LegacyEngine.LegacyScoreViewModel.ToggleShowDeleted | app/src/main/java/be/nilsbergs/galileoproject/ScoreViewModel.kt:58-60 | the flag flips |
| LegacyEngine.LegacyScoreViewModel.TogglePlayerSelection | app/src/main/java/be/nilsbergs/galileoproject/ScoreViewModel.kt:68-76 | the selection becomes `Toggle` of the old one; a selection of at most four stays at most four |
| LegacyEngine.LegacyScoreViewModel.AddPlayerToDatabase | app/src/main/java/be/nilsbergs/galileoproject/ScoreViewModel.kt:41-50 | as in the current view model: a name over 25 characters fails with nothing changed; otherwise the player is stored under the next id and toggled into the selection; the games, the rows and their counters never change |
| LegacyEngine.LegacyScoreViewModel.DeletePlayer | app/src/main/java/be/nilsbergs/galileoproject/ScoreViewModel.kt:52-56 | only the soft delete; the selection is not touched, so a deleted player stays selected |
| LegacyEngine.LegacyScoreViewModel.RestorePlayer | app/src/main/java/be/nilsbergs/galileoproject/ScoreViewModel.kt:62-66 | the row is restored |

## Left out

- Engine.ScoreViewModel.ResumeUnfinishedGame: the selection bound of four is not an invariant of the view model. It is proved per command: `Toggle` and the commands that change the selection keep a selection of at most four at most four. Resume loads one player per resolvable row of the stored game, so the bound after resume holds only when that game has at most four rows. `StartNewGame` creates a game with one row per selected player, but `UpdateScore` writes back whatever row its caller passes, which may move a row to another game.
- Store.JoinScores: a score row whose player is not stored is dropped from the join. In the source, `ScoreWithPlayer` (`data/HistoryData.kt:16-23`) holds a non-null `@Relation` player, so building the record for such a row fails instead. That happens only without foreign-key enforcement; with it, every row has its player (`Store.EnforcedJoinIsComplete`).
- **Reactive plumbing.** Flows, coroutines, `stateIn` and the screens' composition are not modelled. Each command is one atomic step, and a query is read fresh where the source would read the latest value its flow emitted.
- **Stale flow in `hasAnyScores`.** `Engine.ScoreViewModel.HasAnyScores` reads the current rows directly, where the source reads `currentScores.value`, which may lag.
- **Resync delay.** The input cell's `LaunchedEffect` waits 500 ms before resynchronising its text. `Scoring.ScoreInputCell.Resync` is the step taken after the wait; the timing and the cancellation of a pending wait are not modelled.
- **Preferences.** The theme mode, the background opacity and their `SharedPreferences` storage (`setThemeMode`, `setBackgroundOpacity`) are presentation settings only.
- **Logging.** `Log` calls are not modelled.
- **I/O failures.** Failures of the database file are not modelled. The only failures modelled are the `require` in `Player` and foreign-key violations.
- **Unordered queries.** `WHERE` queries without `ORDER BY` are modelled as returning rows in insertion order. SQLite promises no order for them.
  - The joins of `getPlayersForGame` and `@Relation` follow that order.
  - Ties in `ORDER BY name` or `startTime` keep it as well; SQLite promises nothing for them either.
  - Results that rely on row order (the resume order and the history order among equal start times) hold for that choice only.
- **Latest active ties.** `Store.Database.LatestActiveGameId` promises some unfinished game with the latest start time. Among equal start times the model picks the first in table order.
- **Unicode (digits, case).** `toIntOrNull` and NOCASE work on ASCII only. Kotlin also accepts the digits of other scripts. `uppercase()` is modelled on ASCII letters only.
- LegacyScoring.Abbreviation: its label of at most three characters holds for the model's ASCII case mapping only. Kotlin's `uppercase()` can lengthen a string (`"ß"` becomes `"SS"`), so a label can have more than three characters in the app.
- **Unicode (length).** Name length is counted in UTF-16 code units in Kotlin and in characters here.
- **Id truncation.** The `Long` row id that `insert` returns is narrowed by `toInt()`, which is not modelled: ids are unbounded integers.
- **Id overflow.** SQLite's `AUTOINCREMENT` failure once an id reaches 2^63 − 1 is not modelled.
- **Start time.** The `Long` start time is an unbounded integer supplied by the caller.
- **Finish button in the earlier sheet.** The middle revision `ui/GameScoringScreen.kt` enables its finish button unconditionally (line 212). Only the current sheet's `canFinish` is modelled.
- **Detail-sheet presentation.** The history card's `joinToString(", ")` is modelled as the list of names it joins. Fonts, icons and layout are not modelled.
- **`AddPlayerResult`.** It is declared (`util/AddPlayerResult.kt`, `domain/AddPlayerResult.kt`) and modelled as a datatype, but no command of either view model returns it.
- **Other screens.** The player-selection and player-editing screens are not part of this model, and neither are the dialogs, the settings screen or the about screen; they call the commands above.
- **Missing legacy files.** The earlier package's `data/Player.kt` and `data/PlayerDao.kt` are not part of this model. `LegacyEngine` uses the current `Player` and DAO in their place.
