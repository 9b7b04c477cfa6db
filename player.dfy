/**
 * The player record: an id (0 until the store generates one), a display name of
 * at most 25 characters, and a soft-delete flag. The name column is compared
 * with SQLite's NOCASE collation, which folds the ASCII letters only.
 */
module Players {
  import opened Primitives

  const MaxNameLength: nat := 25

  datatype PlayerData = PlayerData(id: int, name: string, isDeleted: bool)

  /** Every `Player` value satisfies the constructor's `require`. */
  type Player = p: PlayerData | |p.name| <= MaxNameLength witness PlayerData(0, "", false)

  /** The `IllegalArgumentException` that `require` throws. */
  datatype ConstructionError = IllegalArgument(message: string)

  const NameTooLongMessage: string := "Player name cannot exceed 25 characters"

  /** The primary constructor with its defaults (`id = 0`, `isDeleted = false`). */
  function NewPlayer(name: string, id: int := 0, isDeleted: bool := false): (r: Result<Player, ConstructionError>)
    ensures r.Success? <==> |name| <= MaxNameLength
    ensures r.Success? ==> r.value.id == id && r.value.name == name && r.value.isDeleted == isDeleted
    ensures r.Failure? ==> r.error == IllegalArgument(NameTooLongMessage)
  {
    if |name| <= MaxNameLength then Success(PlayerData(id, name, isDeleted))
    else Failure(IllegalArgument(NameTooLongMessage))
  }

  /** Built from a name alone, a player has the placeholder id 0 and is not deleted. */
  lemma NewPlayerDefaults(name: string)
    requires |name| <= MaxNameLength
    ensures NewPlayer(name).Success? && NewPlayer(name).value == PlayerData(0, name, false)
  {
  }

  /** Equality is structural: a renamed or soft-deleted copy is a different value. */
  lemma CopiesAreDistinct(p: Player, newName: string)
    requires newName != p.name
    ensures p.(name := newName) != p
    ensures p.(isDeleted := !p.isDeleted) != p
  {
  }

  // ---------------------------------------------------------------------------
  // NOCASE collation

  /** SQLite folds 'A'..'Z' to lower case and leaves every other character alone. */
  function FoldCase(c: char): char
  {
    if 'A' <= c <= 'Z' then (c as int + 32) as char else c
  }

  /** Two names are equal under NOCASE. */
  predicate NameEquals(a: string, b: string)
  {
    |a| == |b| && forall i | 0 <= i < |a| :: FoldCase(a[i]) == FoldCase(b[i])
  }

  /** `a` sorts no later than `b` under NOCASE: folded characters compared in order, a prefix first. */
  predicate NameAtMost(a: string, b: string)
  {
    if a == [] then true
    else if b == [] then false
    else if FoldCase(a[0]) != FoldCase(b[0]) then FoldCase(a[0]) < FoldCase(b[0])
    else NameAtMost(a[1..], b[1..])
  }

  lemma {:induction false} NameAtMostTotal(a: string, b: string)
    ensures NameAtMost(a, b) || NameAtMost(b, a)
  {
    if a != [] && b != [] && FoldCase(a[0]) == FoldCase(b[0]) {
      NameAtMostTotal(a[1..], b[1..]);
    }
  }

  lemma {:induction false} NameAtMostTransitive(a: string, b: string, c: string)
    requires NameAtMost(a, b) && NameAtMost(b, c)
    ensures NameAtMost(a, c)
  {
    if a != [] && b != [] && c != []
       && FoldCase(a[0]) == FoldCase(b[0]) && FoldCase(b[0]) == FoldCase(c[0]) {
      NameAtMostTransitive(a[1..], b[1..], c[1..]);
    }
  }

  /** The order and the equality agree: equal names are exactly those ordered both ways. */
  lemma {:induction false} NameEqualsIffBothWays(a: string, b: string)
    ensures NameEquals(a, b) <==> NameAtMost(a, b) && NameAtMost(b, a)
  {
    if a != [] && b != [] {
      NameEqualsIffBothWays(a[1..], b[1..]);
      if FoldCase(a[0]) == FoldCase(b[0]) {
        if NameEquals(a[1..], b[1..]) {
          forall i | 0 <= i < |a| ensures FoldCase(a[i]) == FoldCase(b[i]) {
            if i > 0 { assert a[1..][i - 1] == a[i] && b[1..][i - 1] == b[i]; }
          }
        }
        if NameEquals(a, b) {
          forall i | 0 <= i < |a| - 1 ensures FoldCase(a[1..][i]) == FoldCase(b[1..][i]) {
            assert a[1..][i] == a[i + 1] && b[1..][i] == b[i + 1];
          }
        }
      }
    }
  }
}
