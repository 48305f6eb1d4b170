/**
 The three difficulty buttons of the Chasing Bombs game and the winning
 scores they select.
 */
module Difficulty {

  const EasyScore := 5
  const MediumScore := 7
  const HardScore := 9

  /** The difficulty buttons, named by their labels. */
  datatype Level = Easy | Intermediate | Difficult

  /** A winning score one of the buttons can assign. */
  predicate IsPreset(w: int) {
    w == EasyScore || w == MediumScore || w == HardScore
  }

  /** The winning score a difficulty button assigns when clicked. */
  function Target(l: Level): (w: int)
    ensures IsPreset(w)
    ensures 0 < w < 10
  {
    match l
    case Easy => EasyScore
    case Intermediate => MediumScore
    case Difficult => HardScore
  }

  /** The button that assigns winning score `w`. */
  function LevelOf(w: int): (l: Level)
    requires IsPreset(w)
    ensures Target(l) == w
  {
    if w == EasyScore then Easy
    else if w == MediumScore then Intermediate
    else Difficult
  }

  /** Distinct buttons assign distinct winning scores. */
  lemma TargetInjective(l: Level, m: Level)
    ensures Target(l) == Target(m) <==> l == m
  {
  }

  /** The enabled flags of the three difficulty buttons. */
  datatype Buttons = Buttons(easy: bool, intermediate: bool, difficult: bool)

  /** Whether the button for `l` is enabled (can fire). */
  function Enabled(b: Buttons, l: Level): bool {
    match l
    case Easy => b.easy
    case Intermediate => b.intermediate
    case Difficult => b.difficult
  }

  /** Enables all three difficulty buttons (resetDifficulties). */
  function ResetDifficulties(b: Buttons): (r: Buttons)
    ensures forall l :: Enabled(r, l)
  {
    Buttons(true, true, true)
  }

  /** The button part of startGame: three independent tests of the winning
      score, each disabling the two buttons that do not assign it. A button
      is never enabled here. */
  function LockDifficulties(b: Buttons, w: int): (r: Buttons)
    ensures forall l :: Enabled(r, l) <==> Enabled(b, l) && (IsPreset(w) ==> Target(l) == w)
  {
    var b1 := if w == EasyScore then b.(intermediate := false, difficult := false) else b;
    var b2 := if w == MediumScore then b1.(easy := false, difficult := false) else b1;
    if w == HardScore then b2.(easy := false, intermediate := false) else b2
  }
}
