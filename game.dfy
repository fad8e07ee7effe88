/** The game-state switch of Chronoscape: the five states and the way the
    number keys pick one at the start of every frame. */
module Game {

  datatype GameState = Menu | ChessKingdom | EscapeChronolab | MythicalMaze | Exit

  /** The keys that went down this frame, as the input handler queries them. */
  datatype Keys = Keys(one: bool, two: bool, three: bool,
                       right: bool, left: bool, down: bool, up: bool)

  predicate NoDigit(k: Keys) {
    !k.one && !k.two && !k.three
  }

  /** The state after the three number-key tests: each pressed digit
      overwrites the state in turn, so the highest pressed digit wins and
      no digit keeps the state. */
  function SelectState(s: GameState, k: Keys): (r: GameState)
    ensures k.three ==> r == MythicalMaze
    ensures !k.three && k.two ==> r == EscapeChronolab
    ensures !k.three && !k.two && k.one ==> r == ChessKingdom
    ensures NoDigit(k) ==> r == s
    ensures r == MythicalMaze <==> k.three || (NoDigit(k) && s == MythicalMaze)
  {
    var afterOne := if k.one then ChessKingdom else s;
    var afterTwo := if k.two then EscapeChronolab else afterOne;
    if k.three then MythicalMaze else afterTwo
  }
}
