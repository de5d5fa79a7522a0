/** The enumerations of the Wall-E game: what a board cell holds, where a game
    stands, and the four directions in which the robot acts. */
module Types {

  /** CaseType: ROBOT, PRINCESSE, FLEUR, DECHET, VIDE. */
  datatype Cell = Robot | Princess | Flower | Debris | Empty

  /** GameStatus: EN_COURS, PERDU, GAGNE. */
  datatype Status = InProgress | Lost | Won

  /** Direction: HAUT, BAS, GAUCHE, DROITE. */
  datatype Direction = Up | Down | Left | Right

  /** The one-letter value a cell kind carries, which is what the board
      rendering shows. No letter is the row separator of the rendering. */
  function Code(c: Cell): (ch: char)
    ensures ch != '\n'
  {
    match c
    case Robot => 'R'
    case Princess => 'P'
    case Flower => 'F'
    case Debris => 'D'
    case Empty => 'V'
  }

  /** Distinct cell kinds have distinct letters, so a rendering can be read back. */
  lemma CodeInjective(c: Cell, d: Cell)
    ensures Code(c) == Code(d) ==> c == d
  {
  }
}
