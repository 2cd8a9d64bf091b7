/**
 * The value types the liturgical calendar returns: the season, its colour and
 * the record handed to the presentation layer.
 */
module LiturgicalTypes {

  datatype Option<+T> = None | Some(value: T)

  /** The five seasons of the calendar ('Ordinary Time' in the source). */
  datatype LiturgicalSeason = Advent | Christmas | OrdinaryTime | Lent | Easter

  /** The colour vocabulary; Red and Rose exist for later feast rules and are
      never produced by the season engine. */
  datatype LiturgicalColor = Purple | White | Green | Red | Rose

  /** The engine's result; dayName is the optional tag of a special week. */
  datatype LiturgicalInfo = LiturgicalInfo(
    season: LiturgicalSeason,
    dayName: Option<string>,
    color: LiturgicalColor,
    description: string)

  /** The colour each season is shown in. */
  function SeasonColor(s: LiturgicalSeason): LiturgicalColor {
    match s
    case Advent => Purple
    case Lent => Purple
    case Christmas => White
    case Easter => White
    case OrdinaryTime => Green
  }
}
