/**
 * The Game document: every field is required. `cover` is kept as an opaque
 * string, as the schema declares it.
 */
module GameModel {
  import opened Wrappers
  import opened Schema

  datatype Game = Game(
    id: Id,
    name: string,
    cover: string,
    genre: string,
    releaseDate: int,
    description: string,
    addedBy: Id)

  /** The fields handed to the store when a game is created, each possibly missing. */
  datatype GameDraft = GameDraft(
    name: Option<string>,
    cover: Option<string>,
    genre: Option<string>,
    releaseDate: Option<int>,
    description: Option<string>,
    addedBy: Option<Id>)

  /** A stored game satisfies every `required` constraint of the schema. */
  predicate ValidGame(g: Game)
  {
    g.name != "" && g.cover != "" && g.genre != "" && g.description != "" && g.addedBy != ""
  }

  /** Validation on save: the game is stored iff every required field is given. */
  function CreateGame(id: Id, d: GameDraft): (r: Result<Game, ValidationError>)
    ensures r.Success? <==>
      Present(d.name) && Present(d.cover) && Present(d.genre) && d.releaseDate.Some? &&
      Present(d.description) && Present(d.addedBy)
    ensures r.Success? ==>
      && ValidGame(r.value) && r.value.id == id
      && Some(r.value.name) == d.name && Some(r.value.cover) == d.cover
      && Some(r.value.genre) == d.genre && Some(r.value.releaseDate) == d.releaseDate
      && Some(r.value.description) == d.description && Some(r.value.addedBy) == d.addedBy
    ensures r.Failure? ==>
      && ("name" in r.error.paths <==> !Present(d.name))
      && ("cover" in r.error.paths <==> !Present(d.cover))
      && ("genre" in r.error.paths <==> !Present(d.genre))
      && ("releaseDate" in r.error.paths <==> d.releaseDate.None?)
      && ("description" in r.error.paths <==> !Present(d.description))
      && ("addedBy" in r.error.paths <==> !Present(d.addedBy))
  {
    var missing :=
      (if Present(d.name) then {} else {"name"}) +
      (if Present(d.cover) then {} else {"cover"}) +
      (if Present(d.genre) then {} else {"genre"}) +
      (if d.releaseDate.Some? then {} else {"releaseDate"}) +
      (if Present(d.description) then {} else {"description"}) +
      (if Present(d.addedBy) then {} else {"addedBy"});
    if missing == {} then
      Success(Game(id, d.name.value, d.cover.value, d.genre.value, d.releaseDate.value,
                   d.description.value, d.addedBy.value))
    else
      Failure(ValidationError(missing))
  }

  function DraftOf(g: Game): GameDraft
  {
    GameDraft(Some(g.name), Some(g.cover), Some(g.genre), Some(g.releaseDate),
              Some(g.description), Some(g.addedBy))
  }

  /** Every valid game is exactly what creating it from its own fields stores. */
  lemma CreateGameRoundTrip(g: Game)
    requires ValidGame(g)
    ensures CreateGame(g.id, DraftOf(g)) == Success(g)
  {
  }

  /** Why creating a game through the catalog form fails. */
  datatype AddGameError = CoverRequired | Invalid(error: ValidationError)

  /**
   * The game-creation request: without a cover file it is refused before
   * anything is stored; otherwise the game is owned by the authenticated user.
   */
  function AddGame(id: Id, user: Id, name: Option<string>, genre: Option<string>,
                   releaseDate: Option<int>, description: Option<string>,
                   coverFile: Option<string>): (r: Result<Game, AddGameError>)
    ensures coverFile.None? ==> r == Failure(CoverRequired)
    ensures r.Success? ==> r.value.addedBy == user && r.value.id == id && ValidGame(r.value)
    ensures coverFile.Some? && user != "" ==>
      (r.Success? <==> Present(name) && Present(coverFile) && Present(genre) &&
                       releaseDate.Some? && Present(description))
  {
    if coverFile.None? then Failure(CoverRequired)
    else
      match CreateGame(id, GameDraft(name, coverFile, genre, releaseDate, description, Some(user)))
      case Success(g) => Success(g)
      case Failure(e) => Failure(Invalid(e))
  }
}
