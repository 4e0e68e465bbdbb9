/** Record shapes of the game backend: the rows of the `characters`, `positions`
    and `enemies` tables and the request payloads that create or change them,
    with the defaults the payload schemas fill in. */
module Records {

  datatype Option<T> = None | Some(value: T)

  /** Defaults of the character creation payload (schemas.py:6-9). */
  const DEFAULT_HEALTH: int := 100
  const DEFAULT_ARMOR: int := 0
  const DEFAULT_MANA: int := 0
  const DEFAULT_KILLS: int := 0

  /** Default health of an enemy (schemas.py:44). */
  const DEFAULT_ENEMY_HEALTH: int := 100

  /** Default side of the square grid searched for a free cell (crud.py:61). */
  const DEFAULT_GRID_SIZE: int := 10

  /** A stored character row. Stats are plain integers with no range. */
  datatype Character = Character(
    id: int,
    name: string,
    image: string,
    health: int,
    armor: int,
    mana: int,
    kills: int)

  /** The creation payload: every column except the id; the stats the caller
      leaves out take their defaults. */
  datatype CharacterCreate = CharacterCreate(
    name: string,
    image: string,
    health: int := DEFAULT_HEALTH,
    armor: int := DEFAULT_ARMOR,
    mana: int := DEFAULT_MANA,
    kills: int := DEFAULT_KILLS)

  /** The update payload: `None` is a field the caller did not set. */
  datatype CharacterUpdate = CharacterUpdate(
    name: Option<string>,
    image: Option<string>,
    health: Option<int>,
    armor: Option<int>,
    mana: Option<int>,
    kills: Option<int>)

  /** One (field, value) item of an update payload's set fields. */
  datatype FieldValue =
    | Name(text: string)
    | Image(text: string)
    | Health(amount: int)
    | Armor(amount: int)
    | Mana(amount: int)
    | Kills(amount: int)

  /** A stored position row: one grid cell for one character. */
  datatype Position = Position(id: int, characterId: int, x: int, y: int)

  datatype PositionCreate = PositionCreate(characterId: int, x: int, y: int)

  /** A stored enemy row, unrelated to the positions table. */
  datatype Enemy = Enemy(id: int, x: int, y: int, health: int)

  datatype EnemyCreate = EnemyCreate(x: int, y: int, health: int := DEFAULT_ENEMY_HEALTH)
}
