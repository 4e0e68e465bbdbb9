# Record store of a grid-game backend, in Dafny

This project models the record-store layer (`crud.py`) of a small backend for a
grid-based multiplayer game. The store keeps three tables:

- `characters`: a name, an image and four integer stats (health, armor, mana,
  kills) per character;
- `positions`: one grid cell `(x, y)` per character;
- `enemies`: a cell and a health per enemy.

Each table is a sequence of rows in storage order. A new row takes the next id,
so storage order is also id order. The modules are:

- `Records` (records.dfy): the row and payload shapes, with the defaults of the
  payload schemas (health 100, armor, mana and kills 0, enemy health 100). The
  `CharacterUpdate` payload has optional fields: `None` means the caller did not
  set that field.
- `Tables` (tables.dfy): what the store's queries mean on such a table: the
  first row with a key (`filter(...).first()`), the id a new row receives, the
  table without the rows of one key, and the number of rows with a key.
- `Crud` (crud.dfy): the operations of `crud.py`.
  - The read operations are functions of the tables: `GetCharacter`,
    `GetCharacters`, `GetPositionByCharacterId`, `GetEnemies` and `GetEnemyById`.
  - The writes are methods of a `Session` class that reassign its table fields
    in place. The writes are create, update, delete, position upsert and enemy
    create.
  - `UpdateCharacter` loops over the payload's set fields and assigns them one by
    one. It is proved equal to the reference `Patched`.
  - `CreateOrUpdatePosition` is proved equal to the specification `Upserted`.
    Lemmas about `Upserted` show that it never duplicates a character's row and
    that it is idempotent.
  - `RandomFreePosition` is the rejection-sampling loop. The values that
    `random.randint` would return are given as the parameter `rolls`.

The store assigns a new row's id the way SQLite assigns a rowid to an integer
primary key: 1 in an empty table, otherwise one more than the largest id in use.
The engine setup (database.py) is not part of this model, so this is an
assumption. The proved contracts need only part of it: a new id is not in use,
and appending its row keeps the ids ascending.

## Model

| member | source | states |
|---|---|---|
| `Tables.FindFirst` | crud.py:21-22 | the index of the first row whose key matches, or `None` exactly when no row has that key |
| `Tables.Lookup` | crud.py:46-47 | a stored row with the key that no earlier row's key matches, i.e. the first one; `None` exactly when no row has the key |
| `Tables.MaxKey` | models.py:8 | an upper bound on every id in a non-empty table, and an id some row actually has |
| `Tables.NextKey` | models.py:8 | the new row's id is larger than every id in use; 1 in an empty table; otherwise exactly the largest id plus one |
| `Tables.AppendNextKey` | crud.py:8-10 | appending a row under the next id keeps ids strictly ascending, so no id repeats |
| `Tables.Without` | crud.py:42 | removal drops every row of the key, keeps every row of another key, adds no row, and leaves a table without that key unchanged |
| `Tables.WithoutAt` | crud.py:38-44 | when the row at `i` is the only one with its id, deleting that id removes exactly that row and keeps the others in order |
| `Tables.LookupWithout` | crud.py:38-44 | after deletion the deleted id is not found, and every other id finds the same row as before |
| `Tables.LookupAppend` | crud.py:7-12 | after an insert, an id found before is found unchanged; otherwise the new row is found when it has the id |
| `Tables.Count` | crud.py:49-59 | the number of rows with a key is zero exactly when no row has the key |
| `Crud.GetCharacter` | crud.py:21-22 | the result is the first stored character with the requested id; `None` exactly when no character has that id |
| `Crud.GetCharacters` | crud.py:16-17 | the rows from position `skip` on, in table order; `min(limit, rows left)` of them, or none when `skip` is past the end |
| `Crud.PagesTile` | crud.py:16-17 | a page of `a` rows followed by the page of `b` rows after it equals the page of `a + b` rows |
| `Crud.Slots` | crud.py:30 | the payload's six fields in declaration order: slot `i` can only hold field `i`, and a slot holds an item exactly when the payload sets that field to that value |
| `Crud.Present` | crud.py:30 | the items of the set slots: an item is kept exactly when some slot holds it, and kept items stay in slot order |
| `Crud.SetFields` | crud.py:30 | the items of the update lists exactly the fields the payload sets, with their values, each once and in declaration order |
| `Crud.SetAttr` | crud.py:31 | assigning one attribute never changes the id |
| `Crud.ApplyAll` | crud.py:30-31 | assigning a series of attributes never changes the id |
| `Crud.ApplyAllConcat` | crud.py:30-31 | assigning `a` and then `b` equals assigning `a + b` one by one |
| `Crud.ApplyPresent` | crud.py:30-31 | assigning the kept items one by one is going through every slot in order and assigning the set ones |
| `Crud.ApplySetFields` | crud.py:30-31 | assigning the payload's set fields one by one gives the reference update: each set field takes its value, and the id and unset fields keep theirs |
| `Crud.PatchAt` | crud.py:26-34 | in a table whose ids ascend, replacing a row by its update changes only the row with that id and keeps the ids ascending |
| `Crud.GetPositionByCharacterId` | crud.py:46-47 | the result is the first stored position row of that character; `None` exactly when the character has no row |
| `Crud.UpsertLookup` | crud.py:49-59 | after an upsert the character is found at the new cell, in its old row when it had one; other characters' positions are unchanged |
| `Crud.UpsertRowCount` | crud.py:49-59 | an upsert adds a row only for a character that had none, and changes no other character's row count |
| `Crud.UpsertKeepsOneRowPerCharacter` | crud.py:49-59 | if no character had two position rows before an upsert, none has two after it |
| `Crud.UpsertIdempotent` | crud.py:49-59 | repeating an upsert with the same payload leaves the table as the first upsert left it |
| `Crud.RepeatedUpsertOneRow` | crud.py:49-59 | starting from at most one row, two identical upserts leave exactly one row for that character |
| `Crud.FirstFree` | crud.py:64-68 | the result is an attempted cell outside the snapshot, and every earlier attempt hit the snapshot; `None` only when every complete attempt hit it |
| `Crud.Occupied` | crud.py:63 | the snapshot holds a cell exactly when some position row stands on it |
| `Crud.FullGridNeverFree` | crud.py:64-68 | on a grid whose every cell is occupied, no sequence of in-range draws ever yields a free cell |
| `Crud.GetEnemyById` | crud.py:80-81 | the result is the first stored enemy with the requested id; `None` exactly when no enemy has that id |
| `Crud.GetEnemies` | crud.py:70-71 | every enemy row, in table order |
| `Crud.Session.CreateCharacter` | crud.py:7-12 | the new row holds exactly the payload's fields under an id no row had; it is appended, found by its id, and the other tables are unchanged |
| `Crud.Session.UpdateCharacter` | crud.py:26-34 | a missing id returns `None` and changes nothing; otherwise only the row with that id changes, to the reference update, and it is returned |
| `Crud.Session.DeleteCharacter` | crud.py:38-44 | returns the row the id named, or `None`; the table loses exactly the rows of that id, and is unchanged when there were none |
| `Crud.Session.CreateOrUpdatePosition` | crud.py:49-59 | the positions table becomes the upsert specification; the returned row has the payload's character and cell and is what a lookup now finds |
| `Crud.Session.RandomFreePosition` | crud.py:61-68 | a returned cell is inside the grid and outside the occupied snapshot, and it is the first free attempt; a grid size below 1 is an error; nothing changes |
| `Crud.Session.CreateEnemy` | crud.py:73-78 | the new enemy holds exactly the payload's fields under an id no enemy had, is appended, and is found by its id |

## Left out

- HTTP routing, CORS, the startup hook and the per-request session lifecycle in main.py are framework wiring.
- The statistics endpoint is left out. It averages with the database's `avg` and rounds floats.
- The random-character endpoint is left out. It only draws random values and formats an image URL.
- Transactions, `commit`, `refresh` and the session's identity map are left out. Rows are values: a returned row is a copy, not a live object that aliases the stored one.
- Ids follow the SQLite rowid rule (largest id plus one). The database setup is not part of this model, so this rule is assumed, not read from the source.
- Crud.GetCharacters: `skip` and `limit` are natural numbers. How the engine treats a negative OFFSET or LIMIT depends on the engine, and the engine is not part of this model.
- Crud.Session.UpdateCharacter: a field explicitly set to `null` in the payload is treated as unset. The source would assign `None` to that column.
- Crud.Session.RandomFreePosition: the random draws are a finite parameter. When they run out the result is `OutOfRolls`, while the source keeps sampling forever, for example on a full grid (see `Crud.FullGridNeverFree`). Termination of the source loop is not modelled.
- models.py defines only the character table. The position and enemy rows take their shape from schemas.py. No uniqueness constraint on a position's character id appears in crud.py, models.py or schemas.py. So the model allows duplicate rows, the upsert changes the first one, and the one-row-per-character property is proved as an invariant of the upsert.
- Deleting a character leaves its position row in place, as the source does (no cascade).
- The background mover and the move, attack and spawn handlers are left out. They are not implemented: main.py ends with a placeholder comment (main.py:116).
