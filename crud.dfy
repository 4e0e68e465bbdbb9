/** The record-store layer of the game backend (crud.py): lookups over the
    `characters`, `positions` and `enemies` tables as functions of the tables,
    the specifications of the operations that change them, and a `Session`
    whose methods change the tables in place. */
module Crud {
  import opened Records
  import opened Tables

  // Key columns, as functions of a row.
  function CharacterId(c: Character): int { c.id }
  function PositionId(p: Position): int { p.id }
  function PositionOwner(p: Position): int { p.characterId }
  function EnemyId(e: Enemy): int { e.id }

  /** Default window of `get_characters` (crud.py:16). */
  const DEFAULT_SKIP: nat := 0
  const DEFAULT_LIMIT: nat := 100

  // ---------------------------------------------------------------- characters

  /** The character whose id is `id`, or `None` when no row has that id. */
  function GetCharacter(characters: seq<Character>, id: int): (r: Option<Character>)
    ensures r.Some? ==> r.value in characters && r.value.id == id
    ensures r.Some? ==> exists i :: 0 <= i < |characters| && characters[i] == r.value &&
                                    (forall j :: 0 <= j < i ==> characters[j].id != id)
    ensures r.None? <==> forall c :: c in characters ==> c.id != id
  {
    Lookup(characters, CharacterId, id)
  }

  function Min(a: int, b: int): int { if a <= b then a else b }

  /** The rows from position `skip` on, at most `limit` of them, in table order. */
  function GetCharacters(characters: seq<Character>, skip: nat := DEFAULT_SKIP, limit: nat := DEFAULT_LIMIT): (r: seq<Character>)
    ensures |r| == if skip >= |characters| then 0 else Min(limit, |characters| - skip)
    ensures forall k :: 0 <= k < |r| ==> r[k] == characters[skip + k]
  {
    if skip >= |characters| then []
    else if |characters| - skip <= limit then characters[skip..]
    else characters[skip..skip + limit]
  }

  /** Consecutive pages tile the table: reading `a` rows and then `b` rows from
      where the first page ended reads the same rows as one page of `a + b`. */
  lemma PagesTile(characters: seq<Character>, skip: nat, a: nat, b: nat)
    ensures GetCharacters(characters, skip, a) + GetCharacters(characters, skip + a, b)
         == GetCharacters(characters, skip, a + b)
  {
  }

  /** The stored columns of a character other than its id. */
  function Payload(c: Character): CharacterCreate {
    CharacterCreate(c.name, c.image, c.health, c.armor, c.mana, c.kills)
  }

  /** Position of a field in the payload's declaration order. */
  function FieldIndex(f: FieldValue): nat {
    match f
    case Name(_) => 0
    case Image(_) => 1
    case Health(_) => 2
    case Armor(_) => 3
    case Mana(_) => 4
    case Kills(_) => 5
  }

  /** The payload sets the field of `f`, to the value `f` carries. */
  predicate Supplies(u: CharacterUpdate, f: FieldValue) {
    match f
    case Name(s) => u.name == Some(s)
    case Image(s) => u.image == Some(s)
    case Health(n) => u.health == Some(n)
    case Armor(n) => u.armor == Some(n)
    case Mana(n) => u.mana == Some(n)
    case Kills(n) => u.kills == Some(n)
  }

  /** The payload's six fields in declaration order, each an item when it is set. */
  function Slots(u: CharacterUpdate): (r: seq<Option<FieldValue>>)
    ensures |r| == 6
    ensures forall i :: 0 <= i < |r| && r[i].Some? ==> FieldIndex(r[i].value) == i
    ensures forall f :: Some(f) in r <==> Supplies(u, f)
  {
    [if u.name.Some? then Some(Name(u.name.value)) else None,
     if u.image.Some? then Some(Image(u.image.value)) else None,
     if u.health.Some? then Some(Health(u.health.value)) else None,
     if u.armor.Some? then Some(Armor(u.armor.value)) else None,
     if u.mana.Some? then Some(Mana(u.mana.value)) else None,
     if u.kills.Some? then Some(Kills(u.kills.value)) else None]
  }

  /** The item of one slot: none when the field is unset. */
  function Item(slot: Option<FieldValue>): seq<FieldValue> {
    if slot.Some? then [slot.value] else []
  }

  /** The items of the set slots, in slot order; slot `i` holds field `n + i`. */
  function Present(slots: seq<Option<FieldValue>>, n: nat): (r: seq<FieldValue>)
    requires forall i :: 0 <= i < |slots| && slots[i].Some? ==> FieldIndex(slots[i].value) == n + i
    ensures forall x :: x in r <==> Some(x) in slots
    ensures forall i :: 0 <= i < |r| ==> n <= FieldIndex(r[i]) < n + |slots|
    ensures forall i, j :: 0 <= i < j < |r| ==> FieldIndex(r[i]) < FieldIndex(r[j])
  {
    if slots == [] then []
    else
      assert forall i :: 1 <= i < |slots| ==> slots[i] == slots[1..][i - 1];
      Item(slots[0]) + Present(slots[1..], n + 1)
  }

  /** The (field, value) items of an update payload's explicitly set fields:
      exactly the fields the payload supplies, each once, in declaration order. */
  function SetFields(u: CharacterUpdate): (r: seq<FieldValue>)
    ensures forall f :: f in r <==> Supplies(u, f)
    ensures forall i, j :: 0 <= i < j < |r| ==> FieldIndex(r[i]) < FieldIndex(r[j])
  {
    Present(Slots(u), 0)
  }

  /** Assigning one attribute of a stored character. */
  function SetAttr(c: Character, f: FieldValue): (r: Character)
    ensures r.id == c.id
  {
    match f
    case Name(s) => c.(name := s)
    case Image(s) => c.(image := s)
    case Health(n) => c.(health := n)
    case Armor(n) => c.(armor := n)
    case Mana(n) => c.(mana := n)
    case Kills(n) => c.(kills := n)
  }

  /** Assigning the attributes of `fs` one after another, first to last. */
  function ApplyAll(c: Character, fs: seq<FieldValue>): (r: Character)
    ensures r.id == c.id
  {
    if fs == [] then c else SetAttr(ApplyAll(c, fs[..|fs| - 1]), fs[|fs| - 1])
  }

  /** One more attribute of `fs` assigned. */
  lemma ApplyAllStep(c: Character, fs: seq<FieldValue>, j: nat)
    requires j < |fs|
    ensures ApplyAll(c, fs[..j + 1]) == SetAttr(ApplyAll(c, fs[..j]), fs[j])
  {
    assert fs[..j + 1][..j] == fs[..j];
  }

  lemma {:induction false} ApplyAllConcat(c: Character, a: seq<FieldValue>, b: seq<FieldValue>)
    ensures ApplyAll(c, a + b) == ApplyAll(ApplyAll(c, a), b)
  {
    if b == [] {
      assert a + b == a;
    } else {
      var n := |b| - 1;
      assert (a + b)[..|a + b| - 1] == a + b[..n];
      ApplyAllConcat(c, a, b[..n]);
    }
  }

  /** The value of an optional field: the supplied value when set, otherwise the
      stored one. */
  function Or<T>(supplied: Option<T>, stored: T): T {
    if supplied.Some? then supplied.value else stored
  }

  /** Reference meaning of a partial update: every field the payload sets takes
      the supplied value; the id and every unset field keep their stored value. */
  function Patched(c: Character, u: CharacterUpdate): Character {
    Character(c.id, Or(u.name, c.name), Or(u.image, c.image), Or(u.health, c.health),
              Or(u.armor, c.armor), Or(u.mana, c.mana), Or(u.kills, c.kills))
  }

  /** Assigning the field of one slot when it is set. */
  function SetSlot(c: Character, slot: Option<FieldValue>): Character {
    if slot.Some? then SetAttr(c, slot.value) else c
  }

  /** Going through the slots in order, assigning each set one. */
  function ApplySlots(c: Character, slots: seq<Option<FieldValue>>): Character
    decreases slots
  {
    if slots == [] then c else ApplySlots(SetSlot(c, slots[0]), slots[1..])
  }

  /** Assigning the items of the set slots one by one is going through the slots
      and assigning each set one. */
  lemma {:induction false} ApplyPresent(c: Character, slots: seq<Option<FieldValue>>, n: nat)
    requires forall i :: 0 <= i < |slots| && slots[i].Some? ==> FieldIndex(slots[i].value) == n + i
    ensures ApplyAll(c, Present(slots, n)) == ApplySlots(c, slots)
    decreases slots
  {
    if slots != [] {
      var rest := slots[1..];
      assert forall i :: 0 <= i < |rest| && rest[i].Some? ==> FieldIndex(rest[i].value) == n + 1 + i by {
        forall i | 0 <= i < |rest| && rest[i].Some? ensures FieldIndex(rest[i].value) == n + 1 + i {
          assert rest[i] == slots[i + 1];
        }
      }
      ApplyAllConcat(c, Item(slots[0]), Present(rest, n + 1));
      if slots[0].Some? {
        assert [slots[0].value][..0] == [];
      }
      ApplyPresent(SetSlot(c, slots[0]), rest, n + 1);
    }
  }

  /** Assigning the set fields one by one, as the update loop does, yields the
      reference update. */
  lemma ApplySetFields(c: Character, u: CharacterUpdate)
    ensures ApplyAll(c, SetFields(u)) == Patched(c, u)
  {
    var slots := Slots(u);
    ApplyPresent(c, slots, 0);
    var c1 := SetSlot(c, slots[0]);
    assert c1 == c.(name := Or(u.name, c.name));
    var c2 := SetSlot(c1, slots[1]);
    assert c2 == c1.(image := Or(u.image, c.image));
    var c3 := SetSlot(c2, slots[2]);
    assert c3 == c2.(health := Or(u.health, c.health));
    var c4 := SetSlot(c3, slots[3]);
    assert c4 == c3.(armor := Or(u.armor, c.armor));
    var c5 := SetSlot(c4, slots[4]);
    assert c5 == c4.(mana := Or(u.mana, c.mana));
    var c6 := SetSlot(c5, slots[5]);
    assert c6 == c5.(kills := Or(u.kills, c.kills));
    assert ApplySlots(c5, slots[5..]) == c6 by { assert slots[5..][1..] == []; }
    assert ApplySlots(c4, slots[4..]) == ApplySlots(c5, slots[5..]) by { assert slots[4..][1..] == slots[5..]; }
    assert ApplySlots(c3, slots[3..]) == ApplySlots(c4, slots[4..]) by { assert slots[3..][1..] == slots[4..]; }
    assert ApplySlots(c2, slots[2..]) == ApplySlots(c3, slots[3..]) by { assert slots[2..][1..] == slots[3..]; }
    assert ApplySlots(c1, slots[1..]) == ApplySlots(c2, slots[2..]) by { assert slots[1..][1..] == slots[2..]; }
  }

  /** In a table whose ids ascend, updating the row at `i` changes only the row
      with that row's id, and keeps the ids ascending. */
  lemma PatchAt(rows: seq<Character>, i: nat, u: CharacterUpdate)
    requires i < |rows|
    requires KeysAscending(rows, CharacterId)
    ensures KeysAscending(rows[i := Patched(rows[i], u)], CharacterId)
    ensures forall j :: 0 <= j < |rows| ==>
      rows[i := Patched(rows[i], u)][j] == if rows[j].id == rows[i].id then Patched(rows[j], u) else rows[j]
  {
  }

  // ---------------------------------------------------------------- positions

  /** The first position row of character `characterId`, or `None`. */
  function GetPositionByCharacterId(positions: seq<Position>, characterId: int): (r: Option<Position>)
    ensures r.Some? ==> r.value in positions && r.value.characterId == characterId
    ensures r.Some? ==> exists i :: 0 <= i < |positions| && positions[i] == r.value &&
                                    (forall j :: 0 <= j < i ==> positions[j].characterId != characterId)
    ensures r.None? <==> forall p :: p in positions ==> p.characterId != characterId
  {
    Lookup(positions, PositionOwner, characterId)
  }

  /** The positions table after the upsert of `p`: the character's first row
      gets the new cell in place, or a new row is added when it has none. */
  function Upserted(positions: seq<Position>, p: PositionCreate): seq<Position> {
    match FindFirst(positions, PositionOwner, p.characterId)
    case Some(i) => positions[i := positions[i].(x := p.x, y := p.y)]
    case None => positions + [Position(NextKey(positions, PositionId), p.characterId, p.x, p.y)]
  }

  /** After an upsert the character is found at the new cell (in its old row when
      it had one), and every other character's position is as it was. */
  lemma UpsertLookup(positions: seq<Position>, p: PositionCreate, characterId: int)
    ensures characterId == p.characterId ==>
      var r := GetPositionByCharacterId(Upserted(positions, p), characterId);
      && r.Some? && r.value.x == p.x && r.value.y == p.y
      && (GetPositionByCharacterId(positions, characterId).Some? ==>
            r.value == GetPositionByCharacterId(positions, characterId).value.(x := p.x, y := p.y))
    ensures characterId != p.characterId ==>
      GetPositionByCharacterId(Upserted(positions, p), characterId) == GetPositionByCharacterId(positions, characterId)
  {
    var after := Upserted(positions, p);
    match FindFirst(positions, PositionOwner, p.characterId)
    case Some(i) =>
      FindFirstSameKeys(positions, after, PositionOwner, characterId);
    case None =>
      var row := Position(NextKey(positions, PositionId), p.characterId, p.x, p.y);
      LookupAppend(positions, row, PositionOwner, characterId);
  }

  /** Number of position rows of one character. */
  function RowsOf(positions: seq<Position>, characterId: int): nat {
    Count(positions, PositionOwner, characterId)
  }

  /** An upsert adds a row only for a character that had none, and touches no
      other character's rows. */
  lemma UpsertRowCount(positions: seq<Position>, p: PositionCreate, characterId: int)
    ensures RowsOf(Upserted(positions, p), characterId) ==
      if characterId != p.characterId then RowsOf(positions, characterId)
      else if RowsOf(positions, characterId) == 0 then 1
      else RowsOf(positions, characterId)
  {
    match FindFirst(positions, PositionOwner, p.characterId)
    case Some(i) =>
      CountReplaceSameKey(positions, i, positions[i].(x := p.x, y := p.y), PositionOwner, characterId);
    case None =>
      var row := Position(NextKey(positions, PositionId), p.characterId, p.x, p.y);
      CountAppend(positions, row, PositionOwner, characterId);
  }

  /** No character has two position rows. */
  ghost predicate OneRowPerCharacter(positions: seq<Position>) {
    forall i, j :: 0 <= i < j < |positions| ==> positions[i].characterId != positions[j].characterId
  }

  lemma UpsertKeepsOneRowPerCharacter(positions: seq<Position>, p: PositionCreate)
    requires OneRowPerCharacter(positions)
    ensures OneRowPerCharacter(Upserted(positions, p))
  {
  }

  /** Upserting the same row twice leaves the table as upserting it once. */
  lemma UpsertIdempotent(positions: seq<Position>, p: PositionCreate)
    ensures Upserted(Upserted(positions, p), p) == Upserted(positions, p)
  {
    var once := Upserted(positions, p);
    match FindFirst(positions, PositionOwner, p.characterId)
    case Some(i) =>
      FindFirstSameKeys(positions, once, PositionOwner, p.characterId);
    case None =>
      var row := Position(NextKey(positions, PositionId), p.characterId, p.x, p.y);
      assert forall j :: 0 <= j < |positions| ==> once[j] == positions[j];
      assert once[|positions|] == row;
      assert forall j :: 0 <= j < |positions| ==> PositionOwner(once[j]) != p.characterId;
      assert FindFirst(once, PositionOwner, p.characterId) == Some(|positions|);
  }

  /** Repeating an upsert on a table with at most one row for the character
      leaves exactly one row for it. */
  lemma RepeatedUpsertOneRow(positions: seq<Position>, p: PositionCreate)
    requires RowsOf(positions, p.characterId) <= 1
    ensures RowsOf(Upserted(Upserted(positions, p), p), p.characterId) == 1
  {
    UpsertIdempotent(positions, p);
    UpsertRowCount(positions, p, p.characterId);
  }

  /** The cells the position rows occupy: a cell is occupied exactly when some
      row stands on it. */
  function Occupied(positions: seq<Position>): (cells: set<(int, int)>)
    ensures forall q :: q in positions ==> (q.x, q.y) in cells
    ensures forall c :: c in cells ==> exists q :: q in positions && q.x == c.0 && q.y == c.1
  {
    set q | q in positions :: (q.x, q.y)
  }

  /** Consecutive rolls at `i` and `i + 1` are the x and y of one attempt. */
  ghost predicate AttemptAt(rolls: seq<int>, i: int, cell: (int, int)) {
    0 <= i && i + 1 < |rolls| && i % 2 == 0 && rolls[i] == cell.0 && rolls[i + 1] == cell.1
  }

  /** Every attempt before index `i` named a cell in `taken`. */
  ghost predicate AllTakenBefore(rolls: seq<int>, i: int, taken: set<(int, int)>)
    requires i <= |rolls|
  {
    forall j :: 0 <= j && j + 1 < i && j % 2 == 0 ==> (rolls[j], rolls[j + 1]) in taken
  }

  /** The first attempted cell outside `taken`, when the rolls are read two by two
      as (x, y) attempts; `None` when every complete attempt hits `taken`. */
  function FirstFree(rolls: seq<int>, taken: set<(int, int)>): (r: Option<(int, int)>)
    ensures r.Some? ==> r.value !in taken && exists i :: AttemptAt(rolls, i, r.value) && AllTakenBefore(rolls, i, taken)
    ensures r.None? ==> forall i :: 0 <= i && i + 1 < |rolls| && i % 2 == 0 ==> (rolls[i], rolls[i + 1]) in taken
    decreases |rolls|
  {
    if |rolls| < 2 then None
    else if (rolls[0], rolls[1]) !in taken then
      assert AttemptAt(rolls, 0, (rolls[0], rolls[1])) && AllTakenBefore(rolls, 0, taken);
      Some((rolls[0], rolls[1]))
    else
      var r := FirstFree(rolls[2..], taken);
      assert forall i :: 2 <= i < |rolls| ==> rolls[i] == rolls[2..][i - 2];
      assert r.Some? ==> exists i :: AttemptAt(rolls, i, r.value) && AllTakenBefore(rolls, i, taken) by {
        if r.Some? {
          var i :| AttemptAt(rolls[2..], i, r.value) && AllTakenBefore(rolls[2..], i, taken);
          assert AttemptAt(rolls, i + 2, r.value);
          assert AllTakenBefore(rolls, i + 2, taken);
        }
      }
      r
  }

  /** On a full grid no attempt succeeds, whatever the rolls: the search cannot end. */
  lemma FullGridNeverFree(gridSize: int, rolls: seq<int>, taken: set<(int, int)>)
    requires forall k :: 0 <= k < |rolls| ==> 0 <= rolls[k] < gridSize
    requires forall x, y :: 0 <= x < gridSize && 0 <= y < gridSize ==> (x, y) in taken
    ensures FirstFree(rolls, taken) == None
  {
  }

  /** Outcome of the free-cell search. */
  datatype Draw =
    | Free(x: int, y: int)
    | EmptyRange   // grid size below 1: the first roll raises
    | OutOfRolls   // the given rolls ran out before a free cell came up

  // ---------------------------------------------------------------- enemies

  /** The enemy whose id is `id`, or `None`. */
  function GetEnemyById(enemies: seq<Enemy>, id: int): (r: Option<Enemy>)
    ensures r.Some? ==> r.value in enemies && r.value.id == id
    ensures r.Some? ==> exists i :: 0 <= i < |enemies| && enemies[i] == r.value &&
                                    (forall j :: 0 <= j < i ==> enemies[j].id != id)
    ensures r.None? <==> forall e :: e in enemies ==> e.id != id
  {
    Lookup(enemies, EnemyId, id)
  }

  /** Every enemy row, in table order. */
  function GetEnemies(enemies: seq<Enemy>): (r: seq<Enemy>)
    ensures |r| == |enemies| && forall i :: 0 <= i < |r| ==> r[i] == enemies[i]
  {
    enemies
  }

  function EnemyPayload(e: Enemy): EnemyCreate {
    EnemyCreate(e.x, e.y, e.health)
  }

  // ---------------------------------------------------------------- the session

  /** The three tables of one database session; storage order is id order. */
  class Session {
    var characters: seq<Character>
    var positions: seq<Position>
    var enemies: seq<Enemy>

    ghost predicate Valid()
      reads this
    {
      && KeysAscending(characters, CharacterId)
      && KeysAscending(positions, PositionId)
      && KeysAscending(enemies, EnemyId)
    }

    constructor ()
      ensures Valid()
      ensures characters == [] && positions == [] && enemies == []
    {
      characters, positions, enemies := [], [], [];
    }

    /** Stores a new character holding exactly the payload's fields under an id
        no row had. */
    method CreateCharacter(c: CharacterCreate) returns (r: Character)
      requires Valid()
      modifies this
      ensures Valid()
      ensures Payload(r) == c
      ensures old(GetCharacter(characters, r.id)) == None
      ensures characters == old(characters) + [r]
      ensures GetCharacter(characters, r.id) == Some(r)
      ensures positions == old(positions) && enemies == old(enemies)
    {
      r := Character(NextKey(characters, CharacterId), c.name, c.image, c.health, c.armor, c.mana, c.kills);
      AppendNextKey(characters, CharacterId, r);
      LookupAppend(characters, r, CharacterId, r.id);
      characters := characters + [r];
    }

    /** Assigns the payload's set fields to the stored character one at a time;
        `None` and no change when no character has the id. */
    method UpdateCharacter(id: int, u: CharacterUpdate) returns (r: Option<Character>)
      requires Valid()
      modifies this
      ensures Valid()
      ensures old(GetCharacter(characters, id)).None? ==> r == None && characters == old(characters)
      ensures old(GetCharacter(characters, id)).Some? ==>
        r == Some(Patched(old(GetCharacter(characters, id)).value, u))
      ensures |characters| == |old(characters)|
      ensures forall j :: 0 <= j < |characters| ==>
        characters[j] == if old(characters)[j].id == id then Patched(old(characters)[j], u) else old(characters)[j]
      ensures positions == old(positions) && enemies == old(enemies)
    {
      var found := FindFirst(characters, CharacterId, id);
      if found.None? {
        return None;
      }
      var i := found.value;
      var stored := characters[i];
      var fields := SetFields(u);
      var j := 0;
      while j < |fields|
        invariant 0 <= j <= |fields|
        invariant characters == old(characters)[i := ApplyAll(stored, fields[..j])]
        invariant positions == old(positions) && enemies == old(enemies)
      {
        ApplyAllStep(stored, fields, j);
        characters := characters[i := SetAttr(characters[i], fields[j])];
        j := j + 1;
      }
      assert fields[..j] == fields;
      ApplySetFields(stored, u);
      PatchAt(old(characters), i, u);
      r := Some(characters[i]);
    }

    /** Removes the character with the id and returns it; `None` and no change
        when there is none. */
    method DeleteCharacter(id: int) returns (r: Option<Character>)
      requires Valid()
      modifies this
      ensures Valid()
      ensures r == old(GetCharacter(characters, id))
      ensures characters == Without(old(characters), CharacterId, id)
      ensures r.None? ==> characters == old(characters)
      ensures positions == old(positions) && enemies == old(enemies)
    {
      var found := FindFirst(characters, CharacterId, id);
      if found.None? {
        return None;
      }
      var i := found.value;
      r := Some(characters[i]);
      WithoutAt(characters, CharacterId, i);
      characters := characters[..i] + characters[i + 1..];
    }

    /** Moves the character's position row to the payload's cell, or adds a row
        when it has none. */
    method CreateOrUpdatePosition(p: PositionCreate) returns (r: Position)
      requires Valid()
      modifies this
      ensures Valid()
      ensures positions == Upserted(old(positions), p)
      ensures r.characterId == p.characterId && r.x == p.x && r.y == p.y
      ensures GetPositionByCharacterId(positions, p.characterId) == Some(r)
      ensures characters == old(characters) && enemies == old(enemies)
    {
      var found := FindFirst(positions, PositionOwner, p.characterId);
      if found.Some? {
        var i := found.value;
        r := positions[i].(x := p.x, y := p.y);
        positions := positions[i := r];
      } else {
        r := Position(NextKey(positions, PositionId), p.characterId, p.x, p.y);
        AppendNextKey(positions, PositionId, r);
        positions := positions + [r];
      }
      UpsertLookup(old(positions), p, p.characterId);
    }

    /** Snapshots the occupied cells, then reads the rolls two by two as (x, y)
        attempts until one names a free cell. */
    method RandomFreePosition(gridSize: int := DEFAULT_GRID_SIZE, rolls: seq<int>) returns (r: Draw)
      requires forall k :: 0 <= k < |rolls| ==> 0 <= rolls[k] < gridSize
      ensures gridSize < 1 <==> r == EmptyRange
      ensures r.Free? ==> 0 <= r.x < gridSize && 0 <= r.y < gridSize
      ensures r.Free? ==> (r.x, r.y) !in Occupied(positions)
      ensures gridSize >= 1 ==>
        (r.Free? <==> FirstFree(rolls, Occupied(positions)).Some?) &&
        (r.Free? ==> FirstFree(rolls, Occupied(positions)).value == (r.x, r.y))
    {
      var taken := Occupied(positions);
      if gridSize < 1 {
        return EmptyRange;
      }
      var i := 0;
      while i + 1 < |rolls|
        invariant 0 <= i <= |rolls| && i % 2 == 0
        invariant FirstFree(rolls[i..], taken) == FirstFree(rolls, taken)
      {
        var x := rolls[i];
        var y := rolls[i + 1];
        if (x, y) !in taken {
          return Free(x, y);
        }
        assert rolls[i..][2..] == rolls[i + 2..];
        i := i + 2;
      }
      return OutOfRolls;
    }

    /** Stores a new enemy holding exactly the payload's fields under an id no
        enemy had. */
    method CreateEnemy(e: EnemyCreate) returns (r: Enemy)
      requires Valid()
      modifies this
      ensures Valid()
      ensures EnemyPayload(r) == e
      ensures old(GetEnemyById(enemies, r.id)) == None
      ensures enemies == old(enemies) + [r]
      ensures GetEnemyById(enemies, r.id) == Some(r)
      ensures characters == old(characters) && positions == old(positions)
    {
      r := Enemy(NextKey(enemies, EnemyId), e.x, e.y, e.health);
      AppendNextKey(enemies, EnemyId, r);
      LookupAppend(enemies, r, EnemyId, r.id);
      enemies := enemies + [r];
    }
  }
}
