/** The persistent records of the game: the `Player` row (src/player/player.entity.ts)
    and the fields of the `Game` row that the player code reads and writes. A
    database table is a map from primary key to row; a foreign key is an
    optional primary key. */
module PlayerEntity {
  import opened Common

  /** The row of one player. `game` and `currentTarget` are nullable foreign keys
      (the primary key of a game, of another player). */
  datatype Player = Player(
    nickname: string,
    secretCode: string,
    isAlive: bool,
    game: Option<int>,
    currentTarget: Option<int>,
    kills: nat)

  datatype GameStatus = Waiting | InProgress | Finished

  /** The columns of a game that the player code uses; `finishedAt` is a clock reading. */
  datatype Game = Game(status: GameStatus, winner: Option<int>, finishedAt: Option<int>)

  type Table = map<int, Player>
  type Games = map<int, Game>

  /** A freshly created row: the column defaults (`isAlive` true, `kills` 0) and no target. */
  function NewPlayer(nickname: string, secretCode: string, game: Option<int>): (p: Player)
    ensures p.isAlive && p.kills == 0 && p.currentTarget == None
    ensures p.nickname == nickname && p.secretCode == secretCode && p.game == game
  {
    Player(nickname, secretCode, true, game, None, 0)
  }

  /** Player `id` belongs to game `g`. */
  predicate InGame(t: Table, id: int, g: int)
  {
    id in t && t[id].game == Some(g)
  }

  /** The two unique constraints `(secretCode, game)` and `(nickname, game)`. A
      player without a game (a NULL `game`) is not constrained, as SQL
      uniqueness ignores NULLs. */
  predicate UniqueInGames(t: Table)
  {
    forall a, b :: a in t && b in t && a != b && t[a].game.Some? && t[a].game == t[b].game ==>
      t[a].nickname != t[b].nickname && t[a].secretCode != t[b].secretCode
  }

  /** Every foreign key names an existing row. */
  predicate ReferencesValid(t: Table, games: Games)
  {
    forall id :: id in t ==>
      (t[id].game.Some? ==> t[id].game.value in games) &&
      (t[id].currentTarget.Some? ==> t[id].currentTarget.value in t)
  }

  /** The `game` relation as the ORM loads it: null when the key is null or names no row. */
  function GameOf(t: Table, games: Games, id: int): (g: Option<int>)
    requires id in t
    ensures g.Some? <==> t[id].game.Some? && t[id].game.value in games
    ensures g.Some? ==> g == t[id].game
  {
    if t[id].game.Some? && t[id].game.value in games then t[id].game else None
  }

  /** The `currentTarget` relation as the ORM loads it. */
  function TargetOf(t: Table, id: int): (v: Option<int>)
    requires id in t
    ensures v.Some? <==> t[id].currentTarget.Some? && t[id].currentTarget.value in t
    ensures v.Some? ==> v == t[id].currentTarget
  {
    if t[id].currentTarget.Some? && t[id].currentTarget.value in t then t[id].currentTarget else None
  }

  /** With every foreign key resolving, the loaded relations are the stored keys:
      the relation is null exactly when the column is. */
  lemma LoadedRelationsMatchKeys(t: Table, games: Games, id: int)
    requires ReferencesValid(t, games) && id in t
    ensures GameOf(t, games, id) == t[id].game
    ensures TargetOf(t, id) == t[id].currentTarget
  {
  }

  /** Some player of game `g` already uses `nickname`. */
  predicate NicknameTaken(t: Table, g: int, nickname: string)
  {
    exists id :: id in t && t[id].game == Some(g) && t[id].nickname == nickname
  }

  /** Some player of game `g` already holds `code`. */
  predicate CodeTaken(t: Table, g: int, code: string)
  {
    exists id :: id in t && t[id].game == Some(g) && t[id].secretCode == code
  }

  /** `ON DELETE SET NULL` on `currentTarget`: deleting the rows `ids` keeps every
      other row and clears each pointer that named a deleted row. */
  function DeletePlayers(t: Table, ids: set<int>): (r: Table)
    ensures r.Keys == t.Keys - ids
  {
    map id | id in t && id !in ids ::
      var p := t[id];
      if p.currentTarget.Some? && p.currentTarget.value in ids then p.(currentTarget := None) else p
  }

  /** Deleting players leaves no dangling target, keeps the unique constraints,
      clears exactly the pointers into the deleted set and changes no other column. */
  lemma DeletePlayersKeepsIntegrity(t: Table, games: Games, ids: set<int>)
    requires ReferencesValid(t, games) && UniqueInGames(t)
    ensures ReferencesValid(DeletePlayers(t, ids), games)
    ensures UniqueInGames(DeletePlayers(t, ids))
    ensures forall id :: id in DeletePlayers(t, ids) ==>
      var p, q := t[id], DeletePlayers(t, ids)[id];
      q.nickname == p.nickname && q.secretCode == p.secretCode && q.isAlive == p.isAlive &&
      q.game == p.game && q.kills == p.kills &&
      (q.currentTarget == None <==> p.currentTarget == None || p.currentTarget.value in ids)
  {
  }

  /** `ON DELETE SET NULL` on `game`: deleting game `g` detaches its players
      instead of deleting them. */
  function DeleteGame(t: Table, g: int): (r: Table)
    ensures r.Keys == t.Keys
  {
    map id | id in t :: if t[id].game == Some(g) then t[id].(game := None) else t[id]
  }

  /** After deleting a game, its former players have no game, keep every other
      column, and the constraints still hold against the remaining games. */
  lemma DeleteGameKeepsIntegrity(t: Table, games: Games, g: int)
    requires ReferencesValid(t, games) && UniqueInGames(t)
    ensures ReferencesValid(DeleteGame(t, g), games - {g})
    ensures UniqueInGames(DeleteGame(t, g))
    ensures forall id :: id in t ==>
      var p, q := t[id], DeleteGame(t, g)[id];
      (q.game == None <==> p.game == None || p.game == Some(g)) &&
      q == p.(game := q.game)
  {
  }
}
