/** The game record that the room server keeps per room (`games[roomCode]`),
    its tiles, and the pure rules the handlers apply to it: the tile-type draw,
    the pot deltas, start-of-game construction and the turn pointer. */
module GameModel {
  import opened Wrappers
  import opened Lists
  import opened OrderedDict

  /** `socket.id`: one connection's identity, which doubles as the player id. */
  type Id = string

  /** The room code a lobby and a game are filed under. */
  type RoomCode = string

  datatype TileType = Silver | Black | Empty | Bonus

  /** A tile. Before it is revealed its type is the placeholder `Silver` and it
      has no revealer (the field is absent, i.e. `undefined`). */
  datatype Tile = Tile(id: int, kind: TileType, revealed: bool, revealedBy: Option<Id>)

  datatype Phase = Tiles | Vote | Final | Over

  /** A `choice` payload other than the two words the handlers recognise. */
  type OtherWord = w: string | w != "split" && w != "steal" witness ""

  /** The raw `choice` payload of a final decision: "split", "steal", or any
      other value a client may send. */
  datatype Choice = Split | Steal | Other(raw: OtherWord)

  datatype Game = Game(
    roomCode: RoomCode,
    players: seq<Id>,            // the active players, in lobby order
    eliminated: seq<Id>,         // voted out, in order of elimination
    host: Option<Id>,            // the lobby's first member when the game was built
    pot: int,
    tiles: seq<Tile>,
    currentPlayerId: Option<Id>,
    turns: int,
    phase: Phase,
    votes: Dict<Id>,             // voter -> target of the current round
    finalChoices: Dict<Choice>)  // submitter -> choice

  // ---------------------------------------------------------------------------
  // The tile-type draw

  /** `getRandomTileType`, with `Math.random()` replaced by the whole number
      `draw = floor(100 * Math.random())`. Because every threshold is a whole
      percentage, `rand < 0.5` holds exactly when `draw < 50`, and so on. */
  function TileTypeFor(draw: nat): (t: TileType)
    ensures t == Silver <==> draw < 50
    ensures t == Black <==> 50 <= draw < 70
    ensures t == Empty <==> 70 <= draw < 90
    ensures t == Bonus <==> 90 <= draw
  {
    if draw < 50 then Silver
    else if draw < 70 then Black
    else if draw < 90 then Empty
    else Bonus
  }

  /** The whole numbers `lo..hi-1`. */
  function Range(lo: int, hi: int): set<int>
    decreases hi - lo
  {
    if lo >= hi then {} else {lo} + Range(lo + 1, hi)
  }

  lemma {:induction false} RangeSpec(lo: int, hi: int)
    ensures forall d :: d in Range(lo, hi) <==> lo <= d < hi
    ensures lo <= hi ==> |Range(lo, hi)| == hi - lo
    decreases hi - lo
  {
    if lo < hi {
      RangeSpec(lo + 1, hi);
    }
  }

  /** The draws in 0..99 that yield tile type `t`. */
  function DrawsOf(t: TileType): set<int> {
    set d | d in Range(0, 100) && TileTypeFor(d) == t
  }

  /** The draws yielding `t` are the whole numbers `lo..hi-1`. */
  lemma DrawsAre(t: TileType, lo: int, hi: int)
    requires 0 <= lo <= hi <= 100
    requires forall d :: 0 <= d < 100 ==> (TileTypeFor(d) == t <==> lo <= d < hi)
    ensures |DrawsOf(t)| == hi - lo
  {
    RangeSpec(0, 100);
    RangeSpec(lo, hi);
    assert DrawsOf(t) == Range(lo, hi);
  }

  /** Over the hundred equally likely draws the types come out 50 : 20 : 20 : 10,
      that is silver 50%, black 20%, empty 20% and bonus 10%. */
  lemma DrawWeights()
    ensures |DrawsOf(Silver)| == 50
    ensures |DrawsOf(Black)| == 20
    ensures |DrawsOf(Empty)| == 20
    ensures |DrawsOf(Bonus)| == 10
  {
    DrawsAre(Silver, 0, 50);
    DrawsAre(Black, 50, 70);
    DrawsAre(Empty, 70, 90);
    DrawsAre(Bonus, 90, 100);
  }

  // ---------------------------------------------------------------------------
  // The pot

  /** What revealing a tile of type `t` adds to the pot. */
  function PotDelta(t: TileType): int {
    match t
    case Silver => 100
    case Black => -50
    case Empty => 0
    case Bonus => 200
  }

  /** Every pot change is a multiple of 50, and only a black tile lowers the pot. */
  lemma PotDeltaShape(t: TileType)
    ensures PotDelta(t) % 50 == 0
    ensures PotDelta(t) < 0 <==> t == Black
  {
  }

  /** The sum of the pot deltas of the revealed tiles. */
  function RevealedPot(tiles: seq<Tile>): int {
    if tiles == [] then 0
    else (if tiles[0].revealed then PotDelta(tiles[0].kind) else 0) + RevealedPot(tiles[1..])
  }

  /** The number of revealed tiles. */
  function RevealedCount(tiles: seq<Tile>): nat {
    if tiles == [] then 0
    else (if tiles[0].revealed then 1 else 0) + RevealedCount(tiles[1..])
  }

  /** Revealing one concealed tile adds exactly that tile's delta to the sum of
      the revealed tiles, and one to their number. */
  lemma {:induction false} RevealOne(tiles: seq<Tile>, i: nat, t: Tile)
    requires i < |tiles| && !tiles[i].revealed && t.revealed
    ensures RevealedPot(tiles[i := t]) == RevealedPot(tiles) + PotDelta(t.kind)
    ensures RevealedCount(tiles[i := t]) == RevealedCount(tiles) + 1
  {
    if i == 0 {
      assert tiles[i := t][1..] == tiles[1..];
    } else {
      RevealOne(tiles[1..], i - 1, t);
      assert tiles[i := t][1..] == tiles[1..][i - 1 := t];
    }
  }

  /** Every delta is a multiple of 50, so is the pot; in particular it is even
      and halving it is exact. */
  lemma {:induction false} PotMultipleOf50(tiles: seq<Tile>)
    ensures RevealedPot(tiles) % 50 == 0
  {
    if tiles != [] {
      PotMultipleOf50(tiles[1..]);
      PotDeltaShape(tiles[0].kind);
    }
  }

  /** Four tiles revealed by one player, silver, black, empty and bonus in
      that order, make a pot of 100 - 50 + 0 + 200. */
  lemma PotExample(s: Id)
    ensures RevealedPot([Tile(1, Silver, true, Some(s)), Tile(2, Black, true, Some(s)),
                         Tile(3, Empty, true, Some(s)), Tile(4, Bonus, true, Some(s))]) == 250
  {
    var t4 := [Tile(4, Bonus, true, Some(s))];
    var t3 := [Tile(3, Empty, true, Some(s))] + t4;
    var t2 := [Tile(2, Black, true, Some(s))] + t3;
    var t1 := [Tile(1, Silver, true, Some(s))] + t2;
    assert t4[1..] == [] && t3[1..] == t4 && t2[1..] == t3 && t1[1..] == t2;
    assert RevealedPot(t4) == 200;
    assert RevealedPot(t3) == 200;
    assert RevealedPot(t2) == 150;
    assert RevealedPot(t1) == 250;
    assert t1 == [Tile(1, Silver, true, Some(s)), Tile(2, Black, true, Some(s)),
                  Tile(3, Empty, true, Some(s)), Tile(4, Bonus, true, Some(s))];
  }

  // ---------------------------------------------------------------------------
  // Tiles

  /** Tile `i` carries id `i + 1`. */
  predicate TilesNumbered(tiles: seq<Tile>) {
    forall i :: 0 <= i < |tiles| ==> tiles[i].id == i + 1
  }

  /** A tile has a revealer exactly when it is revealed, and a concealed tile
      still carries the placeholder type. */
  predicate TileConsistent(t: Tile) {
    && (t.revealed <==> t.revealedBy.Some?)
    && (!t.revealed ==> t.kind == Silver)
  }

  /** `tiles.every(t => t.revealed)`. */
  predicate AllRevealed(tiles: seq<Tile>) {
    forall i :: 0 <= i < |tiles| ==> tiles[i].revealed
  }

  /** `tiles.find(t => t.id === id)`, as the position of the tile found, or
      `|tiles|` when there is none. */
  function FindTile(tiles: seq<Tile>, id: int): (i: nat)
    ensures i <= |tiles|
    ensures i < |tiles| ==> tiles[i].id == id
    ensures forall j :: 0 <= j < i ==> tiles[j].id != id
  {
    if tiles == [] then 0
    else if tiles[0].id == id then 0
    else 1 + FindTile(tiles[1..], id)
  }

  /** With tiles numbered 1..N, the tile with id `id` is found at position
      `id - 1` when `1 <= id <= N`, and there is none otherwise. */
  lemma FindNumbered(tiles: seq<Tile>, id: int)
    requires TilesNumbered(tiles)
    ensures FindTile(tiles, id) == if 1 <= id <= |tiles| then id - 1 else |tiles|
  {
    var f := FindTile(tiles, id);
    if 1 <= id <= |tiles| {
      assert tiles[id - 1].id == id;
    }
  }

  /** The tiles of a new game: `3 * n` concealed placeholder tiles. */
  function NewTiles(playerCount: nat): seq<Tile> {
    seq(3 * playerCount, i => Tile(i + 1, Silver, false, None))
  }

  // ---------------------------------------------------------------------------
  // Players and turns

  /** `lobby[0]`: the host by position, `undefined` for an empty lobby. */
  function HostOf(lobby: seq<Id>): Option<Id> {
    if |lobby| > 0 then Some(lobby[0]) else None
  }

  /** The next turn holder after `picker` revealed a tile:
      `players[(players.indexOf(picker) + 1) % players.length]`. A picker who is
      not an active player has index -1, so the turn goes to `players[0]`; with
      no players the index is NaN and the result `undefined`. */
  function NextTurn(players: seq<Id>, picker: Id): (r: Option<Id>)
    ensures r.None? <==> |players| == 0
    ensures r.Some? ==> r.value in players
    ensures picker !in players && |players| > 0 ==> r == Some(players[0])
  {
    if |players| == 0 then None
    else Some(players[(IndexOf(players, picker) + 1) % |players|])
  }

  /** In a duplicate-free player list the turn passes from position `k` to
      position `k + 1`, and from the last position back to the first. */
  lemma NextAfter(players: seq<Id>, k: nat)
    requires Distinct(players) && k < |players|
    ensures NextTurn(players, players[k]) == Some(players[(k + 1) % |players|])
    ensures (k + 1) % |players| == if k + 1 < |players| then k + 1 else 0
  {
    ModSmall(k + 1, |players|);
  }

  /** `x % n` for `0 <= x < 2n`. */
  lemma ModSmall(x: int, n: int)
    requires n > 0 && 0 <= x < 2 * n
    ensures x % n == if x < n then x else x - n
  {
    if x < n {
      assert x == 0 * n + x;
    } else {
      assert x == 1 * n + (x - n);
    }
  }

  /** The turn holder after `steps` picks, each by whoever holds the turn,
      starting from `start`. */
  function TurnAfter(players: seq<Id>, start: Id, steps: nat): Option<Id>
    decreases steps
  {
    if steps == 0 then Some(start)
    else match NextTurn(players, start)
      case None => None
      case Some(next) => TurnAfter(players, next, steps - 1)
  }

  /** When every pick is made by the turn holder, the turn walks round the
      player list in order: within one round, starting from position `i`, it is
      position `i + steps` (wrapping past the end to the front) after `steps`
      picks. */
  lemma {:induction false} TurnsGoRound(players: seq<Id>, i: nat, steps: nat)
    requires Distinct(players) && i < |players| && steps <= |players|
    ensures TurnAfter(players, players[i], steps) ==
              Some(players[if i + steps < |players| then i + steps else i + steps - |players|])
    decreases steps
  {
    if steps > 0 {
      NextAfter(players, i);
      var j := if i + 1 < |players| then i + 1 else 0;
      TurnsGoRound(players, j, steps - 1);
    }
  }

  /** After one pick by each player in turn, the turn is back where it began. */
  lemma FullRound(players: seq<Id>, i: nat)
    requires Distinct(players) && i < |players|
    ensures TurnAfter(players, players[i], |players|) == Some(players[i])
  {
    TurnsGoRound(players, i, |players|);
  }

  // ---------------------------------------------------------------------------
  // Starting a game

  /** The game record `game:start` files for a room whose lobby is `lobby`.
      `pick` stands for `Math.random()`: the first turn holder is
      `lobby[pick % |lobby|]`, which is `undefined` for an empty lobby. */
  function NewGame(room: RoomCode, lobby: seq<Id>, pick: nat): (g: Game)
    ensures g.roomCode == room && g.players == lobby && g.host == HostOf(lobby)
    ensures |g.tiles| == 3 * |lobby| && TilesNumbered(g.tiles)
    ensures forall i :: 0 <= i < |g.tiles| ==> !g.tiles[i].revealed && g.tiles[i].revealedBy.None?
    ensures g.pot == 0 && g.turns == 0 && g.phase == Tiles
    ensures g.eliminated == [] && g.votes == [] && g.finalChoices == []
    ensures g.currentPlayerId.Some? <==> |lobby| > 0
    ensures g.currentPlayerId.Some? ==> g.currentPlayerId.value in lobby
    ensures Distinct(lobby) ==> GameValid(g)
  {
    var tiles := NewTiles(|lobby|);
    var first := if |lobby| > 0 then Some(lobby[pick % |lobby|]) else None;
    var g := Game(room, lobby, [], HostOf(lobby), 0, tiles, first, 0, Tiles, [], []);
    NothingRevealed(tiles);
    g
  }

  /** Concealed tiles contribute nothing to the pot or the turn count. */
  lemma {:induction false} NothingRevealed(tiles: seq<Tile>)
    requires forall i :: 0 <= i < |tiles| ==> !tiles[i].revealed
    ensures RevealedPot(tiles) == 0 && RevealedCount(tiles) == 0
  {
    if tiles != [] {
      NothingRevealed(tiles[1..]);
    }
  }

  /** Every lobby member can be drawn as the first turn holder. */
  lemma AnyoneMayStart(room: RoomCode, lobby: seq<Id>, k: nat)
    requires k < |lobby|
    ensures NewGame(room, lobby, k).currentPlayerId == Some(lobby[k])
  {
  }

  // ---------------------------------------------------------------------------
  // The invariant of a game record

  /** What every game record the server files satisfies:
      the tiles are numbered 1..N and consistent; the pot is the sum of the
      revealed tiles' deltas and the turn counter their number; the active and
      eliminated players are duplicate-free and disjoint; every vote is by and
      for an active player; once the tile phase is left every tile is revealed;
      and the final and over phases have exactly two active players. */
  ghost predicate GameValid(g: Game) {
    && TilesNumbered(g.tiles)
    && (forall i :: 0 <= i < |g.tiles| ==> TileConsistent(g.tiles[i]))
    && g.pot == RevealedPot(g.tiles)
    && g.turns == RevealedCount(g.tiles)
    && Distinct(g.players)
    && Distinct(g.eliminated)
    && (forall i :: 0 <= i < |g.eliminated| ==> g.eliminated[i] !in g.players)
    && WellFormed(g.votes)
    && (forall e :: e in g.votes ==> e.0 in g.players && e.1 in g.players)
    && WellFormed(g.finalChoices)
    && (g.phase != Tiles ==> AllRevealed(g.tiles))
    && (g.phase == Final || g.phase == Over ==> |g.players| == 2)
  }

  /** Revealing a concealed tile of a valid game (which is therefore still in
      the tile phase) keeps it valid, whichever phase the reveal leads to. */
  lemma RevealKeepsValid(g: Game, i: nat, socket: Id, kind: TileType)
    requires GameValid(g) && i < |g.tiles| && !g.tiles[i].revealed
    ensures g.phase == Tiles
    ensures var tiles := g.tiles[i := Tile(i + 1, kind, true, Some(socket))];
            var done := AllRevealed(tiles);
            GameValid(g.(tiles := tiles, pot := g.pot + PotDelta(kind), turns := g.turns + 1,
                         currentPlayerId := NextTurn(g.players, socket),
                         phase := if done && |g.players| == 2 then Final
                                  else if done && |g.players| > 2 then Vote
                                  else g.phase))
  {
    RevealOne(g.tiles, i, Tile(i + 1, kind, true, Some(socket)));
  }

}
