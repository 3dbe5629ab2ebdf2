/** The authoritative room server: the two shared registries `lobbies` (room
    code -> ordered list of socket ids, the host being the first) and `games`
    (room code -> game record), and one method per socket event handler.
    Each handler runs to completion and returns the events it emits, in order. */
module RoomServer {
  import opened Wrappers
  import opened Lists
  import opened OrderedDict
  import opened GameModel
  import opened Voting
  import opened FinalRound

  /** The payload of an outbound event. */
  datatype Event =
    | LobbyUpdate(players: seq<Id>, host: Option<Id>)
    | GameInit(game: Game)
    | GameNotFound
    | Ack                       // the acknowledgment callback, when the client passed one
    | TileRevealed(tileId: int, kind: TileType, revealedBy: Id, pot: int,
                   currentPlayerId: Option<Id>, turns: int)
    | FinalStart(pot: int, players: seq<Id>)
    | GameVote(pot: int, players: seq<Id>)
    | PlayerEliminated(eliminated: Id, players: seq<Id>, eliminatedList: seq<Id>)
    | VotingNext(players: seq<Id>)
    | GameOver(pot: int, result: Outcome)
    | ChatMessage(author: string, text: string)
    | FinalResult(settlement: Settlement)
    | GameNotEnough(message: string)
    | GameStart

  /** An emitted event: broadcast to a room (`io.to(room).emit`) or sent to the
      calling socket alone (`socket.emit`, or the callback). */
  datatype Emit = ToRoom(room: RoomCode, event: Event) | ToCaller(event: Event)

  /** The update broadcast to a lobby after `socket` left it. */
  function LeftUpdate(lobby: seq<Id>, socket: Id): Event {
    LobbyUpdate(Remove(lobby, socket), HostOf(Remove(lobby, socket)))
  }

  /** The broadcasts of a disconnect after visiting the first `n` rooms of
      `rooms`, in that order: one lobby update to each visited room whose
      lobby held the socket, and no other. */
  function LeftUpdates(rooms: seq<RoomCode>, n: nat, lobbies: map<RoomCode, seq<Id>>, socket: Id): (out: seq<Emit>)
    requires n <= |rooms|
    ensures |out| <= n
  {
    if n == 0 then []
    else
      var r := rooms[n - 1];
      LeftUpdates(rooms, n - 1, lobbies, socket) +
        (if r in lobbies && socket in lobbies[r] then [ToRoom(r, LeftUpdate(lobbies[r], socket))] else [])
  }

  /** A disconnect broadcasts to exactly the visited rooms whose lobby listed
      the socket, each update showing that lobby without it. */
  lemma {:induction false} LeftUpdatesExact(rooms: seq<RoomCode>, n: nat, lobbies: map<RoomCode, seq<Id>>, socket: Id)
    requires n <= |rooms|
    ensures forall k :: 0 <= k < |LeftUpdates(rooms, n, lobbies, socket)| ==>
              var e := LeftUpdates(rooms, n, lobbies, socket)[k];
              e.ToRoom? && e.room in rooms[..n] && e.room in lobbies && socket in lobbies[e.room] &&
              e.event == LeftUpdate(lobbies[e.room], socket)
    ensures forall j :: 0 <= j < n && rooms[j] in lobbies && socket in lobbies[rooms[j]] ==>
              ToRoom(rooms[j], LeftUpdate(lobbies[rooms[j]], socket)) in LeftUpdates(rooms, n, lobbies, socket)
  {
    if n > 0 {
      LeftUpdatesExact(rooms, n - 1, lobbies, socket);
      assert rooms[..n] == rooms[..n - 1] + [rooms[n - 1]];
    }
  }

  /** The host is whoever is at position 0: when the host leaves, the next
      member becomes host; when anybody else leaves, the host stays. */
  lemma HostAfterLeave(lobby: seq<Id>, socket: Id)
    requires Distinct(lobby) && socket in lobby
    ensures HostOf(Remove(lobby, socket)) ==
              if lobby[0] != socket then Some(lobby[0])
              else if |lobby| > 1 then Some(lobby[1])
              else None
  {
    RemoveCutsOut(lobby, socket);
    var i := IndexOf(lobby, socket);
    if i > 0 {
      assert Remove(lobby, socket)[0] == lobby[..i][0];
    } else if |lobby| > 1 {
      assert Remove(lobby, socket)[0] == lobby[1..][0];
    }
  }

  /** Joining never changes the host of a lobby that has one. */
  lemma JoinKeepsHost(lobby: seq<Id>, socket: Id)
    requires |lobby| > 0
    ensures HostOf(AddIfAbsent(lobby, socket)) == Some(lobby[0])
  {
    assert AddIfAbsent(lobby, socket)[..|lobby|][0] == lobby[0];
  }

  /** No lobby lists a socket twice, and `order` lists each lobby's room once. */
  ghost predicate LobbiesValid(lobbies: map<RoomCode, seq<Id>>, order: seq<RoomCode>) {
    && (forall r :: r in lobbies ==> Distinct(lobbies[r]))
    && Distinct(order)
    && lobbies.Keys == Elements(order)
  }

  /** The game record of a room. */
  function GameAt(games: map<RoomCode, Game>, r: RoomCode): Game
    requires r in games
  {
    games[r]
  }

  /** Every game record is valid. The validity of one record is drawn out of
      this on request (`ValidAt`), so that the records a handler does not
      touch stay out of its proof. */
  ghost predicate GamesValid(games: map<RoomCode, Game>) {
    forall r {:trigger GameAt(games, r)} :: r in games ==> GameValid(GameAt(games, r))
  }

  /** The record filed under `room` is valid. */
  lemma ValidAt(games: map<RoomCode, Game>, room: RoomCode)
    requires GamesValid(games) && room in games
    ensures GameValid(games[room])
  {
    assert GameValid(GameAt(games, room));
  }

  /** Giving a room a duplicate-free lobby keeps the lobby registry valid. */
  lemma FileLobby(lobbies: map<RoomCode, seq<Id>>, order: seq<RoomCode>, room: RoomCode, lobby: seq<Id>)
    requires LobbiesValid(lobbies, order) && Distinct(lobby)
    ensures LobbiesValid(lobbies[room := lobby], AddIfAbsent(order, room))
  {
  }

  /** Taking one socket out of every lobby keeps the registry valid. */
  lemma LeavingKeepsValid(lobbies: map<RoomCode, seq<Id>>, left: map<RoomCode, seq<Id>>, order: seq<RoomCode>, socket: Id)
    requires LobbiesValid(lobbies, order) && left.Keys == lobbies.Keys
    requires forall r :: r in left ==> left[r] == Remove(lobbies[r], socket)
    ensures LobbiesValid(left, order)
  {
    forall r | r in left ensures Distinct(left[r]) {
      RemoveDistinct(lobbies[r], socket);
    }
  }

  /** The registry after a disconnect has visited the first `n` rooms of
      `rooms`, in that order: each visited room whose lobby (as it was when
      the visit began) listed the socket gets that lobby without it. */
  function LeaveRooms(rooms: seq<RoomCode>, n: nat, lobbies: map<RoomCode, seq<Id>>, socket: Id): (left: map<RoomCode, seq<Id>>)
    requires n <= |rooms|
    ensures left.Keys == lobbies.Keys
  {
    if n == 0 then lobbies
    else
      var r, before := rooms[n - 1], LeaveRooms(rooms, n - 1, lobbies, socket);
      if r in lobbies && socket in lobbies[r] then before[r := Remove(lobbies[r], socket)] else before
  }

  /** Visiting rooms that occur once each takes the socket out of the visited
      lobbies and leaves the others alone. */
  lemma {:induction false} LeaveRoomsRemoves(rooms: seq<RoomCode>, n: nat, lobbies: map<RoomCode, seq<Id>>, socket: Id)
    requires n <= |rooms| && Distinct(rooms)
    requires forall k :: 0 <= k < |rooms| ==> rooms[k] in lobbies
    ensures forall k :: 0 <= k < n ==>
              LeaveRooms(rooms, n, lobbies, socket)[rooms[k]] == Remove(lobbies[rooms[k]], socket)
    ensures forall k :: n <= k < |rooms| ==>
              LeaveRooms(rooms, n, lobbies, socket)[rooms[k]] == lobbies[rooms[k]]
  {
    if n > 0 {
      LeaveRoomsRemoves(rooms, n - 1, lobbies, socket);
    }
  }

  /** Once every room has been visited, every lobby has lost the socket. */
  lemma LeftEveryLobby(rooms: seq<RoomCode>, lobbies: map<RoomCode, seq<Id>>, socket: Id)
    requires Distinct(rooms) && lobbies.Keys == Elements(rooms)
    ensures forall r :: r in lobbies ==>
              LeaveRooms(rooms, |rooms|, lobbies, socket)[r] == Remove(lobbies[r], socket)
  {
    LeaveRoomsRemoves(rooms, |rooms|, lobbies, socket);
    forall r | r in lobbies
      ensures LeaveRooms(rooms, |rooms|, lobbies, socket)[r] == Remove(lobbies[r], socket)
    {
      assert r in Elements(rooms);
      var k := IndexOf(rooms, r);
    }
  }

  /** The loop of `disconnect`, over a snapshot of the registry's entries in
      insertion order: every lobby that lists the socket is replaced by the
      lobby without it, and its room gets the update. */
  method LeaveAll(rooms: seq<RoomCode>, lobbies: map<RoomCode, seq<Id>>, socket: Id)
    returns (left: map<RoomCode, seq<Id>>, out: seq<Emit>)
    ensures left == LeaveRooms(rooms, |rooms|, lobbies, socket)
    ensures out == LeftUpdates(rooms, |rooms|, lobbies, socket)
  {
    left := lobbies;
    out := [];
    var i := 0;
    while i < |rooms|
      invariant 0 <= i <= |rooms|
      invariant left == LeaveRooms(rooms, i, lobbies, socket)
      invariant out == LeftUpdates(rooms, i, lobbies, socket)
    {
      var room := rooms[i];
      if room in lobbies && socket in lobbies[room] {
        var players := lobbies[room];
        left := left[room := Remove(players, socket)];
        out := out + [ToRoom(room, LobbyUpdate(left[room], HostOf(left[room])))];
      }
      i := i + 1;
    }
  }

  /** Recording a vote between two active players keeps a game valid, and
      so does moving a two-player round on to the final. */
  lemma VoteKeepsValid(g: Game, socket: Id, voted: Id)
    requires GameValid(g) && g.phase == Vote
    requires socket in g.players && voted in g.players
    ensures GameValid(g.(votes := Put(g.votes, socket, voted)))
    ensures |g.players| == 2 ==> GameValid(g.(votes := Put(g.votes, socket, voted), phase := Final))
  {
    var votes := Put(g.votes, socket, voted);
    forall e | e in votes ensures e.0 in g.players && e.1 in g.players {
      assert e in g.votes || e == (socket, voted);
    }
  }

  /** Every vote names an active player, so the player a complete round
      eliminates is one of them. */
  lemma EliminatedIsPlayer(g: Game, pick: nat)
    requires GameValid(g) && |g.votes| > 0
    ensures Eliminee(Values(g.votes), pick) in g.players
  {
    var values := Values(g.votes);
    var k :| 0 <= k < |values| && values[k] == Eliminee(values, pick);
    assert g.votes[k] in g.votes;
  }

  /** Eliminating an active player keeps a game valid: the player moves from
      the active list to the end of the eliminated list, the votes are
      cleared, and the game reaches the final exactly when two remain. */
  lemma EliminationKeepsValid(g: Game, e: Id)
    requires GameValid(g) && g.phase == Vote && e in g.players
    ensures var players := Remove(g.players, e);
            GameValid(g.(players := players, eliminated := g.eliminated + [e], votes := [],
                         phase := if |players| == 2 then Final else Vote))
  {
    var players := Remove(g.players, e);
    RemoveDistinct(g.players, e);
    forall i | 0 <= i < |g.eliminated + [e]| ensures (g.eliminated + [e])[i] !in players {
      if i < |g.eliminated| {
        assert (g.eliminated + [e])[i] == g.eliminated[i];
      }
    }
    assert Distinct(g.eliminated + [e]) by {
      forall i, j | 0 <= i < j < |g.eliminated + [e]|
        ensures (g.eliminated + [e])[i] != (g.eliminated + [e])[j]
      {
        if j == |g.eliminated| {
          assert g.eliminated[i] !in g.players;
        }
      }
    }
  }

  /** Filing a valid record under a room keeps every record valid. */
  lemma FileGame(games: map<RoomCode, Game>, room: RoomCode, g: Game)
    requires GamesValid(games) && GameValid(g)
    ensures GamesValid(games[room := g])
  {
    var filed := games[room := g];
    forall r | r in filed
      ensures GameValid(GameAt(filed, r))
    {
      if r != room {
        assert GameAt(filed, r) == GameAt(games, r);
      }
    }
  }

  class Server {
    var lobbies: map<RoomCode, seq<Id>>
    /** The keys of `lobbies` in the order `Object.entries` lists them: the
        order in which each room code was first given a lobby. */
    var roomOrder: seq<RoomCode>
    var games: map<RoomCode, Game>

    /** No lobby lists a socket twice, `roomOrder` lists each lobby's room
        once, and every game record is valid. */
    ghost predicate Valid()
      reads this
    {
      LobbiesValid(lobbies, roomOrder) && GamesValid(games)
    }

    constructor ()
      ensures Valid() && lobbies == map[] && roomOrder == [] && games == map[]
    {
      lobbies, roomOrder, games := map[], [], map[];
    }

    /** `game:create`: the room's lobby becomes exactly the caller, replacing
        any lobby the room had; the caller is host. */
    method Create(socket: Id, room: RoomCode) returns (out: seq<Emit>)
      requires Valid()
      modifies this
      ensures Valid()
      ensures lobbies == old(lobbies)[room := [socket]]
      ensures roomOrder == AddIfAbsent(old(roomOrder), room)
      ensures games == old(games)
      ensures out == [ToRoom(room, LobbyUpdate([socket], Some(socket))), ToCaller(Ack)]
    {
      lobbies := lobbies[room := [socket]];
      roomOrder := AddIfAbsent(roomOrder, room);
      out := [ToRoom(room, LobbyUpdate(lobbies[room], HostOf(lobbies[room]))), ToCaller(Ack)];
    }

    /** A join is turned away when the room has a game the caller is not an
        active player of. */
    predicate JoinRejected(socket: Id, room: RoomCode)
      reads this
    {
      room in games && socket !in games[room].players
    }

    /** `game:join`: makes sure the room has a lobby (an empty one if need be);
        a rejected caller is told the game was not found and the lobby keeps
        its members; otherwise the caller is appended if absent, the lobby is
        broadcast, and so is the game if one has started. */
    method Join(socket: Id, room: RoomCode) returns (out: seq<Emit>)
      requires Valid()
      modifies this
      ensures Valid()
      ensures games == old(games)
      ensures roomOrder == AddIfAbsent(old(roomOrder), room)
      ensures room in lobbies
      ensures var before := if room in old(lobbies) then old(lobbies)[room] else [];
              if JoinRejected(socket, room) then
                lobbies == old(lobbies)[room := before] && out == [ToCaller(GameNotFound)]
              else
                var after := AddIfAbsent(before, socket);
                && lobbies == old(lobbies)[room := after]
                && out == [ToRoom(room, LobbyUpdate(after, Some(after[0])))]
                          + (if room in games then [ToRoom(room, GameInit(games[room]))] else [])
                          + [ToCaller(Ack)]
    {
      var before := if room in lobbies then lobbies[room] else [];
      FileLobby(lobbies, roomOrder, room, before);
      lobbies := lobbies[room := before];
      roomOrder := AddIfAbsent(roomOrder, room);
      if room in games && socket !in games[room].players {
        return [ToCaller(GameNotFound)];
      }
      var after := AddIfAbsent(before, socket);
      FileLobby(lobbies, roomOrder, room, after);
      lobbies := lobbies[room := after];
      out := [ToRoom(room, LobbyUpdate(after, HostOf(after)))];
      if room in games {
        out := out + [ToRoom(room, GameInit(games[room]))];
      }
      out := out + [ToCaller(Ack)];
    }

    /** `disconnect`: takes the socket out of every lobby that lists it and
        broadcasts each such lobby. Games, and their player lists, are left as
        they are. */
    method Disconnect(socket: Id) returns (out: seq<Emit>)
      requires Valid()
      modifies this
      ensures Valid()
      ensures lobbies.Keys == old(lobbies).Keys
      ensures forall r :: r in lobbies ==> lobbies[r] == Remove(old(lobbies)[r], socket)
      ensures roomOrder == old(roomOrder) && games == old(games)
      ensures out == LeftUpdates(roomOrder, |roomOrder|, old(lobbies), socket)
    {
      var left;
      left, out := LeaveAll(roomOrder, lobbies, socket);
      LeftEveryLobby(roomOrder, lobbies, socket);
      LeavingKeepsValid(lobbies, left, roomOrder, socket);
      lobbies := left;
    }

    /** `game:start`: when the room has a lobby, files a new game built from
        it (the lobby's members become the players) and broadcasts it;
        otherwise nothing happens. `pick` stands for the random draw of the
        first turn holder. The handler does not check who asks. */
    method Start(room: RoomCode, pick: nat) returns (out: seq<Emit>)
      requires Valid()
      modifies this
      ensures Valid()
      ensures lobbies == old(lobbies) && roomOrder == old(roomOrder)
      ensures room !in lobbies ==> games == old(games) && out == []
      ensures room in lobbies ==>
                && games == old(games)[room := NewGame(room, lobbies[room], pick)]
                && out == [ToRoom(room, GameInit(games[room]))]
    {
      if room !in lobbies {
        return [];
      }
      var game := NewGame(room, lobbies[room], pick);
      FileGame(games, room, game);
      games := games[room := game];
      out := [ToRoom(room, GameInit(game))];
    }

    /** A pick reveals something when the room has a game and a lobby and the
        id names a tile that is still concealed. */
    predicate PickAccepted(room: RoomCode, tileId: int)
      reads this
    {
      && room in games
      && room in lobbies
      && 1 <= tileId <= |games[room].tiles|
      && !games[room].tiles[tileId - 1].revealed
    }

    /** `pick:tile`: reveals the tile once, with the type drawn by `draw`,
        attributes it to the caller, applies the type's pot delta, counts the
        turn and passes it on; once every tile is revealed the game moves on to
        the final (two players) or to voting (more). Turn order is not
        enforced: any socket may pick. */
    method PickTile(socket: Id, room: RoomCode, tileId: int, draw: nat) returns (out: seq<Emit>)
      requires Valid()
      modifies this
      ensures Valid()
      ensures lobbies == old(lobbies) && roomOrder == old(roomOrder)
      ensures !old(PickAccepted(room, tileId)) ==> games == old(games) && out == []
      ensures old(PickAccepted(room, tileId)) ==>
                var g0 := old(games[room]);
                var kind := TileTypeFor(draw);
                var tiles := g0.tiles[tileId - 1 := Tile(tileId, kind, true, Some(socket))];
                var pot, turns, next := g0.pot + PotDelta(kind), g0.turns + 1, NextTurn(g0.players, socket);
                var done := AllRevealed(tiles);
                var phase := if done && |g0.players| == 2 then Final
                             else if done && |g0.players| > 2 then Vote
                             else g0.phase;
                && g0.phase == Tiles
                && games == old(games)[room := g0.(tiles := tiles, pot := pot, turns := turns,
                                                 currentPlayerId := next, phase := phase)]
                && out == [ToRoom(room, TileRevealed(tileId, kind, socket, pot, next, turns))]
                          + (if phase == Final then [ToRoom(room, FinalStart(pot, g0.players))]
                             else if phase == Vote then [ToRoom(room, GameVote(pot, g0.players))]
                             else [])
    {
      if room !in games || room !in lobbies {
        return [];
      }
      var game := games[room];
      ValidAt(games, room);
      var i := FindTile(game.tiles, tileId);
      FindNumbered(game.tiles, tileId);
      if i == |game.tiles| || game.tiles[i].revealed {
        return [];
      }
      var kind := TileTypeFor(draw);
      RevealKeepsValid(game, i, socket, kind);
      var tiles := game.tiles[i := Tile(tileId, kind, true, Some(socket))];
      game := game.(tiles := tiles, pot := game.pot + PotDelta(kind), turns := game.turns + 1,
                    currentPlayerId := NextTurn(game.players, socket));
      out := [ToRoom(room, TileRevealed(tileId, kind, socket, game.pot, game.currentPlayerId, game.turns))];
      if AllRevealed(game.tiles) && |game.players| == 2 {
        game := game.(phase := Final);
        out := out + [ToRoom(room, FinalStart(game.pot, game.players))];
      }
      if AllRevealed(game.tiles) && |game.players| > 2 {
        game := game.(phase := Vote);
        out := out + [ToRoom(room, GameVote(game.pot, game.players))];
      }
      FileGame(games, room, game);
      games := games[room := game];
    }

    /** A vote is recorded when the room's game is in the vote phase and both
        the caller and the target are active players. */
    predicate VoteAccepted(socket: Id, room: RoomCode, voted: Id)
      reads this
    {
      room in games && games[room].phase == Vote &&
      socket in games[room].players && voted in games[room].players
    }

    /** `vote:submit`: records (or overwrites) the caller's vote. Once as many
        voters as active players have voted, the round resolves: with two
        players the game goes straight to the final; otherwise a player with
        the highest tally (ties broken by `pick`) is eliminated, the votes are
        cleared, and the game goes to the final when two players remain and
        stays in the vote phase otherwise. The `voter` field of the payload is
        not read. */
    method SubmitVote(socket: Id, room: RoomCode, voted: Id, pick: nat) returns (out: seq<Emit>)
      requires Valid()
      modifies this
      ensures Valid()
      ensures lobbies == old(lobbies) && roomOrder == old(roomOrder)
      ensures !old(VoteAccepted(socket, room, voted)) ==> games == old(games) && out == []
      ensures old(VoteAccepted(socket, room, voted)) ==>
                var g0 := old(games[room]);
                var votes := Put(g0.votes, socket, voted);
                if |votes| != |g0.players| then
                  games == old(games)[room := g0.(votes := votes)] && out == []
                else if |g0.players| == 2 then
                  && games == old(games)[room := g0.(votes := votes, phase := Final)]
                  && out == [ToRoom(room, FinalStart(g0.pot, g0.players))]
                else
                  var e := Eliminee(Values(votes), pick);
                  var players := Remove(g0.players, e);
                  var phase := if |players| == 2 then Final else Vote;
                  && e in g0.players
                  && |players| == |g0.players| - 1
                  && games == old(games)[room := g0.(players := players, eliminated := g0.eliminated + [e],
                                                   votes := [], phase := phase)]
                  && out == [ToRoom(room, PlayerEliminated(e, players, g0.eliminated + [e]))]
                            + (if phase == Final then [ToRoom(room, FinalStart(g0.pot, players))]
                               else [ToRoom(room, VotingNext(players))])
    {
      if room !in games || games[room].phase != Vote {
        return [];
      }
      var game := games[room];
      if socket !in game.players || voted !in game.players {
        return [];
      }
      ValidAt(games, room);
      VoteKeepsValid(game, socket, voted);
      game := game.(votes := Put(game.votes, socket, voted));
      if |game.votes| != |game.players| {
        FileGame(games, room, game);
        games := games[room := game];
        return [];
      }
      var values := Values(game.votes);
      assert socket in Keys(game.votes);
      EliminationDraw(values, pick);
      var tally := CountVotes(values);
      var maxVotes := MaxCount(tally);
      var candidates := Candidates(tally, maxVotes);
      if |game.players| == 2 {
        game := game.(phase := Final);
        FileGame(games, room, game);
        games := games[room := game];
        return [ToRoom(room, FinalStart(game.pot, game.players))];
      }
      var eliminated := candidates[pick % |candidates|];
      EliminatedIsPlayer(game, pick);
      RemoveCutsOut(game.players, eliminated);
      EliminationKeepsValid(game, eliminated);
      game := game.(players := Remove(game.players, eliminated), eliminated := game.eliminated + [eliminated], votes := []);
      out := [ToRoom(room, PlayerEliminated(eliminated, game.players, game.eliminated))];
      if |game.players| == 2 {
        game := game.(phase := Final);
        out := out + [ToRoom(room, FinalStart(game.pot, game.players))];
      } else {
        out := out + [ToRoom(room, VotingNext(game.players))];
      }
      FileGame(games, room, game);
      games := games[room := game];
    }

    /** `final:choice`: in the final phase, stores the caller's choice
        (whoever the caller is); once two choices are stored, pays out per
        `Resolve` on the two players' own choices and ends the game. */
    method FinalChoice(socket: Id, room: RoomCode, choice: Choice) returns (out: seq<Emit>)
      requires Valid()
      modifies this
      ensures Valid()
      ensures lobbies == old(lobbies) && roomOrder == old(roomOrder)
      ensures !(room in old(games) && old(games[room]).phase == Final) ==> games == old(games) && out == []
      ensures room in old(games) && old(games[room]).phase == Final ==>
                var g0 := GameAt(old(games), room);
                var choices := Put(g0.finalChoices, socket, choice);
                if |choices| == 2 then
                  var p1, p2 := g0.players[0], g0.players[1];
                  && games == old(games)[room := g0.(finalChoices := choices, phase := Over)]
                  && out == [ToRoom(room, GameOver(g0.pot, Resolve(p1, p2, Get(choices, p1), Get(choices, p2), g0.pot)))]
                else
                  games == old(games)[room := g0.(finalChoices := choices)] && out == []
    {
      if room !in games || games[room].phase != Final {
        return [];
      }
      var game := games[room];
      ValidAt(games, room);
      game := game.(finalChoices := Put(game.finalChoices, socket, choice));
      if |game.finalChoices| == 2 {
        var p1, p2 := game.players[0], game.players[1];
        var result := Resolve(p1, p2, Get(game.finalChoices, p1), Get(game.finalChoices, p2), game.pot);
        game := game.(phase := Over);
        out := [ToRoom(room, GameOver(game.pot, result))];
      } else {
        out := [];
      }
      FileGame(games, room, game);
      games := games[room := game];
    }

    /** `player:final:choice`: in the final phase, stores `choice` under the
        payload's `playerId`; once two choices are stored, settles per
        `SettleByArrival` on the first two submitters and announces it. The
        phase stays final. */
    method PlayerFinalChoice(room: RoomCode, playerId: Id, choice: Choice) returns (out: seq<Emit>)
      requires Valid()
      modifies this
      ensures Valid()
      ensures lobbies == old(lobbies) && roomOrder == old(roomOrder)
      ensures !(room in old(games) && old(games[room]).phase == Final) ==> games == old(games) && out == []
      ensures room in old(games) && old(games[room]).phase == Final ==>
                var g0 := old(games[room]);
                var choices := Put(g0.finalChoices, playerId, choice);
                && games == old(games)[room := g0.(finalChoices := choices)]
                && if |choices| == 2 then
                     var s := SettleByArrival(choices[0].0, choices[1].0, choices[0].1, choices[1].1, g0.pot);
                     out == [ToRoom(room, ChatMessage("Server", s.message)), ToRoom(room, FinalResult(s))]
                   else out == []
    {
      if room !in games || games[room].phase != Final {
        return [];
      }
      var game := games[room];
      ValidAt(games, room);
      game := game.(finalChoices := Put(game.finalChoices, playerId, choice));
      FileGame(games, room, game);
      games := games[room := game];
      if |game.finalChoices| == 2 {
        var (p1, c1) := game.finalChoices[0];
        var (p2, c2) := game.finalChoices[1];
        var result := SettleByArrival(p1, p2, c1, c2, game.pot);
        out := [ToRoom(room, ChatMessage("Server", result.message)), ToRoom(room, FinalResult(result))];
      } else {
        out := [];
      }
    }

    /** `host:start`: tells the caller alone that more players are needed when
        the payload lists fewer than two; otherwise broadcasts the start signal
        if, and only if, the room has a lobby whose first member is the caller.
        `payloadSize` is `Object.keys(players).length` of the payload. Nothing
        is changed. */
    method HostStart(socket: Id, room: RoomCode, payloadSize: nat) returns (out: seq<Emit>)
      ensures payloadSize < 2 ==> out == [ToCaller(GameNotEnough("Need at least 2 players to start."))]
      ensures payloadSize >= 2 && room in lobbies && HostOf(lobbies[room]) == Some(socket) ==>
                out == [ToRoom(room, GameStart)]
      ensures payloadSize >= 2 && !(room in lobbies && HostOf(lobbies[room]) == Some(socket)) ==>
                out == []
    {
      if payloadSize < 2 {
        return [ToCaller(GameNotEnough("Need at least 2 players to start."))];
      }
      if room !in lobbies {
        return [];
      }
      if |lobbies[room]| == 0 || lobbies[room][0] != socket {
        return [];
      }
      out := [ToRoom(room, GameStart)];
    }
  }
}
