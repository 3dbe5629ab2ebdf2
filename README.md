# Silver Squares Online — room server model

Silver Squares Online is a multiplayer split-or-steal party game. Its server
(`server/dist/app.js`) is an event-driven socket server. It keeps two shared
in-memory registries: `lobbies`, which maps a room code to the ordered list of
socket ids in that room (the first one is the host), and `games`, which maps a
room code to the game record. Each socket event has a handler that runs to
completion, reads and updates the registries, and emits events to the room or
to the caller.

A game has four phases:

- **tiles**: players reveal tiles (3 per player). Each tile has a random type
  that changes the pot: silver +100, black −50, empty 0, bonus +200.
- **vote**: with more than two players, every active player votes. The most
  voted player is eliminated, with ties broken at random.
- **final**: the two remaining players each choose split or steal.
- **over**: the game has ended.

The model is a Dafny project in seven modules:

| file | module | what it holds |
|---|---|---|
| `wrappers.dfy` | `Wrappers` | `Option` |
| `lists.dfy` | `Lists` | the JavaScript array operations used on socket-id lists: `includes`, `indexOf`, push-if-absent, `filter(p => p !== x)` |
| `ordered_dict.dfy` | `OrderedDict` | plain objects used as dictionaries (`game.votes`, `game.finalChoices`, the tally), as lists of entries in key-insertion order |
| `game.dfy` | `GameModel` | the game record, the tile-type draw, pot deltas, the construction of a new game, the turn pointer, and the invariant `GameValid` every filed record keeps |
| `voting.dfy` | `Voting` | vote counting, the highest count, the tied candidates and the tie-break |
| `final.dfy` | `FinalRound` | the payoff rules of the two final-choice handlers |
| `server.dfy` | `RoomServer` | the class `Server` with the two registries as fields and one method per handler |

Each handler method:

- returns the events it emits, in emission order, as a sequence of `Emit`
  values (`ToRoom` for a broadcast, `ToCaller` for the caller alone);
- states the whole new state of both registries as a function of the old state;
- preserves `Valid()`: no lobby lists a socket twice, and every game record
  satisfies `GameValid`.

`GameValid` relates the pot to the revealed tiles and the turn counter to
their number, and it ties the phase to the tiles and to the number of players.

`Math.random()` is the only source of randomness. Each use becomes a natural
number parameter:

- `pick % n` for a random index `Math.floor(Math.random() * n)`;
- `draw` for `Math.floor(100 * Math.random())` in `getRandomTileType`. Every
  threshold there is a whole percentage, so the comparisons agree exactly.

`DrawWeights` proves that the hundred draws split 50 : 20 : 20 : 10. `AnyoneMayStart` and
`TieBreakCovers` prove that every value the source can draw is reachable.

JavaScript object key order follows insertion order. `lobbies` is modelled as
a map plus `roomOrder`, the room codes in the order each was first given a
lobby, and that order drives the `disconnect` loop. Vote and choice
dictionaries are entry lists in which assigning to an existing key keeps its
position.

The game record's `players` array is the lobby array itself: `game:start`
stores `lobbies[roomCode]` by reference. The model stores a copy, which
behaves the same here:

- `game:join` pushes a socket only after checking, while a game exists, that
  the socket is already an active player of it;
- a lobby that `game:create` or `disconnect` replaces is a fresh array, which
  breaks the sharing in the source as well.

## Model

| member | source | states |
|---|---|---|
| RoomServer.Server.constructor | server/dist/app.js:23-24 | the server starts with no lobbies and no games, and is valid |
| RoomServer.Server.Create | server/dist/app.js:33-42 | the room's lobby becomes exactly the caller, replacing any previous lobby; the room is added to the key order if new; games are untouched; the lobby update names the caller as host, followed by the acknowledgment |
| RoomServer.Server.Join | server/dist/app.js:43-65 | the room always ends with a lobby (an empty one if it had none). A caller who is not an active player of the room's game gets only `game:notfound`, and the lobby keeps its members. Otherwise the caller is appended once, the lobby is broadcast with its first member as host, the game is re-broadcast when one exists, and then the acknowledgment is sent. Validity is preserved |
| RoomServer.Server.JoinRejected | server/dist/app.js:50-51 | a join is turned away exactly when the room has a game and the caller is not one of its active players |
| RoomServer.Server.Start | server/dist/app.js:66-86 | without a lobby nothing changes and nothing is emitted. Otherwise exactly the room's game record is replaced by `NewGame` of its lobby, and it is broadcast |
| RoomServer.Server.PickTile | server/dist/app.js:87-126 | nothing changes unless the room has a game and a lobby and the id names a still-concealed tile. If it does, the game must be in the tile phase; that tile alone is revealed with the drawn type and the caller as revealer; the pot gains the type's delta; turns grows by one; the turn passes per `NextTurn`. Once every tile is revealed the phase becomes final with two players and vote with more, and the matching event follows `tile:revealed`. Validity is preserved |
| RoomServer.Server.PickAccepted | server/dist/app.js:89-96 | a pick is acted on exactly when the room has a game and a lobby, and `find` names a tile that is still concealed (with tiles numbered 1..N, by `FindNumbered`, the tile at position `tileId - 1`) |
| RoomServer.Server.SubmitVote | server/dist/app.js:127-171 | nothing changes unless the game is in the vote phase and both caller and target are active players. Otherwise the caller's vote is stored, overwriting any earlier one. A complete round does one of two things. With two players the phase becomes final. Otherwise the player `Eliminee` names, who is an active player, is removed from the active list and appended to the eliminated list; the votes are cleared; the phase becomes final when two players remain and stays vote otherwise; the events are emitted in the source's order |
| RoomServer.Server.VoteAccepted | server/dist/app.js:130-136 | a vote is recorded exactly when the room has a game in the vote phase and both the caller and the target are active players |
| RoomServer.Server.FinalChoice | server/dist/app.js:172-199 | outside the final phase nothing changes. Otherwise the caller's choice is stored. Once two choices are stored, the game goes to over and `game:over` carries `Resolve` of the two players' stored choices in player order |
| RoomServer.Server.PlayerFinalChoice | server/dist/app.js:200-242 | outside the final phase nothing changes. Otherwise the choice is stored under the payload's player id. Once two choices are stored, the chat message and `final:result` carry `SettleByArrival` of the first two submitters in submission order. The phase stays final |
| RoomServer.Server.HostStart | server/dist/app.js:243-256 | with fewer than two players in the payload, only the caller is told that more players are needed. Otherwise `game:start` is broadcast exactly when the room has a lobby whose first member is the caller, and nothing is emitted otherwise. No state changes |
| RoomServer.Server.Disconnect | server/dist/app.js:257-267 | every lobby becomes its old self without the socket. The set of rooms, the key order and the games are unchanged. The emitted updates are `LeftUpdates` over the rooms in key order. Validity is preserved |
| RoomServer.LeaveAll | server/dist/app.js:258-265 | the loop over the registry's entries computes `LeaveRooms` and `LeftUpdates` over all rooms |
| RoomServer.LeftUpdatesExact | server/dist/app.js:258-265 | the disconnect broadcasts to exactly the rooms whose lobby listed the socket, each update showing that lobby without the socket |
| RoomServer.LeaveRoomsRemoves | server/dist/app.js:258-260 | visiting distinct rooms removes the socket from the visited lobbies and leaves the unvisited ones as they were |
| RoomServer.LeftEveryLobby | server/dist/app.js:258-260 | once every room has been visited, every lobby has lost the socket |
| RoomServer.LeavingKeepsValid | server/dist/app.js:260 | removing one socket from every lobby keeps every lobby duplicate-free |
| RoomServer.HostAfterLeave | server/dist/app.js:260-263 | a departing host is succeeded by the second member (or no one); any other departure keeps the host |
| RoomServer.JoinKeepsHost | server/dist/app.js:56-58 | joining never changes the host of a non-empty lobby |
| RoomServer.FileLobby | server/dist/app.js:47-48 | giving a room a duplicate-free lobby keeps the registry valid and its key order duplicate-free |
| RoomServer.VoteKeepsValid | server/dist/app.js:137-154 | storing a vote between two active players keeps a game valid, and so does moving a two-player round to the final |
| RoomServer.EliminatedIsPlayer | server/dist/app.js:156 | the eliminated player is an active player, because every vote names one |
| RoomServer.EliminationKeepsValid | server/dist/app.js:156-166 | eliminating an active player keeps the game valid: active and eliminated players stay duplicate-free and disjoint, and the final has two players |
| GameModel.TileTypeFor | server/dist/app.js:270-279 | each type is drawn exactly on its percentage band: silver below 50, black 50–69, empty 70–89, bonus 90 and above |
| GameModel.DrawWeights | server/dist/app.js:270-279 | of the hundred equally likely draws, 50 give silver, 20 black, 20 empty and 10 bonus |
| GameModel.PotDelta | server/dist/app.js:103-110 | the pot change of a revealed tile: silver +100, black −50, empty 0, bonus +200; `PotDeltaShape`, `RevealOne` and `PotMultipleOf50` state what follows from it |
| GameModel.PotDeltaShape | server/dist/app.js:103-110 | every pot delta is a multiple of 50, and only black lowers the pot |
| GameModel.RevealOne | server/dist/app.js:99-111 | revealing one concealed tile adds exactly its delta to the pot of the revealed tiles, and one to their count |
| GameModel.PotMultipleOf50 | server/dist/app.js:103-110 | the pot is always a multiple of 50, so `pot / 2` in the payoffs is exact |
| GameModel.PotExample | server/dist/app.js:103-110 | four tiles revealed as silver, black, empty and bonus give the model's pot `RevealedPot` the value 250, which is the pot `GameValid` ties the game to |
| GameModel.FindTile | server/dist/app.js:94 | `find` returns the first tile with the id, or none |
| GameModel.FindNumbered | server/dist/app.js:74-78 | with tiles numbered 1..N, id `k` is found at position `k - 1` exactly when `1 <= k <= N` |
| GameModel.AllRevealed | server/dist/app.js:118-122 | `tiles.every(t => t.revealed)`, the test that ends the tile phase; `GameValid` keeps it true outside the tile phase |
| GameModel.NewTiles | server/dist/app.js:73-78 | `3 * n` tiles with ids 1..N, each concealed, holding the placeholder type and no revealer; `NewGame` states these facts |
| GameModel.HostOf | server/dist/app.js:58 | the host is the lobby's first member, and `undefined` for an empty lobby; `HostAfterLeave` and `JoinKeepsHost` state how it changes |
| GameModel.NewGame | server/dist/app.js:71-83 | a new game has the lobby as players, its first member as host, `3 * n` concealed tiles numbered 1..N, pot 0, turn count 0, the tile phase, and a first turn holder drawn from the lobby (none for an empty lobby). It is valid when the lobby is duplicate-free |
| GameModel.NothingRevealed | server/dist/app.js:74-78 | concealed tiles contribute nothing to the pot or the turn count |
| GameModel.AnyoneMayStart | server/dist/app.js:79 | every lobby member can be drawn as the first turn holder |
| GameModel.NextTurn | server/dist/app.js:113-115 | with no players there is no next turn holder; otherwise it is an active player; a picker who is not an active player passes the turn to the first player |
| GameModel.NextAfter | server/dist/app.js:113-115 | in a duplicate-free list the turn passes from position `k` to `k + 1`, and from the last position to the first |
| GameModel.TurnsGoRound | server/dist/app.js:113-115 | when each pick is made by the turn holder, the turn walks round the players in order |
| GameModel.FullRound | server/dist/app.js:113-115 | after one pick by each player in turn, the turn is back with whoever started |
| GameModel.RevealKeepsValid | server/dist/app.js:99-125 | a reveal in a valid game (which is therefore in the tile phase) keeps it valid, whichever phase follows |
| Lists.IndexOf | server/dist/app.js:113 | `indexOf` returns −1 exactly for an absent element, and otherwise its first position |
| Lists.AddIfAbsent | server/dist/app.js:56-57 | push-if-absent contains the element, keeps the old list as a prefix, adds at most one element, and keeps a list duplicate-free |
| Lists.AddIfAbsentIdempotent | server/dist/app.js:56-57 | joining twice is the same as joining once |
| Lists.Remove | server/dist/app.js:260 | the filtered list holds exactly the elements other than `x`, and is unchanged when `x` is absent |
| Lists.RemoveDistinct | server/dist/app.js:157 | filtering a duplicate-free list leaves it duplicate-free |
| Lists.RemoveCutsOut | server/dist/app.js:157 | filtering a member out of a duplicate-free list cuts out exactly its position and keeps everyone else in order |
| OrderedDict.Get | server/dist/app.js:181-182 | reading a key is defined exactly for the keys present |
| OrderedDict.Keys | server/dist/app.js:139 | `Object.keys`: the keys in insertion order, one per entry |
| OrderedDict.Values | server/dist/app.js:141 | `Object.values`: the values in the same order as `Object.keys` |
| OrderedDict.Put | server/dist/app.js:138 | assignment keeps the key order when the key exists and appends the key otherwise, and adds no other entry |
| OrderedDict.PutGet | server/dist/app.js:177 | after assignment the key reads back the new value, and every other key reads as before |
| OrderedDict.GetEntry | server/dist/app.js:181 | a read returns the one entry stored for the key |
| OrderedDict.KeyCount | server/dist/app.js:139 | in a well-formed dictionary `Object.keys(d).length` counts the distinct keys |
| Voting.CountVotes | server/dist/app.js:140-143 | the counting loop computes the tally `TallyOf` of the votes in order |
| Voting.Bump | server/dist/app.js:142 | one more vote for `t`: its entry becomes its old count plus one, a missing entry counting as 0 |
| Voting.TallyOf | server/dist/app.js:140-143 | the tally after counting the targets in order; `TallyCounts` and `TallyCount` state what it holds |
| Voting.TallyCounts | server/dist/app.js:140-143 | the tally has one entry per voted-for player, holding that player's number of votes, and no other entries |
| Voting.TallyCount | server/dist/app.js:140-143 | one target's count is its number of votes, with no entry when it got no votes |
| Voting.MaxCount | server/dist/app.js:144 | the maximum is at least every count and is the count of some entry |
| Voting.Candidates | server/dist/app.js:145-147 | the candidates are exactly the ids whose count equals the maximum |
| Voting.Eliminee | server/dist/app.js:144-156 | the eliminated player received a vote, and nobody received more |
| Voting.EliminationDraw | server/dist/app.js:144-156 | a complete round has a non-empty tally and at least one candidate, and the handler's own draw picks `Eliminee` |
| Voting.TieBreakCovers | server/dist/app.js:156 | every player tied for the top count is eliminated for some outcome of the draw |
| Voting.ResolvesWhenAllVoted | server/dist/app.js:139 | the key count equals the number of players exactly when every active player has voted |
| FinalRound.Resolve | server/dist/app.js:179-195 | both split: a shared win of half the pot each. Steal against split: the stealer takes the whole pot. Anything else, including a missing or unrecognised choice: no winner and no payout |
| FinalRound.ResolveSymmetric | server/dist/app.js:180-195 | the `final:choice` payoff does not depend on which player is listed first |
| FinalRound.SettleByArrival | server/dist/app.js:208-235 | both split: both win half the pot. Both steal: nobody wins and nothing is paid. Otherwise one winner takes the whole pot: the first submitter when their choice is steal, the second otherwise. The messages are the source's |
| FinalRound.HandlersAgree | server/dist/app.js:184-235 | on genuine split/steal choices, the two payoff rules pay the same ids the same amount when given the same two players in the same order. The handlers themselves choose the pair differently: `final:choice` uses player order and `player:final:choice` uses submission order |
| FinalRound.UnrecognisedChoice | server/dist/app.js:184-235 | against a splitter, an unrecognised choice forfeits the pot in `final:choice` in either order. In `player:final:choice` the second submitter takes the pot unless the first chose steal. So an unrecognised choice wins only when submitted second; submitted first, it hands the pot to the splitter, who is announced as the stealer |

## Left out

- `chat:send` (lines 27-32) is not modelled. It relays a message to a room and touches neither registry; its payload carries `Date.now()` and `new Date()`, which are clock reads.
- The `player:final:choice` chat message carries `Date.now()` and an ISO time, which the model omits. Author and text are kept.
- Transport is left out: `socket.join`, the connection itself, and who is in a Socket.IO room. A broadcast is a `ToRoom` value. The acknowledgment callback is one `Ack` emitted whenever the handler reaches it, as though the client always passed a callback.
- `console.log` output is not modelled.
- Payloads are modelled as already decoded. The `typeof data === "string"` coercion of the room code is not modelled. Tile ids are integers compared with `===`, so a string id never matches. A final choice is `Split`, `Steal` or any other raw value.
- RoomServer.Server.HostStart: `Object.keys(players)` throws when `players` is missing or `null`, and that case is not modelled. The model receives only the key count.
- JavaScript's special ordering of integer-like object keys (array indices are listed first, in numeric order) is not modelled. Every key is listed in insertion order.
- Room codes, socket ids and `playerId` values that name a property inherited from `Object.prototype` (`constructor`, `toString`, `__proto__` and the like) are not modelled. `lobbies`, `games`, `game.votes` and `game.finalChoices` are plain `{}` objects, so these keys behave differently in the source. `lobbies["constructor"]` already holds a function, so `game:join` with that code skips creating a lobby and then throws at `games[roomCode].players.includes`, and `game:start` files a game built from it. Assigning `__proto__` replaces the prototype instead of adding a key, and `Object.entries` and `Object.keys` never list it. The model treats every key as an ordinary own key that starts out absent. So the handlers' contracts describe the source only for keys that are not inherited property names.
- `game.votes || {}` and `game.finalChoices || {}` create the dictionaries on first use. The model starts a game with both empty, which reads the same.
- RoomServer.Server.SubmitVote: the branch that moves a two-player round to the final (lines 149-154) is modelled as written. In the source a game enters the vote phase only with more than two players (line 122), and an elimination that leaves two players moves the game to the final (lines 163-166). So this branch is never taken in the source. The model does not prove this: `GameValid` does not include "vote phase implies more than two players", so the model's contract still covers the branch.
- RoomServer.Server.PickTile: turn order is not enforced, as in the source. Any socket, including one that is not a player, may pick. `TurnsGoRound` describes the rotation only when each pick is made by the current turn holder.
- RoomServer.Server.FinalChoice: any socket's choice is stored, as in the source. If a non-player's choice is among the two stored, the round can resolve with a player's choice missing, and `Resolve` then pays nobody.
- The game record accepts choices from sockets that are not players in both final handlers. `GameValid` therefore constrains the final-choice dictionary only to one entry per key.
- Games are never deleted; the source keeps them in memory forever.
- Numbers are unbounded integers. The pot stays far below the range in which JavaScript doubles lose precision. `pot / 2` is exact because the pot is a multiple of 50 (`PotMultipleOf50`).
