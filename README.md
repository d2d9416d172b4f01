# Imposter Artist — a verified model of the game server and the canvas tools

Imposter Artist is a party game. Players take turns drawing a secret word on
a shared canvas. One player, the impostor, does not know the word and must
bluff, and at the end everybody votes on who the impostor was. This project
models three parts of it in Dafny and proves what they promise.

- **The room store and its state machine** (`server/gameManager.js`):
  - `GameManager` is a class with one field, `rooms`, a map from room code
    to room;
  - each room is a value that every transition replaces: create, join,
    leave, start, submit a word (choosing the impostor and the secret word),
    take a drawing turn, chat, guess, vote, force the vote, settle the vote
    and reset;
  - modules `GameTypes`, `GameRules` and `Game`.
- **The socket gateway** (`server/server.js`):
  - each handler is a method of `Gateway`, which owns the store and the
    `socketToPlayer` map;
  - what a handler returns is what its callback would receive: the success
    flag, the error string and the payload;
  - the per-player `word_reveal` payloads are built by a loop over the
    players;
  - module `Server`.
- **Two canvas algorithms** (`components/Canvas.tsx`):
  - the stack-driven scanline flood fill, which writes the composite
    buffer and the target buffer in place (module `FloodFill`);
  - the undo/redo history, bounded to `MAX_HISTORY` = 50 snapshots (module
    `History`).

Two helper modules support these:

- `Text` models `String.prototype.trim` (ECMAScript white space and line
  terminators) and ASCII `toLowerCase`;
- `Sequences` models the bounded append, `push` then one `shift()`, shared
  by the chat (50 messages) and the history (50 snapshots).

Every stored room satisfies `Game.RoomOk`, and every store method preserves
it. RoomOk requires:

- the room's code matches its key;
- the chat holds at most 50 messages;
- the turn index is never negative;
- `maxRounds` is at least 1;
- a room in DRAWING has a word, an impostor and a round within `maxRounds`;
- nobody has voted for themselves.

The gateway adds two invariants of its own:

- every binding in `socketToPlayer` maps a connection to a player with the
  connection's own id;
- every room's host is one of its players.

Nondeterminism becomes parameters:

- `Math.random()` is a real in [0, 1), and an index is
  `Math.floor(r * n)` (`GameRules.RandomIndex`);
- `Date.now()` is an integer;
- the chat message id and the new room code are strings;
- the set of connected sockets is a set of ids.

JavaScript `TypeError`s that the handlers do not catch become the outcome
`Threw`, with the room left exactly as the throwing code leaves it. Two
places throw:

- `submitDrawing` reads `players[currentTurnIndex].id` after a player has
  left and the index points past the roster;
- `calculateVoteResults` names an innocent candidate who is not in the room.

Behaviour of the code worth knowing, which the model follows:

- `create_room` does not check that a room code is unused; `createRoom`
  replaces any room with that code.
- `room_update` broadcasts the whole room, word and impostor included. The
  model makes no claim that the word stays secret room-wide. It proves only
  what the per-player reveal contains.
- Neither `startGame` nor `forceVote` checks the phase.
- `submitVote` does not check that the voter or the candidate is in the
  room. The gateway does not check that a connection belongs to the room it
  names.
- The empty string as the top candidate counts as no candidate: JavaScript
  treats `""` as false, so `!votedOutId` holds. The model counts it as a tie
  and proves this (`Game.VotedOut`, `Game.ArtistsWinExactly`).
- A connection that joins a second room is rebound there. Its player entry
  in the first room stays behind.

## Model

| member | source | states |
|---|---|---|
| Game.GameManager.constructor | server/gameManager.js:12-14 | The store starts empty, which is well-formed. |
| Game.FreshRoom | server/gameManager.js:17-39 | The new room has the given code and host, no players and phase LOBBY. It has 8 seats, 2 strokes per turn and the extra colour allowed, and it is at turn 0 of round 1 of 3. No word, impostor, winner, reason, votes, drawings, guesses, chat or submissions are recorded. The room is well-formed. |
| Game.GameManager.CreateRoom | server/gameManager.js:16-42 | Stores the fresh room under the code and replaces any room that had it. Every other room is unchanged. |
| Game.GameManager.GetRoom | server/gameManager.js:44-46 | Returns a room exactly when the code is stored, and then it is the stored room. |
| GameTypes.IndexOfPlayer | server/gameManager.js:111 | `players.find`: returns the first index with the id. It returns None exactly when no player has the id. |
| Game.GameManager.AddPlayer | server/gameManager.js:48-72 | An unknown room gives null and changes nothing. Otherwise it appends exactly one player. The player has the picked colour, no role and every flag false or 0, and nothing else changes. With fewer than 8 players, nobody else in the room has the new colour. |
| GameRules.FirstUnusedFrom | server/gameManager.js:58 | The index found is unused and every earlier index is used. None means every index from the start is used. |
| GameRules.PickColor | server/gameManager.js:53-58 | When some palette colour is free, picks the first free one. When all eight are taken, picks `palette[0]`. |
| GameRules.SomeUnused | server/gameManager.js:53-58 | Pigeonhole: more distinct palette colours than used colours leaves a palette colour unused. |
| GameRules.ColorIsFresh | server/gameManager.js:53-58 | With fewer than 8 colours in use, the picked colour is not among them. |
| GameRules.PickColorEmpty | server/gameManager.js:58 | The first player of a room gets `#ef4444`. |
| GameRules.NewPlayer | server/gameManager.js:60-68 | The pushed player keeps the connection's id, name and avatar and gets the picked colour, no role, and every flag false or 0. |
| Game.GameManager.RemovePlayer | server/gameManager.js:74-89 | Drops exactly the players with the id. If none remain, the room is deleted. Otherwise a departing host hands over to `players[0]`. Nothing else in the store changes: phase, turn index, votes and submissions stay. |
| GameRules.WithoutPlayer | server/gameManager.js:78 | The result holds exactly the players whose id differs and is never longer. |
| GameRules.WithoutPlayerAppend | server/gameManager.js:78 | Filtering distributes over concatenation, so the remaining players keep their order. |
| GameRules.WithoutAbsentPlayer | server/gameManager.js:78 | Removing an id that no player has leaves the roster as it is. |
| GameRules.WithoutPlayerKeeps | server/gameManager.js:78-83 | Every player with another id is still in the room, so a host who stays keeps their seat. |
| Game.GameManager.StartGame | server/gameManager.js:91-106 | Succeeds exactly when the room exists with at least 2 players, in any phase. On failure nothing changes. On success the room becomes `Started(room)`. |
| Game.Started | server/gameManager.js:95-103 | The phase is WORD_SUBMISSION, there are no submissions and nobody has submitted. The players are `ClearSubmitted` of the old roster, so each keeps everything but `hasSubmittedWord`. Every other field is unchanged. |
| GameRules.ClearSubmitted | server/gameManager.js:100-103 | Every player's `hasSubmittedWord` becomes false, and nothing else about any player changes. |
| Game.ResetThenStart | server/gameManager.js:91-106 | A start right after a reset has nothing left of the previous game: no word, impostor, votes, drawings or guesses, round 1, and every player without a role or a submission. |
| Game.GameManager.SubmitWord | server/gameManager.js:108-171 | Succeeds exactly in WORD_SUBMISSION, for a known player who has not submitted. On success the room becomes `WordTaken`. On failure nothing changes. |
| Game.WordTaken | server/gameManager.js:113-165 | Records `{id, trimmed word}` and marks the player. The last missing submission has three effects. First, DRAWING starts at index 0, round 1. Second, the impostor is the player at `RandomIndex` of the first random number. Third, the players are `AssignRoles` of the marked roster, so only roles change. Fourth, the word is `ChooseWord` of the submissions: another player's submission whenever anybody else submitted, and otherwise the first submission. With distinct ids, exactly the impostor has role IMPOSTER and everybody else ARTIST. Every other field stays. |
| GameRules.RandomIndex | server/gameManager.js:127 | `Math.floor(r * n)` for r in [0, 1) is a valid index below n. |
| GameRules.NonImposterWords | server/gameManager.js:134-136 | Keeps exactly the submissions not made by the impostor. |
| GameRules.ChooseWord | server/gameManager.js:141-149 | When somebody other than the impostor submitted, the word is one of their submissions. Otherwise it is the first submission. |
| GameRules.AssignRoles | server/gameManager.js:152-155 | A player gets IMPOSTER exactly when their id is the impostor's, and ARTIST otherwise. Nothing else about a player changes. |
| GameRules.OneImposter | server/gameManager.js:127-155 | With distinct ids, the chosen player is the only IMPOSTER and every other player is an ARTIST. |
| Game.GameManager.SubmitDrawing | server/gameManager.js:173-206 | Refuses outside DRAWING and for anybody but `players[currentTurnIndex]`. Throws when the turn index is past the roster. Otherwise the room becomes `Drawn(room)`. |
| Game.Drawn | server/gameManager.js:180-203 | Appends one drawing tagged with the current round. The drawer's entry changes only in `actionsTaken`, which becomes 0, and every other player is untouched. The turn advances: the next index, or index 0 of the next round. Passing `maxRounds` opens VOTING, and nothing else changes. |
| GameRules.Advance | server/gameManager.js:192-202 | One drawing moves the turn one step on. Counting turns as `round · n + index`, the count grows by exactly 1 and the index stays below n: the next index, or index 0 of the next round after the last player. |
| GameRules.AdvanceMany | server/gameManager.js:192-202 | m drawings grow the turn count `round · n + index` by exactly m, and the index stays below n. Proved from the recursive call's contract. |
| GameRules.Progress | server/gameManager.js:188-200 | From index 0 of round 1, k·n + j turns in a room of n players lead to index j of round k + 1. |
| GameRules.RoundsComplete | server/gameManager.js:188-200 | `maxRounds · n` turn advances from index 0 of round 1 reach index 0 of round `maxRounds + 1`. Every shorter run stays within round `maxRounds`. `Game.DrawingOpensVote` carries this over to the room's phase. |
| Game.DrawnMany | server/gameManager.js:173-206 | m in-turn drawings in a row keep the roster size and `maxRounds`, and advance the turn as `AdvanceMany`. From a round within `maxRounds`, the phase is VOTING exactly once the round has passed `maxRounds`, and is unchanged before that. |
| Game.DrawingOpensVote | server/gameManager.js:173-206 | From a fresh DRAWING phase (index 0, round 1), `maxRounds · n` in-turn drawings reach VOTING, and every shorter run of drawings is still in DRAWING. |
| Game.GameManager.SubmitMessage | server/gameManager.js:208-232 | Refuses an unknown room or player. Otherwise the message holds the sender's name and colour and the trimmed text. It is appended with the oldest message evicted past 50, so the chat never exceeds 50. |
| Sequences.AppendCapped | server/gameManager.js:223-228 | The new entry comes last. The result is the newest part of `s + [x]`, one entry shorter than `s + [x]` when that exceeds the cap. |
| Sequences.AppendCappedBound | server/gameManager.js:223-228 | A sequence within its cap stays within it. Below the cap it simply grows, and at the cap it loses exactly its oldest entry. |
| Text.LeadingSpace | server/gameManager.js:219 | Counts the leading white space: every counted character is white space, and the next one is not. |
| Text.TrailingSpace | server/gameManager.js:219 | The same for trailing white space. |
| Text.Trim | server/gameManager.js:219 | `s.trim()`: the input with its leading and trailing white space cut off, never longer than the input. `Text.TrimShape` and `Text.TrimIdempotent` characterise it. |
| Text.TrimShape | server/gameManager.js:219 | `trim` returns a slice of the input that neither starts nor ends with white space, with only white space cut off on either side. |
| Text.TrimIdempotent | server/gameManager.js:219 | Trimming twice is trimming once. |
| Text.LowerChar | server/gameManager.js:241 | Maps an ASCII capital to the same letter in lower case and leaves every other character alone. |
| Text.ToLower | server/gameManager.js:241 | Lower-cases character by character, so the length is kept and no ASCII capital remains. |
| Text.ToLowerIdempotent | server/gameManager.js:241 | Lower-casing twice is lower-casing once. |
| Game.GameManager.SubmitGuess | server/gameManager.js:234-264 | Succeeds exactly in DRAWING, for a known player who has not guessed. It reports whether the guess, lower-cased and trimmed, equals the lower-cased word, and whether the guesser is the impostor. The room becomes `Guessed`. |
| Game.GuessMatches | server/gameManager.js:241 | `guess.toLowerCase().trim() === word.toLowerCase()`. A match is never longer than the guess, and `Game.GuessIgnoresCase` shows the case of either side does not matter. |
| Game.GuessIgnoresCase | server/gameManager.js:241 | Lower-casing the guess or the word first does not change whether the guess matches. |
| Game.Guessed | server/gameManager.js:241-261 | Records the guess. The guesser's entry changes only in `hasGuessed`, now true, and `isLocked`, set by a correct guess. A correct guess by the impostor sets GAME_OVER, the impostor's win and the reason naming them. Any other guess keeps phase, winner and reason, and nothing else changes. |
| Game.GameManager.SubmitVote | server/gameManager.js:266-281 | Refuses exactly outside VOTING or on a self-vote. Otherwise it records or overwrites the vote. Once there are as many voters as players, the room is settled by `VoteVerdict`. |
| Game.VoteAfterVerdict | server/gameManager.js:266-281 | The vote that completes the tally ends the game, so a later vote is refused. |
| Game.GameManager.ForceVote | server/gameManager.js:283-295 | Succeeds exactly for the host, in any phase. It sets VOTING and turn index 0 and changes nothing else. |
| Game.GameManager.CalculateVoteResults | server/gameManager.js:297-340 | For a stored room, the room becomes `VoteVerdict(room)`, with its outcome: applied, or the TypeError. |
| GameRules.ZeroCounts | server/gameManager.js:301-302 | Every player has a count of 0. |
| GameRules.CountVotes | server/gameManager.js:301-307 | Visiting the votes in any order, every candidate's count ends equal to the number of votes for them, and every player has an entry. |
| GameRules.VotesAmongAtMost | server/gameManager.js:305-307 | A set of voters casts at most as many votes for one candidate as it has members. |
| GameRules.VotesAmongAdd | server/gameManager.js:305-307 | Counting one more voter adds one vote to their candidate and none to anybody else. |
| GameRules.VotedForHasVotes | server/gameManager.js:305-307 | Anybody who received a vote has a positive count. |
| GameRules.TopCandidate | server/gameManager.js:310-321 | Scanning the counts in any order, `maxVotes` becomes the largest count. There is a leader exactly when it is positive. The flag is set exactly when another candidate shares the maximum. |
| GameRules.TopOfTally | server/gameManager.js:310-321 | Over a true tally, there is a leader exactly when somebody voted. The tie flag is set exactly when two candidates share the positive maximum. A leader without a tie is exactly a candidate with strictly the most votes. |
| GameRules.Tally | server/gameManager.js:297-321 | The whole tally states the facts of TopOfTally about the votes themselves, whatever order the map is visited in. |
| GameRules.UniqueTopIsUnique | server/gameManager.js:310-321 | At most one candidate has strictly the most votes. |
| Game.VotedOut | server/gameManager.js:310-326 | The candidate voted out is the non-empty candidate with strictly the most votes. There is none exactly when every strict top candidate is `""`. `Game.VotedOutIs` and `Game.NoVotedOut` state both directions. |
| Game.VotedOutIs | server/gameManager.js:326 | A non-empty candidate with strictly the most votes is the one voted out. |
| Game.NoVotedOut | server/gameManager.js:326 | With no such candidate, nobody is voted out. |
| Game.VoteVerdict | server/gameManager.js:323-337 | The room after `calculateVoteResults` and whether it threw. It is always GAME_OVER with a winner, and never refused. `Game.VerdictEndsGame`, `Game.ArtistsWinExactly` and `Game.TieMeansImposterWins` characterise the winner and the reason. |
| Game.VerdictEndsGame | server/gameManager.js:323-337 | The verdict always ends in GAME_OVER with a winner and changes only the phase, the winner and the reason. A throw leaves the old reason with IMPOSTER already set. |
| Game.ArtistsWinExactly | server/gameManager.js:326-337 | The artists win exactly when one non-empty candidate has strictly the most votes and is the impostor. The verdict throws exactly when that candidate is an innocent who is not in the room. |
| Game.TieMeansImposterWins | server/gameManager.js:326-328 | A tie at the top, or no votes at all, is a win for the impostor with the tie reason. |
| Game.GameManager.ResetGame | server/gameManager.js:342-370 | Succeeds exactly for a stored room, and then the room becomes `Reset(room)`. |
| Game.Reset | server/gameManager.js:346-368 | LOBBY again, with word, impostor, turn, round, drawings, guesses, chat, votes, winner, reason and submissions cleared. The players are `ResetPlayers` of the old roster: each keeps id, name, avatar and colour and loses role and flags. Code, host, roster order, settings and `maxRounds` stay. |
| GameRules.ResetPlayers | server/gameManager.js:359-367 | Every player keeps id, name, avatar and colour, and loses role and flags. |
| Server.Gateway.constructor | server/server.js:28-32 | An empty store and an empty `socketToPlayer`. |
| Server.Gateway.CreateRoom | server/server.js:38-54 | The creating connection becomes host and sole player with `#ef4444` and the silhouette avatar. The room is stored under the code and the connection is bound to it. |
| Server.Gateway.JoinRoom | server/server.js:56-86 | Checks in order and rejects on the first failure: "Room not found", then "Game already in progress" outside LOBBY, then "Room is full" at `maxPlayers`. Only then does it add the player and bind the connection. On a rejection nothing changes. |
| Server.Gateway.StartGame | server/server.js:88-113 | Rejects "Room not found", then a non-host with "Only host can start game", before the store is asked. A refusal from the store becomes "Not enough players". |
| Server.Gateway.SubmitWord | server/server.js:115-144 | Delegates to the store and answers "Invalid submission" on a refusal. Reveals go out only once the phase is DRAWING. In every reveal the word is missing exactly for the impostor and otherwise equals the room's word. With distinct player ids, the reveal addressed to the impostor's id has no word. |
| Server.RevealFor | server/server.js:131-135 | One player's reveal: their role, the impostor flag exactly for IMPOSTER, and the word unless they are the impostor. |
| Server.LivePlayers | server/server.js:128-130 | The connected players of the roster, in roster order, never more of them than the roster has; LivePlayersMembers and LivePlayersAppend characterise it. |
| Server.LivePlayersMembers | server/server.js:128-130 | A player is listed exactly when it is in the roster and its connection is open (both directions). |
| Server.LivePlayersAppend | server/server.js:128-130 | Keeping the connected players distributes over concatenation. Together with the one-player case of the definition, this makes the result the roster's connected players in roster order. |
| Server.Reveals | server/server.js:127-142 | The i-th reveal is `RevealFor` of the i-th connected player, in roster order, and there is no other reveal. |
| Server.RevealsCover | server/server.js:127-142 | Every connected player is sent a reveal, and every reveal goes to a connected player. Only the impostor goes without the word, and everybody else gets the room's word. |
| Server.ImposterNotSentWord | server/server.js:127-142 | With distinct ids and roles handed out, the reveal addressed to the impostor's id has no word, and every other reveal has the room's word. |
| Server.WordRevealed | server/server.js:126-142 | No reveals unless the phase is DRAWING, and then exactly `Reveals` of the room. Only the impostor goes without the word. With distinct ids and roles handed out, the reveal addressed to the impostor's id has no word. |
| Server.BuildReveals | server/server.js:127-142 | The `forEach` loop builds exactly `Reveals`. |
| Server.Gateway.SubmitDrawing | server/server.js:146-161 | Refuses with "Not your turn or invalid action" or throws as the store does. On success the `new_drawing` round is the round the drawing was recorded in. |
| Server.AnnouncedRound | server/server.js:158 | `round - (currentTurnIndex === 0 ? 1 : 0)`: the round itself, or one less exactly when the turn index is 0. `Server.DrawnRound` shows it is the round of the drawing just stored. |
| Server.DrawnRound | server/server.js:158 | `round - (currentTurnIndex === 0 ? 1 : 0)` after a drawing equals the round of the drawing just stored. |
| GameRules.EmittedRound | server/server.js:158 | The same identity for one turn advance. |
| Server.Gateway.SubmitGuess | server/server.js:165-190 | "Invalid guess" on a refusal. Otherwise the callback gets whether the guess was correct, and the word exactly when it was. |
| Server.Gateway.SubmitMessage | server/server.js:192-202 | "Failed to send message" on a refusal. Otherwise the broadcast message is the one the store appended. |
| Server.Gateway.SubmitVote | server/server.js:204-223 | "Invalid vote" on a refusal. Otherwise the store's vote and verdict apply. |
| Server.Gateway.ForceVote | server/server.js:225-235 | "Failed to force vote (only host can do this)" unless the caller is the host. Otherwise the store opens the vote. |
| Server.Gateway.ResetGame | server/server.js:237-248 | Only the host of a stored room may reset it, and anybody else gets "Only host can reset game". |
| Server.Gateway.Disconnect | server/server.js:250-266 | A bound connection's player is removed from its room as by `RemovePlayer`. The binding is dropped either way, and the room is told exactly when it still exists. |
| History.CanvasHistory.constructor | components/Canvas.tsx:62-63 | The history starts empty, at step -1. |
| History.Saved | components/Canvas.tsx:180-187 | The list after a save ends with the new snapshot and holds at most 50 entries. Everything before the new snapshot is the newest part of the entries up to the old step, so the redo tail is gone. |
| History.UndoAfterSave | components/Canvas.tsx:176-209 | Right after a save, the entry before the new one is the snapshot that was current before it. |
| History.CanvasHistory.SaveState | components/Canvas.tsx:176-191 | Stores `Saved(...)` and points the step at its last entry, the snapshot of what is shown. The stored list stays within 50. |
| History.CanvasHistory.Undo | components/Canvas.tsx:194-209 | Does nothing at step ≤ 0. Otherwise it steps back by one and shows that snapshot, with the list unchanged. |
| History.CanvasHistory.Redo | components/Canvas.tsx:212-227 | Does nothing at the last step. Otherwise it steps forward by one and shows that snapshot, with the list unchanged. |
| History.UndoThenRedo | components/Canvas.tsx:194-227 | From a canvas that shows its current snapshot, an undo followed by a redo returns to the same step and the same picture. |
| FloodFill.OffsetInRange | components/Canvas.tsx:290 | A pixel inside the picture has all four of its bytes inside the buffer. |
| FloodFill.OffsetRow | components/Canvas.tsx:334 | One row up or down moves the offset by `width * 4`. |
| FloodFill.MatchesAt | components/Canvas.tsx:304-311 | `matchStartColor(pos)`: holds exactly when the four bytes at `pos` are the colour. |
| FloodFill.StartColor | components/Canvas.tsx:289-295 | The composite colour at the start pixel, `prevData[startPos..startPos+3]`, which that pixel has. |
| FloodFill.MatchesAtHasColor | components/Canvas.tsx:304-311 | `matchStartColor` at a pixel's offset holds exactly when that pixel has the start colour. |
| FloodFill.SetPixel | components/Canvas.tsx:313-318 | Writing a colour changes those four bytes to the colour and no other byte. |
| FloodFill.SetPixelElsewhere | components/Canvas.tsx:313-318 | Writing one pixel keeps the colour of every other pixel. |
| FloodFill.ColorPixel | components/Canvas.tsx:313-325 | `colorPixel` writes the fill colour at the same pixel in both buffers. |
| FloodFill.MatchSetShrinks | components/Canvas.tsx:313-325 | Painting a start-coloured pixel removes exactly that pixel from the start-coloured set. This is why the loop terminates. |
| FloodFill.PaintKeepsRecoloured | components/Canvas.tsx:345-346 | Painting a start-coloured pixel keeps every pixel within what the fill may do. |
| FloodFill.ScanUp | components/Canvas.tsx:331-339 | The upward scan stops below a pixel without the start colour, or at the top edge. Every pixel it passed has the start colour. |
| FloodFill.PaintAt | components/Canvas.tsx:345-346 | Paints one start-coloured pixel. The set of start-coloured pixels strictly shrinks, and every pixel stays untouched or start-coloured-now-filled. |
| FloodFill.LookSide | components/Canvas.tsx:348-357 | A matching neighbour is pushed once per run and sets `reach`. A non-matching one clears it. |
| FloodFill.LookBothSides | components/Canvas.tsx:348-368 | The left and right checks push only the in-bounds neighbours (x-1, row) and (x+1, row). The reach flags become the neighbours' match, or stay as they were at the edges. |
| FloodFill.PaintSpan | components/Canvas.tsx:341-372 | The downward scan stays within `height`, keeps every pushed point inside the picture and never changes a pixel it may not. A scan that painted nothing pushed nothing. |
| FloodFill.Fill | components/Canvas.tsx:249-383 | A fill with the colour already at the start pixel changes nothing. Otherwise the start pixel ends up with the fill colour in both buffers. In every case, each pixel is either untouched in both buffers, or had the start colour in the composite and now has the fill colour in both. The loop terminates. |

## Left out

- I/O throughout:
  - `console.log`;
  - socket.io rooms, `emit` and broadcasts;
  - the callbacks themselves, since a handler returns what it would pass;
  - the `setTimeout` re-broadcast after a vote;
  - Express and CORS setup, and the listening server.
- The `words.json` load: the logic never reads it.
- The nanoid room-code generator: the code is a parameter of `Server.Gateway.CreateRoom`.
- `Math.random`, `Date.now` and the chat message id: each is a parameter.
  `submitMessage` calls `Date.now()` twice, once for the id and once for the
  timestamp; the model takes the id and the timestamp as separate parameters.
- The process crash after an uncaught `TypeError`: the model stops at the outcome `Threw` and the state the throwing code left.
- Concurrency: handlers run one at a time, as on the Node.js event loop.
- JavaScript object-key quirks: the model uses plain maps. It leaves out every key that a plain object inherits from `Object.prototype` (`__proto__`, `toString`, `constructor` and so on). A candidate with such an id makes `voteCounts[candidateId] || 0` read the inherited value. It also leaves out the order of integer-like keys; the tally is proved independent of visiting order.
- Text.ToLower: lower-cases ASCII letters only, because the full Unicode case mapping of `toLowerCase` is out of scope. The guess comparison is exact for ASCII words.
- GameRules.OneImposter: proved for rosters with distinct ids. A connection that sends `join_room` twice for the same room appears twice with one id, and then both entries become IMPOSTER.
- Game.WordTaken: the "exactly one IMPOSTER" part holds under the same distinct-ids condition, for the same reason.
- FloodFill.Fill: proves soundness, that the start pixel is filled, and termination. It does not prove completeness, that is, that every start-coloured pixel 4-connected to the start is filled.
- FloodFill.Fill: requires the start pixel inside the picture. The pointer position is rounded, so a start at `x == width` can occur. Its offset `(y * width + x) * 4` wraps to the first pixel of row y + 1, and the source fills from there. Only a start past the end of the buffer reads `undefined` bytes. The model covers neither case.
- The hex parse of the fill colour: `Fill` takes the three colour bytes directly.
- The canvas API:
  - `getContext`, `drawImage`, `getImageData`/`putImageData` and `toDataURL`;
  - compositing the earlier layers, so `Fill` takes the composite and target buffers as inputs;
  - the asynchronous `Image.onload` in undo/redo, modelled as an immediate assignment of the snapshot to `image`.
- Zoom, pan, pinch and `getPointerPos` float arithmetic, and remote stroke replay.
- The React client, the socket client wrapper, the generative-AI service and the file-patching script: none of them is part of the authoritative game state.
