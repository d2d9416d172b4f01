/** The authoritative game state of the server: a store of rooms keyed by
    room code, and the transitions of a room's life cycle
    (LOBBY -> WORD_SUBMISSION -> DRAWING -> VOTING -> GAME_OVER -> LOBBY).
    Each room is a value in the store; a transition replaces it. */
module Game {
  import opened GameTypes
  import opened GameRules
  import Text
  import Sequences

  /** The chat keeps its 50 newest messages. */
  const MaxChat: nat := 50

  const TieReason := "Vote ended in a tie. Imposter survives!"
  const ImposterOutReason := "The Imposter was voted out!"

  function InnocentReason(name: string): string
  {
    "Wrong player voted out! " + name + " was innocent."
  }

  function ImposterGuessReason(name: string): string
  {
    name + " (Imposter) guessed the word correctly!"
  }

  /** The room `createRoom` stores: no players, LOBBY, 8 seats, 2 strokes per
      turn, the extra colour allowed, round 1 of 3 and nothing recorded. */
  function FreshRoom(code: string, hostId: string): (r: Room)
    ensures r.roomCode == code && r.hostId == hostId && r.players == [] && r.phase == Lobby
    ensures r.settings == Settings(8, 2, true) && r.round == 1 && r.maxRounds == 3 && r.currentTurnIndex == 0
    ensures r.word.None? && r.imposterId.None? && r.winner.None? && r.winReason.None? && r.votes == map[]
    ensures r.drawings == [] && r.guesses == [] && r.chatMessages == [] && r.wordSubmissions == []
    ensures RoomOk(code, r)
  {
    Room(code, hostId, [], Lobby, Settings(8, 2, true), None, None, 0, 1, 3,
         [], [], [], map[], None, None, [])
  }

  /** What holds of every stored room between transitions. */
  ghost predicate RoomOk(code: string, r: Room)
  {
    && r.roomCode == code
    && |r.chatMessages| <= MaxChat
    && r.currentTurnIndex >= 0
    && r.maxRounds >= 1
    // a drawing phase is only entered once the word and the impostor are
    // chosen, and is left as soon as the round passes maxRounds
    && (r.phase == Drawing ==> r.word.Some? && r.imposterId.Some? && 1 <= r.round <= r.maxRounds)
    // nobody has voted for themselves
    && (forall v :: v in r.votes ==> r.votes[v] != v)
  }

  datatype Outcome = Applied | Refused | Threw

  datatype GuessResult = GuessResult(isCorrect: bool, isImposter: bool)

  /** Exactly one player, the one whose id is `imposterId`, is the impostor;
      everybody else is an artist. */
  ghost predicate RolesAssigned(r: Room)
  {
    && r.imposterId.Some?
    && exists k :: 0 <= k < |r.players| && r.players[k].id == r.imposterId.value
                   && r.players[k].role == Some(Imposter)
                   && forall j :: 0 <= j < |r.players| && j != k ==> r.players[j].role == Some(Artist)
  }

  // ---------------------------------------------------------- transitions

  /** The room after `startGame`. */
  function Started(r: Room): (s: Room)
    ensures s.phase == WordSubmission && s.wordSubmissions == []
    ensures SameRoster(s.players, r.players)
    ensures forall i :: 0 <= i < |s.players| ==> !s.players[i].hasSubmittedWord
    ensures s.players == ClearSubmitted(r.players)
    ensures s == r.(phase := s.phase, wordSubmissions := s.wordSubmissions, players := s.players)
  {
    r.(phase := WordSubmission, wordSubmissions := [], players := ClearSubmitted(r.players))
  }

  /** The room after player k submits `word`: the trimmed word is recorded
      and the player marked; when that was the last missing submission, the
      impostor is drawn with the first random number, the word with the
      second, roles are handed out and the drawing phase starts at round 1,
      first player. */
  function WordTaken(r: Room, k: nat, word: string, imposterPick: real, wordPick: real): (s: Room)
    requires k < |r.players| && 0.0 <= imposterPick < 1.0 && 0.0 <= wordPick < 1.0
    ensures s.wordSubmissions == r.wordSubmissions + [Submission(r.players[k].id, Text.Trim(word))]
    ensures SameRoster(s.players, r.players) && s.players[k].hasSubmittedWord
    ensures |s.wordSubmissions| != |r.players| ==>
              s == r.(wordSubmissions := s.wordSubmissions,
                      players := r.players[k := r.players[k].(hasSubmittedWord := true)])
    ensures |s.wordSubmissions| == |r.players| ==>
              && s.phase == Drawing && s.currentTurnIndex == 0 && s.round == 1
              && s.imposterId.Some? && HasPlayer(r.players, s.imposterId.value)
              // the impostor is drawn with the first random number
              && s.imposterId == Some(r.players[RandomIndex(imposterPick, |r.players|)].id)
              // roles go to the marked roster, and nothing else about a player changes
              && s.players == AssignRoles(r.players[k := r.players[k].(hasSubmittedWord := true)], s.imposterId.value)
              && s.word == Some(ChooseWord(s.wordSubmissions, s.imposterId.value, wordPick))
              // the word is somebody else's submission whenever anybody but
              // the impostor submitted
              && ((exists x :: x in s.wordSubmissions && x.playerId != s.imposterId.value) ==>
                    exists x :: x in s.wordSubmissions && x.playerId != s.imposterId.value && x.word == s.word.value)
              && (DistinctIds(r.players) ==> RolesAssigned(s))
              && s == r.(wordSubmissions := s.wordSubmissions, players := s.players, imposterId := s.imposterId,
                         word := s.word, phase := s.phase, currentTurnIndex := 0, round := 1)
  {
    var subs := r.wordSubmissions + [Submission(r.players[k].id, Text.Trim(word))];
    var marked := r.players[k := r.players[k].(hasSubmittedWord := true)];
    if |subs| == |marked| then
      var pick := RandomIndex(imposterPick, |marked|);
      var imp := marked[pick].id;
      OneImposter(marked, pick);
      assert DistinctIds(r.players) ==> DistinctIds(marked);
      assert r.players[pick].id == imp;
      r.(wordSubmissions := subs, players := AssignRoles(marked, imp), imposterId := Some(imp),
         word := Some(ChooseWord(subs, imp, wordPick)), phase := Drawing, currentTurnIndex := 0, round := 1)
    else
      r.(wordSubmissions := subs, players := marked)
  }

  /** The room after the player whose turn it is submits a drawing: the
      drawing is recorded with the current round, that player's action count
      is reset and the turn advances; wrapping past the last round opens the
      vote. */
  function Drawn(r: Room, data: string, now: int): (s: Room)
    requires 0 <= r.currentTurnIndex < |r.players|
    ensures s.drawings == r.drawings + [DrawingRecord(r.players[r.currentTurnIndex].id, r.round, data, now)]
    ensures Turn(s.currentTurnIndex, s.round) == Advance(Turn(r.currentTurnIndex, r.round), |r.players|)
    ensures s.phase == (if r.currentTurnIndex + 1 >= |r.players| && r.round + 1 > r.maxRounds then Voting else r.phase)
    ensures SameRoster(s.players, r.players)
    ensures s.players[r.currentTurnIndex] == r.players[r.currentTurnIndex].(actionsTaken := 0)
    ensures forall j :: 0 <= j < |r.players| && j != r.currentTurnIndex ==> s.players[j] == r.players[j]
    ensures s == r.(drawings := s.drawings, players := s.players, currentTurnIndex := s.currentTurnIndex,
                    round := s.round, phase := s.phase)
  {
    var i := r.currentTurnIndex;
    var t := Advance(Turn(i, r.round), |r.players|);
    r.(drawings := r.drawings + [DrawingRecord(r.players[i].id, r.round, data, now)],
       players := r.players[i := r.players[i].(actionsTaken := 0)],
       currentTurnIndex := t.index, round := t.round,
       phase := if i + 1 >= |r.players| && r.round + 1 > r.maxRounds then Voting else r.phase)
  }

  /** The room after m in-turn drawings, each submitted with `data` at time
      `now`. */
  function DrawnMany(r: Room, m: nat, data: string, now: int): (s: Room)
    requires 0 <= r.currentTurnIndex < |r.players|
    ensures |s.players| == |r.players| && s.maxRounds == r.maxRounds
    ensures Turn(s.currentTurnIndex, s.round) == AdvanceMany(Turn(r.currentTurnIndex, r.round), |r.players|, m)
    // the phase turns to VOTING once the round passes maxRounds, and not before
    ensures r.round <= r.maxRounds ==> s.phase == (if s.round > r.maxRounds then Voting else r.phase)
    decreases m
  {
    if m == 0 then r else Drawn(DrawnMany(r, m - 1, data, now), data, now)
  }

  /** From a fresh drawing phase, `maxRounds * players` in-turn drawings open
      the vote, and every shorter run stays in the drawing phase. */
  lemma DrawingOpensVote(r: Room, data: string, now: int)
    requires r.phase == Drawing && r.currentTurnIndex == 0 && r.round == 1 && r.maxRounds >= 1
    requires |r.players| > 0
    ensures DrawnMany(r, r.maxRounds * |r.players|, data, now).phase == Voting
    ensures forall m: nat :: m < r.maxRounds * |r.players| ==> DrawnMany(r, m, data, now).phase == Drawing
  {
    RoundsComplete(|r.players|, r.maxRounds);
  }

  /** Whether a guess names the word: lower-cased and trimmed, it equals the
      lower-cased word. */
  function GuessMatches(guess: string, word: string): (b: bool)
    // trimming only shortens the guess, so a match is never longer than it
    ensures b ==> |word| <= |guess|
  {
    Text.Trim(Text.ToLower(guess)) == Text.ToLower(word)
  }

  /** The comparison ignores the case of both the guess and the word. */
  lemma GuessIgnoresCase(guess: string, word: string)
    ensures GuessMatches(Text.ToLower(guess), word) == GuessMatches(guess, word)
    ensures GuessMatches(guess, Text.ToLower(word)) == GuessMatches(guess, word)
  {
    Text.ToLowerIdempotent(guess);
    Text.ToLowerIdempotent(word);
  }

  /** The room after player k guesses: the guess is recorded and the player
      marked; a correct guess locks the player, and a correct guess by the
      impostor ends the game in the impostor's favour. */
  function Guessed(r: Room, k: nat, guess: string, now: int): (s: Room)
    requires k < |r.players| && r.word.Some?
    ensures s.guesses == r.guesses + [GuessRecord(r.players[k].id, guess, GuessMatches(guess, r.word.value), now)]
    ensures SameRoster(s.players, r.players) && s.players[k].hasGuessed
    ensures s.players[k].isLocked == (r.players[k].isLocked || GuessMatches(guess, r.word.value))
    ensures s.players[k] == r.players[k].(hasGuessed := true, isLocked := s.players[k].isLocked)
    ensures forall j :: 0 <= j < |r.players| && j != k ==> s.players[j] == r.players[j]
    ensures GuessMatches(guess, r.word.value) && r.imposterId == Some(r.players[k].id) ==>
              s.phase == GameOver && s.winner == Some(ImposterWin)
              && s.winReason == Some(ImposterGuessReason(r.players[k].name))
    ensures !(GuessMatches(guess, r.word.value) && r.imposterId == Some(r.players[k].id)) ==>
              s.phase == r.phase && s.winner == r.winner && s.winReason == r.winReason
    ensures s == r.(guesses := s.guesses, players := s.players, phase := s.phase, winner := s.winner,
                    winReason := s.winReason)
  {
    var p := r.players[k];
    var correct := GuessMatches(guess, r.word.value);
    var r1 := r.(guesses := r.guesses + [GuessRecord(p.id, guess, correct, now)]);
    if correct && r.imposterId == Some(p.id) then
      r1.(players := r.players[k := p.(hasGuessed := true, isLocked := true)],
          phase := GameOver, winner := Some(ImposterWin), winReason := Some(ImposterGuessReason(p.name)))
    else
      r1.(players := r.players[k := p.(hasGuessed := true, isLocked := p.isLocked || correct)])
  }

  /** The room after `resetGame`: the lobby again, with every game field
      cleared; code, host, roster, settings and rounds stay. */
  function Reset(r: Room): (s: Room)
    ensures s.roomCode == r.roomCode && s.hostId == r.hostId && s.settings == r.settings && s.maxRounds == r.maxRounds
    ensures SameRoster(s.players, r.players) && s.players == ResetPlayers(r.players)
    ensures s.phase == Lobby && s.word.None? && s.imposterId.None? && s.currentTurnIndex == 0 && s.round == 1
    ensures s.drawings == [] && s.guesses == [] && s.chatMessages == [] && s.votes == map[]
    ensures s.winner.None? && s.winReason.None? && s.wordSubmissions == []
  {
    r.(phase := Lobby, word := None, imposterId := None, currentTurnIndex := 0, round := 1, drawings := [],
       guesses := [], chatMessages := [], votes := map[], winner := None, winReason := None,
       wordSubmissions := [], players := ResetPlayers(r.players))
  }

  /** Starting a game right after a reset opens a fresh word submission:
      nothing of the previous game is left and nobody has submitted. */
  lemma ResetThenStart(r: Room)
    ensures var s := Started(Reset(r));
            && s.phase == WordSubmission && s.wordSubmissions == []
            && s.hostId == r.hostId && s.settings == r.settings && SameRoster(s.players, r.players)
            && s.word.None? && s.imposterId.None? && s.votes == map[] && s.drawings == [] && s.guesses == []
            && s.round == 1 && s.currentTurnIndex == 0 && s.winner.None?
            && forall i :: 0 <= i < |s.players| ==>
                 !s.players[i].hasSubmittedWord && s.players[i].role.None? && !s.players[i].hasGuessed
  {
    var t := Reset(r);
    assert forall i :: 0 <= i < |t.players| ==> t.players[i].role.None? && !t.players[i].hasGuessed;
  }

  // ------------------------------------------------------ vote resolution

  /** The candidate `calculateVoteResults` votes out: the one with strictly
      the most votes, unless that is the empty string, which JavaScript
      treats like no candidate at all. */
  ghost function VotedOut(votes: map<string, string>): (o: Option<string>)
    ensures o.Some? ==> UniqueTop(votes, o.value) && o.value != ""
    ensures o.None? <==> forall c :: UniqueTop(votes, c) ==> c == ""
  {
    if exists c :: UniqueTop(votes, c) && c != "" then
      Some(var c :| UniqueTop(votes, c) && c != ""; c)
    else
      None
  }

  lemma VotedOutIs(votes: map<string, string>, c: string)
    requires UniqueTop(votes, c) && c != ""
    ensures VotedOut(votes) == Some(c)
  {
    var d := VotedOut(votes).value;
    UniqueTopIsUnique(votes, c, d);
  }

  lemma NoVotedOut(votes: map<string, string>)
    requires forall c :: UniqueTop(votes, c) ==> c == ""
    ensures VotedOut(votes) == None
  {
  }

  datatype Resolution = Resolution(room: Room, outcome: Outcome)

  /** The room after `calculateVoteResults`, and whether it threw: the game is
      over; the artists win when the impostor is voted out; the impostor wins
      on a tie, when nobody voted, or when an innocent player is voted out.
      A voted-out candidate who is no player makes the template for the
      reason read a field of `undefined`, after the phase and the winner
      were already set. */
  ghost function VoteVerdict(r: Room): (v: Resolution)
    ensures v.room.phase == GameOver && v.room.winner.Some? && v.outcome != Refused
  {
    var over := r.(phase := GameOver);
    match VotedOut(r.votes)
    case None =>
      Resolution(over.(winner := Some(ImposterWin), winReason := Some(TieReason)), Applied)
    case Some(c) =>
      if Some(c) == r.imposterId then
        Resolution(over.(winner := Some(ArtistsWin), winReason := Some(ImposterOutReason)), Applied)
      else
        match IndexOfPlayer(r.players, c)
        case None => Resolution(over.(winner := Some(ImposterWin)), Threw)
        case Some(k) =>
          Resolution(over.(winner := Some(ImposterWin), winReason := Some(InnocentReason(r.players[k].name))), Applied)
  }

  /** The verdict ends the game, names a winner and touches nothing but the
      phase, the winner and the reason; a throw leaves the old reason. */
  lemma VerdictEndsGame(r: Room)
    ensures VoteVerdict(r).room.phase == GameOver && VoteVerdict(r).room.winner.Some?
    ensures VoteVerdict(r).room ==
              r.(phase := GameOver, winner := VoteVerdict(r).room.winner, winReason := VoteVerdict(r).room.winReason)
    ensures VoteVerdict(r).outcome == Threw ==>
              VoteVerdict(r).room.winReason == r.winReason && VoteVerdict(r).room.winner == Some(ImposterWin)
  {
  }

  /** The artists win exactly when one candidate has strictly the most votes
      and that candidate is the impostor; a throw happens exactly when that
      candidate is an innocent who is not in the room. */
  lemma ArtistsWinExactly(r: Room)
    ensures VoteVerdict(r).room.winner == Some(ArtistsWin) <==>
              exists c :: UniqueTop(r.votes, c) && c != "" && r.imposterId == Some(c)
    ensures VoteVerdict(r).outcome == Threw <==>
              exists c :: UniqueTop(r.votes, c) && c != "" && r.imposterId != Some(c) && !HasPlayer(r.players, c)
  {
    if exists c :: UniqueTop(r.votes, c) && c != "" {
      var c :| UniqueTop(r.votes, c) && c != "";
      VotedOutIs(r.votes, c);
      forall d | UniqueTop(r.votes, d) && d != ""
        ensures d == c
      {
        UniqueTopIsUnique(r.votes, c, d);
      }
    }
  }

  /** A tie, or no votes at all, is a win for the impostor. */
  lemma TieMeansImposterWins(r: Room)
    requires forall c :: !UniqueTop(r.votes, c)
    ensures VoteVerdict(r).room.winner == Some(ImposterWin)
    ensures VoteVerdict(r).room.winReason == Some(TieReason)
  {
    NoVotedOut(r.votes);
  }

  // ------------------------------------------------------------ the store

  /** Every room in the store is well-formed under its own code. */
  ghost predicate AllOk(rooms: map<string, Room>)
  {
    forall code :: code in rooms ==> RoomOk(code, rooms[code])
  }

  /** Storing a well-formed room keeps every stored room well-formed. */
  lemma StoreOk(rooms: map<string, Room>, code: string, r: Room)
    requires AllOk(rooms) && RoomOk(code, r)
    ensures AllOk(rooms[code := r])
  {
  }

  class GameManager {
    var rooms: map<string, Room>

    ghost predicate Valid()
      reads this
    {
      AllOk(rooms)
    }

    constructor ()
      ensures Valid() && rooms == map[]
    {
      rooms := map[];
    }

    /** createRoom: stores a fresh room under the code, replacing any room
        that had it. */
    method CreateRoom(code: string, hostId: string) returns (room: Room)
      requires Valid()
      modifies this
      ensures Valid()
      ensures room == FreshRoom(code, hostId) && rooms == old(rooms)[code := room]
    {
      room := FreshRoom(code, hostId);
      rooms := rooms[code := room];
    }

    /** getRoom. */
    function GetRoom(code: string): (r: Option<Room>)
      reads this
      ensures r.Some? <==> code in rooms
      ensures r.Some? ==> r.value == rooms[code]
    {
      if code in rooms then Some(rooms[code]) else None
    }

    /** addPlayer: appends the player with the first free palette colour and
        every per-game flag cleared. */
    method AddPlayer(code: string, info: PlayerInfo) returns (added: Option<Player>)
      requires Valid()
      modifies this
      ensures Valid()
      ensures code !in old(rooms) ==> added.None? && rooms == old(rooms)
      ensures code in old(rooms) ==>
                var r := old(rooms)[code];
                && added == Some(NewPlayer(info, PickColor(Colors(r.players))))
                && rooms == old(rooms)[code := r.(players := r.players + [added.value])]
      // in a room with a free palette colour, nobody else has the new colour
      ensures code in old(rooms) && |old(rooms)[code].players| < |Palette| ==>
                forall p :: p in old(rooms)[code].players ==> p.color != added.value.color
    {
      if code !in rooms {
        return None;
      }
      var r := rooms[code];
      var used := Colors(r.players);
      if |r.players| < |Palette| {
        ColorIsFresh(used);
        forall p | p in r.players ensures p.color != PickColor(used) {
          var i :| 0 <= i < |r.players| && r.players[i] == p;
          assert used[i] == p.color;
        }
      }
      var p := NewPlayer(info, PickColor(used));
      rooms := rooms[code := r.(players := r.players + [p])];
      return Some(p);
    }

    /** removePlayer: drops every player with the id; a departing host hands
        over to the first remaining player, and an empty room is deleted. */
    method RemovePlayer(code: string, id: string)
      requires Valid()
      modifies this
      ensures Valid()
      ensures code !in old(rooms) ==> rooms == old(rooms)
      ensures code in old(rooms) ==>
                var r := old(rooms)[code];
                var rest := WithoutPlayer(r.players, id);
                && (rest == [] ==> rooms == old(rooms) - {code})
                && (rest != [] ==>
                      rooms == old(rooms)[code := r.(players := rest,
                                                     hostId := if r.hostId == id then rest[0].id else r.hostId)])
    {
      if code !in rooms {
        return;
      }
      var r := rooms[code];
      var rest := WithoutPlayer(r.players, id);
      r := r.(players := rest);
      if r.hostId == id && |rest| > 0 {
        r := r.(hostId := rest[0].id);
      }
      if |rest| == 0 {
        rooms := rooms - {code};
      } else {
        rooms := rooms[code := r];
      }
    }

    /** startGame: with two players or more, in any phase, opens word
        submission with no submissions and nobody marked as submitted. */
    method StartGame(code: string) returns (ok: bool)
      requires Valid()
      modifies this
      ensures Valid()
      ensures ok <==> code in old(rooms) && |old(rooms)[code].players| >= 2
      ensures !ok ==> rooms == old(rooms)
      ensures ok ==> rooms == old(rooms)[code := Started(old(rooms)[code])]
    {
      if code !in rooms || |rooms[code].players| < 2 {
        return false;
      }
      var r := rooms[code];
      r := r.(phase := WordSubmission);
      r := r.(wordSubmissions := []);
      r := r.(players := ClearSubmitted(r.players));
      rooms := rooms[code := r];
      return true;
    }

    /** submitWord: records the trimmed word of a player who has not submitted
        yet; the last submission picks the impostor with the first random
        number and the word with the second, assigns the roles and starts
        round 1 of the drawing phase at the first player. */
    method SubmitWord(code: string, id: string, word: string, imposterPick: real, wordPick: real)
        returns (ok: bool)
      requires Valid()
      requires 0.0 <= imposterPick < 1.0 && 0.0 <= wordPick < 1.0
      modifies this
      ensures Valid()
      ensures ok <==>
                && code in old(rooms) && old(rooms)[code].phase == WordSubmission
                && HasPlayer(old(rooms)[code].players, id)
                && !old(rooms)[code].players[IndexOfPlayer(old(rooms)[code].players, id).value].hasSubmittedWord
      ensures !ok ==> rooms == old(rooms)
      ensures ok ==>
                rooms == old(rooms)[code := WordTaken(old(rooms)[code], IndexOfPlayer(old(rooms)[code].players, id).value,
                                                      word, imposterPick, wordPick)]
    {
      if code !in rooms || rooms[code].phase != WordSubmission {
        return false;
      }
      var r := rooms[code];
      var found := IndexOfPlayer(r.players, id);
      if found.None? || r.players[found.value].hasSubmittedWord {
        return false;
      }
      var k := found.value;
      ghost var r0 := r;
      var subs := r.wordSubmissions + [Submission(id, Text.Trim(word))];
      var player := r.players[k].(hasSubmittedWord := true);
      r := r.(wordSubmissions := subs, players := r.players[k := player]);
      if |subs| == |r.players| {
        var imp := r.players[RandomIndex(imposterPick, |r.players|)].id;
        r := r.(imposterId := Some(imp));
        r := r.(word := Some(ChooseWord(subs, imp, wordPick)));
        r := r.(players := AssignRoles(r.players, imp));
        r := r.(phase := Drawing, currentTurnIndex := 0, round := 1);
      }
      assert r == WordTaken(r0, k, word, imposterPick, wordPick);
      assert RoomOk(code, r);
      StoreOk(rooms, code, r);
      rooms := rooms[code := r];
      return true;
    }

    /** submitDrawing: the player whose turn it is records a drawing tagged
        with the current round, and the turn moves on; passing the last
        player starts the next round, and passing the last round opens the
        vote. A turn index past the roster (after a player left) makes the
        source read a field of `undefined`. */
    method SubmitDrawing(code: string, id: string, data: string, now: int) returns (out: Outcome)
      requires Valid()
      modifies this
      ensures Valid()
      ensures out == Threw <==>
                code in old(rooms) && old(rooms)[code].phase == Drawing &&
                old(rooms)[code].currentTurnIndex >= |old(rooms)[code].players|
      ensures out == Applied <==>
                && code in old(rooms) && old(rooms)[code].phase == Drawing
                && old(rooms)[code].currentTurnIndex < |old(rooms)[code].players|
                && old(rooms)[code].players[old(rooms)[code].currentTurnIndex].id == id
      ensures out != Applied ==> rooms == old(rooms)
      ensures out == Applied ==> rooms == old(rooms)[code := Drawn(old(rooms)[code], data, now)]
    {
      if code !in rooms || rooms[code].phase != Drawing {
        return Refused;
      }
      var r := rooms[code];
      var i := r.currentTurnIndex;
      if i >= |r.players| {
        return Threw;
      }
      if r.players[i].id != id {
        return Refused;
      }
      var index := i + 1;
      var round := r.round;
      var phase := r.phase;
      if index >= |r.players| {
        index := 0;
        round := round + 1;
        if round > r.maxRounds {
          phase := Voting;
        }
      }
      var players := r.players[i := r.players[i].(actionsTaken := 0)];
      rooms := rooms[code := r.(drawings := r.drawings + [DrawingRecord(id, r.round, data, now)],
                                players := players, currentTurnIndex := index, round := round, phase := phase)];
      return Applied;
    }

    /** submitMessage: a player of the room posts trimmed text under their
        name and colour; the chat keeps its 50 newest messages. */
    method SubmitMessage(code: string, id: string, text: string, messageId: string, now: int)
        returns (sent: Option<ChatMessage>)
      requires Valid()
      modifies this
      ensures Valid()
      ensures sent.None? <==> code !in old(rooms) || !HasPlayer(old(rooms)[code].players, id)
      ensures sent.None? ==> rooms == old(rooms)
      ensures sent.Some? ==>
                var r := old(rooms)[code];
                var p := r.players[IndexOfPlayer(r.players, id).value];
                && sent.value == ChatMessage(messageId, id, p.name, Text.Trim(text), now, p.color)
                && rooms == old(rooms)[code := r.(chatMessages := Sequences.AppendCapped(r.chatMessages, sent.value, MaxChat))]
      ensures sent.Some? ==> |rooms[code].chatMessages| <= MaxChat
    {
      if code !in rooms {
        return None;
      }
      var r := rooms[code];
      var found := IndexOfPlayer(r.players, id);
      if found.None? {
        return None;
      }
      var p := r.players[found.value];
      var m := ChatMessage(messageId, id, p.name, Text.Trim(text), now, p.color);
      Sequences.AppendCappedBound(r.chatMessages, m, MaxChat);
      rooms := rooms[code := r.(chatMessages := Sequences.AppendCapped(r.chatMessages, m, MaxChat))];
      return Some(m);
    }

    /** submitGuess (legacy): a player who has not guessed yet guesses once;
        a correct guess locks them, and a correct guess by the impostor ends
        the game in the impostor's favour. A guess is compared lower-cased
        and trimmed against the lower-cased word. */
    method SubmitGuess(code: string, id: string, guess: string, now: int) returns (res: Option<GuessResult>)
      requires Valid()
      modifies this
      ensures Valid()
      ensures res.None? <==>
                || code !in old(rooms) || old(rooms)[code].phase != Drawing
                || !HasPlayer(old(rooms)[code].players, id)
                || old(rooms)[code].players[IndexOfPlayer(old(rooms)[code].players, id).value].hasGuessed
      ensures res.None? ==> rooms == old(rooms)
      ensures res.Some? ==>
                var r := old(rooms)[code];
                var k := IndexOfPlayer(r.players, id).value;
                && res.value == GuessResult(GuessMatches(guess, r.word.value), r.imposterId == Some(id))
                && rooms == old(rooms)[code := Guessed(r, k, guess, now)]
    {
      if code !in rooms || rooms[code].phase != Drawing {
        return None;
      }
      var r := rooms[code];
      var found := IndexOfPlayer(r.players, id);
      if found.None? || r.players[found.value].hasGuessed {
        return None;
      }
      var k := found.value;
      var correct := GuessMatches(guess, r.word.value);
      var s := Guessed(r, k, guess, now);
      assert RoomOk(code, s);
      StoreOk(rooms, code, s);
      rooms := rooms[code := s];
      return Some(GuessResult(correct, Some(id) == r.imposterId));
    }

    /** calculateVoteResults: tallies the votes and settles the game as
        `VoteVerdict` says. */
    method CalculateVoteResults(code: string) returns (out: Outcome)
      requires Valid()
      modifies this
      ensures Valid()
      ensures code !in old(rooms) ==> out == Refused && rooms == old(rooms)
      ensures code in old(rooms) ==>
                && rooms == old(rooms)[code := VoteVerdict(old(rooms)[code]).room]
                && out == VoteVerdict(old(rooms)[code]).outcome
    {
      if code !in rooms {
        return Refused;
      }
      var r := rooms[code];
      var votedOut, maxVotes, isTie := Tally(r.players, r.votes);
      var over := r.(phase := GameOver);
      if isTie || votedOut.None? || votedOut.value == "" {
        forall c | UniqueTop(r.votes, c) ensures c == "" {
          UniqueTopIsUnique(r.votes, c, votedOut.value);
        }
        NoVotedOut(r.votes);
        over := over.(winner := Some(ImposterWin), winReason := Some(TieReason));
        out := Applied;
      } else {
        VotedOutIs(r.votes, votedOut.value);
        if Some(votedOut.value) == r.imposterId {
          over := over.(winner := Some(ArtistsWin), winReason := Some(ImposterOutReason));
          out := Applied;
        } else {
          var found := IndexOfPlayer(r.players, votedOut.value);
          over := over.(winner := Some(ImposterWin));
          if found.None? {
            out := Threw;
          } else {
            over := over.(winReason := Some(InnocentReason(r.players[found.value].name)));
            out := Applied;
          }
        }
      }
      rooms := rooms[code := over];
    }

    /** submitVote: in the voting phase, records (or replaces) the voter's
        choice of anybody but themselves; once there are as many voters as
        players, the vote is settled. */
    method SubmitVote(code: string, voterId: string, candidateId: string) returns (out: Outcome)
      requires Valid()
      modifies this
      ensures Valid()
      ensures out == Refused <==>
                code !in old(rooms) || old(rooms)[code].phase != Voting || voterId == candidateId
      ensures out == Refused ==> rooms == old(rooms)
      ensures out != Refused ==>
                var r := old(rooms)[code];
                var cast := r.(votes := r.votes[voterId := candidateId]);
                && (|cast.votes| != |r.players| ==> out == Applied && rooms == old(rooms)[code := cast])
                && (|cast.votes| == |r.players| ==>
                      rooms == old(rooms)[code := VoteVerdict(cast).room] && out == VoteVerdict(cast).outcome)
    {
      if code !in rooms || rooms[code].phase != Voting || voterId == candidateId {
        return Refused;
      }
      var r := rooms[code];
      var cast := r.(votes := r.votes[voterId := candidateId]);
      rooms := rooms[code := cast];
      if |cast.votes| == |cast.players| {
        out := CalculateVoteResults(code);
        VerdictEndsGame(cast);
      } else {
        out := Applied;
      }
    }

    /** forceVote: the host, in any phase, opens the vote at turn index 0. */
    method ForceVote(code: string, id: string) returns (ok: bool)
      requires Valid()
      modifies this
      ensures Valid()
      ensures ok <==> code in old(rooms) && old(rooms)[code].hostId == id
      ensures !ok ==> rooms == old(rooms)
      ensures ok ==> rooms == old(rooms)[code := old(rooms)[code].(phase := Voting, currentTurnIndex := 0)]
    {
      if code !in rooms || rooms[code].hostId != id {
        return false;
      }
      rooms := rooms[code := rooms[code].(phase := Voting, currentTurnIndex := 0)];
      return true;
    }

    /** resetGame: back to the lobby with every game field cleared; the host,
        the roster, its order and colours, the settings and the number of
        rounds stay. */
    method ResetGame(code: string) returns (ok: bool)
      requires Valid()
      modifies this
      ensures Valid()
      ensures ok <==> code in old(rooms)
      ensures !ok ==> rooms == old(rooms)
      ensures ok ==> rooms == old(rooms)[code := Reset(old(rooms)[code])]
    {
      if code !in rooms {
        return false;
      }
      var r := rooms[code];
      rooms := rooms[code := r.(phase := Lobby, word := None, imposterId := None,
                                currentTurnIndex := 0, round := 1, drawings := [],
                                guesses := [], chatMessages := [], votes := map[],
                                winner := None, winReason := None, wordSubmissions := [],
                                players := ResetPlayers(r.players))];
      return true;
    }
  }

  /** The vote that completes the tally ends the game, so any later vote is
      refused and leaves the store as it is. */
  method VoteAfterVerdict(gm: GameManager, code: string, voter: string, candidate: string,
                          lateVoter: string, lateCandidate: string)
      returns (first: Outcome, late: Outcome)
    requires gm.Valid() && code in gm.rooms && gm.rooms[code].phase == Voting && voter != candidate
    requires |gm.rooms[code].votes[voter := candidate]| == |gm.rooms[code].players|
    modifies gm
    ensures first != Refused && late == Refused
    ensures code in gm.rooms && gm.rooms[code].phase == GameOver && gm.rooms[code].winner.Some?
  {
    ghost var r := gm.rooms[code];
    first := gm.SubmitVote(code, voter, candidate);
    VerdictEndsGame(r.(votes := r.votes[voter := candidate]));
    assert gm.rooms[code] == VoteVerdict(r.(votes := r.votes[voter := candidate])).room;
    late := gm.SubmitVote(code, lateVoter, lateCandidate);
  }
}
