/** The guards of the socket handlers: which requests reach the game store,
    the error each rejection answers with, the per-player word reveal and
    the bookkeeping of which connection plays in which room. Sockets,
    callbacks and broadcasts are not modelled; each handler returns what its
    callback would be given. */
module Server {
  import opened GameTypes
  import opened GameRules
  import opened Game
  import Text
  import Sequences

  /** The avatar every player joins with (U+1F464, bust in silhouette). */
  const Avatar: string := "\U{1F464}"

  /** A `socketToPlayer` entry. */
  datatype Binding = Binding(roomCode: string, playerId: string)

  /** The `word_reveal` payload for one player. */
  datatype Reveal = Reveal(playerId: string, role: Option<Role>, word: Option<string>, isImposter: bool)

  /** A player's reveal: the role, and the word unless the player is the
      impostor. */
  function RevealFor(p: Player, word: Option<string>): (v: Reveal)
    ensures v.playerId == p.id && v.role == p.role
    ensures v.isImposter <==> p.role == Some(Imposter)
    ensures v.word.None? <==> p.role == Some(Imposter) || word.None?
    ensures v.word.Some? ==> v.word == word
  {
    Reveal(p.id, p.role, if p.role == Some(Imposter) then None else word, p.role == Some(Imposter))
  }

  /** The players with an open connection, in roster order. */
  function LivePlayers(players: seq<Player>, live: set<string>): (ps: seq<Player>)
    ensures |ps| <= |players|
  {
    if |players| == 0 then []
    else
      var front := players[..|players| - 1];
      var last := players[|players| - 1];
      assert players == front + [last];
      LivePlayers(front, live) + (if last.id in live then [last] else [])
  }

  /** A player is kept exactly when it is in the roster and its connection
      is open. */
  lemma {:induction false} LivePlayersMembers(players: seq<Player>, live: set<string>)
    ensures forall p :: p in LivePlayers(players, live) <==> p in players && p.id in live
    decreases |players|
  {
    if |players| > 0 {
      var front := players[..|players| - 1];
      assert players == front + [players[|players| - 1]];
      LivePlayersMembers(front, live);
    }
  }

  /** Keeping the connected players distributes over concatenation, so each
      part of the roster keeps its order in the result. */
  lemma {:induction false} LivePlayersAppend(a: seq<Player>, b: seq<Player>, live: set<string>)
    ensures LivePlayers(a + b, live) == LivePlayers(a, live) + LivePlayers(b, live)
    decreases |b|
  {
    if |b| == 0 {
      assert a + b == a;
    } else {
      var front := b[..|b| - 1];
      var ab := a + b;
      assert ab[..|ab| - 1] == a + front;
      assert ab[|ab| - 1] == b[|b| - 1];
      LivePlayersAppend(a, front, live);
    }
  }

  /** The reveals sent after the last word: one for each player with an open
      connection, in roster order. Nobody but the impostor goes without the
      word, and everybody else is sent the room's word. */
  function Reveals(players: seq<Player>, word: Option<string>, live: set<string>): (rs: seq<Reveal>)
    ensures |rs| == |LivePlayers(players, live)|
    ensures forall i :: 0 <= i < |rs| ==> rs[i] == RevealFor(LivePlayers(players, live)[i], word)
  {
    if |players| == 0 then []
    else
      var front := players[..|players| - 1];
      var last := players[|players| - 1];
      assert players == front + [last];
      Reveals(front, word, live) + (if last.id in live then [RevealFor(last, word)] else [])
  }

  /** Every connected player is sent a reveal and nobody else is; only the
      impostor goes without the word. */
  lemma RevealsCover(players: seq<Player>, word: Option<string>, live: set<string>)
    ensures var rs := Reveals(players, word, live);
            && (forall p :: p in players && p.id in live ==> RevealFor(p, word) in rs)
            && (forall i :: 0 <= i < |rs| ==> rs[i].playerId in live)
            && (forall i :: 0 <= i < |rs| ==> (rs[i].isImposter <==> rs[i].role == Some(Imposter)))
            && (forall i :: 0 <= i < |rs| ==> (rs[i].word.Some? ==> rs[i].word == word))
            && (word.Some? ==> forall i :: 0 <= i < |rs| ==> (rs[i].word.None? <==> rs[i].role == Some(Imposter)))
  {
    var rs := Reveals(players, word, live);
    var ps := LivePlayers(players, live);
    LivePlayersMembers(players, live);
    forall p | p in players && p.id in live
      ensures RevealFor(p, word) in rs
    {
      var j :| 0 <= j < |ps| && ps[j] == p;
      assert rs[j] == RevealFor(p, word);
    }
    forall i | 0 <= i < |rs|
      ensures rs[i].playerId in live
    {
      assert ps[i] in ps;
    }
  }

  /** Once roles are handed out, the reveal addressed to the impostor carries
      no word, and every other reveal carries the room's word. */
  lemma ImposterNotSentWord(r: Room, live: set<string>)
    requires DistinctIds(r.players) && RolesAssigned(r)
    ensures var rs := Reveals(r.players, r.word, live);
            forall i :: 0 <= i < |rs| ==>
              (rs[i].playerId == r.imposterId.value ==> rs[i].word.None?) &&
              (rs[i].playerId != r.imposterId.value ==> rs[i].word == r.word)
  {
    var rs := Reveals(r.players, r.word, live);
    var ps := LivePlayers(r.players, live);
    LivePlayersMembers(r.players, live);
    var k :| 0 <= k < |r.players| && r.players[k].id == r.imposterId.value
             && r.players[k].role == Some(Imposter)
             && forall j :: 0 <= j < |r.players| && j != k ==> r.players[j].role == Some(Artist);
    forall i | 0 <= i < |rs|
      ensures rs[i].playerId == r.imposterId.value ==> rs[i].word.None?
      ensures rs[i].playerId != r.imposterId.value ==> rs[i].word == r.word
    {
      var p := ps[i];
      assert rs[i] == RevealFor(p, r.word);
      assert p in r.players;
      var j :| 0 <= j < |r.players| && r.players[j] == p;
      if j != k {
        assert p.id != r.imposterId.value;
        assert p.role == Some(Artist);
      }
    }
  }

  /** Extending the roster by one player extends the reveals by at most that
      player's reveal. */
  lemma RevealsSnoc(players: seq<Player>, i: nat, word: Option<string>, live: set<string>)
    requires i < |players|
    ensures Reveals(players[..i + 1], word, live) ==
            Reveals(players[..i], word, live) + (if players[i].id in live then [RevealFor(players[i], word)] else [])
  {
    assert players[..i + 1][..i] == players[..i];
  }

  /** The `forEach` over the players that emits the reveals. */
  method BuildReveals(players: seq<Player>, word: Option<string>, live: set<string>) returns (rs: seq<Reveal>)
    ensures rs == Reveals(players, word, live)
  {
    rs := [];
    var i := 0;
    while i < |players|
      invariant 0 <= i <= |players|
      invariant rs == Reveals(players[..i], word, live)
    {
      var p := players[i];
      RevealsSnoc(players, i, word, live);
      if p.id in live {
        rs := rs + [RevealFor(p, word)];
      }
      i := i + 1;
    }
    assert players[..|players|] == players;
  }

  /** The reveals `submit_word` sends for the room it left behind: none
      unless the drawing phase has begun. */
  method WordRevealed(r: Room, live: set<string>) returns (payloads: seq<Reveal>)
    requires r.phase == Drawing ==> r.word.Some?
    ensures r.phase == Drawing ==> payloads == Reveals(r.players, r.word, live)
    ensures r.phase != Drawing ==> payloads == []
    ensures forall v :: v in payloads ==> (v.word.None? <==> v.role == Some(Imposter)) && (v.word.Some? ==> v.word == r.word)
    ensures r.phase == Drawing && DistinctIds(r.players) && RolesAssigned(r) ==>
              forall i :: 0 <= i < |payloads| ==>
                (payloads[i].playerId == r.imposterId.value ==> payloads[i].word.None?) &&
                (payloads[i].playerId != r.imposterId.value ==> payloads[i].word == r.word)
  {
    if r.phase == Drawing {
      payloads := BuildReveals(r.players, r.word, live);
      RevealsCover(r.players, r.word, live);
      if DistinctIds(r.players) && RolesAssigned(r) {
        ImposterNotSentWord(r, live);
      }
    } else {
      payloads := [];
    }
  }

  /** The round the new_drawing event announces for the room after a drawing:
      `round - (currentTurnIndex === 0 ? 1 : 0)`. */
  function AnnouncedRound(s: Room): (a: int)
    ensures s.round - 1 <= a <= s.round
    ensures a == s.round <==> s.currentTurnIndex != 0
  {
    s.round - (if s.currentTurnIndex == 0 then 1 else 0)
  }

  /** The announced round is the round the drawing was recorded in. */
  lemma DrawnRound(r: Room, data: string, now: int)
    requires 0 <= r.currentTurnIndex < |r.players|
    ensures AnnouncedRound(Drawn(r, data, now)) == r.round
    ensures Drawn(r, data, now).drawings[|Drawn(r, data, now).drawings| - 1].round == r.round
  {
    EmittedRound(Turn(r.currentTurnIndex, r.round), |r.players|);
  }

  lemma HasPlayerAppend(players: seq<Player>, p: Player, id: string)
    requires HasPlayer(players, id)
    ensures HasPlayer(players + [p], id)
  {
    var k := IndexOfPlayer(players, id).value;
    assert (players + [p])[k].id == id;
  }

  /** Every stored room has its host among its players. */
  ghost predicate HostsPresent(rooms: map<string, Room>)
  {
    forall code :: code in rooms ==> HasPlayer(rooms[code].players, rooms[code].hostId)
  }

  /** A room whose roster kept its ids and whose host did not change still
      has its host. */
  lemma HostKept(rooms: map<string, Room>, code: string, r: Room)
    requires HostsPresent(rooms) && code in rooms
    requires SameRoster(r.players, rooms[code].players) && r.hostId == rooms[code].hostId
    ensures HostsPresent(rooms[code := r])
  {
    SameRosterHasPlayer(r.players, rooms[code].players, r.hostId);
  }

  /** Storing a room whose host is one of its players keeps every host present. */
  lemma HostInRoom(rooms: map<string, Room>, code: string, r: Room)
    requires HostsPresent(rooms) && HasPlayer(r.players, r.hostId)
    ensures HostsPresent(rooms[code := r])
  {
  }

  /** Deleting a room keeps every other host present. */
  lemma HostsRemoved(rooms: map<string, Room>, code: string)
    requires HostsPresent(rooms)
    ensures HostsPresent(rooms - {code})
  {
  }

  class Gateway {
    const gm: GameManager
    var socketToPlayer: map<string, Binding>

    ghost predicate Valid()
      reads this, gm
    {
      && gm.Valid()
      // a connection plays under its own id
      && (forall s :: s in socketToPlayer ==> socketToPlayer[s].playerId == s)
      && HostsPresent(gm.rooms)
    }

    constructor ()
      ensures Valid() && fresh(gm) && gm.rooms == map[] && socketToPlayer == map[]
    {
      gm := new GameManager();
      socketToPlayer := map[];
    }

    /** create_room: a fresh room under `code` with the connection as host and
        only player, and the connection bound to it. */
    method CreateRoom(socketId: string, playerName: string, code: string) returns (player: Player, room: Room)
      requires Valid()
      modifies this, gm
      ensures Valid()
      ensures player == NewPlayer(PlayerInfo(socketId, playerName, Avatar), Palette[0])
      ensures room == FreshRoom(code, socketId).(players := [player])
      ensures room.hostId == player.id == socketId
      ensures gm.rooms == old(gm.rooms)[code := room]
      ensures socketToPlayer == old(socketToPlayer)[socketId := Binding(code, socketId)]
    {
      ghost var before := gm.rooms;
      var bindings := socketToPlayer;
      var created := gm.CreateRoom(code, socketId);
      assert created.players == [] && Colors(created.players) == [];
      var added := gm.AddPlayer(code, PlayerInfo(socketId, playerName, Avatar));
      PickColorEmpty();
      player := added.value;
      assert player == NewPlayer(PlayerInfo(socketId, playerName, Avatar), Palette[0]);
      room := gm.rooms[code];
      assert room == created.(players := [player]);
      assert IndexOfPlayer(room.players, socketId) == Some(0);
      HostInRoom(before, code, room);
      assert gm.rooms == before[code := room];
      assert gm.Valid() && HostsPresent(gm.rooms);
      socketToPlayer := bindings[socketId := Binding(code, socketId)];
    }

    /** join_room: rejects a missing room, then a game in progress, then a
        full room; otherwise adds the player and binds the connection. */
    method JoinRoom(socketId: string, code: string, playerName: string)
        returns (ok: bool, err: string, player: Option<Player>)
      requires Valid()
      modifies this, gm
      ensures Valid()
      ensures code !in old(gm.rooms) ==> !ok && err == "Room not found"
      ensures code in old(gm.rooms) && old(gm.rooms)[code].phase != Lobby ==>
                !ok && err == "Game already in progress"
      ensures code in old(gm.rooms) && old(gm.rooms)[code].phase == Lobby &&
              |old(gm.rooms)[code].players| >= old(gm.rooms)[code].settings.maxPlayers ==>
                !ok && err == "Room is full"
      ensures ok <==>
                code in old(gm.rooms) && old(gm.rooms)[code].phase == Lobby &&
                |old(gm.rooms)[code].players| < old(gm.rooms)[code].settings.maxPlayers
      ensures !ok ==> player.None? && gm.rooms == old(gm.rooms) && socketToPlayer == old(socketToPlayer)
      ensures ok ==>
                var r := old(gm.rooms)[code];
                && player == Some(NewPlayer(PlayerInfo(socketId, playerName, Avatar), PickColor(Colors(r.players))))
                && gm.rooms == old(gm.rooms)[code := r.(players := r.players + [player.value])]
                && socketToPlayer == old(socketToPlayer)[socketId := Binding(code, socketId)]
    {
      if code !in gm.rooms {
        return false, "Room not found", None;
      }
      var r := gm.rooms[code];
      if r.phase != Lobby {
        return false, "Game already in progress", None;
      }
      if |r.players| >= r.settings.maxPlayers {
        return false, "Room is full", None;
      }
      ghost var before := gm.rooms;
      player := gm.AddPlayer(code, PlayerInfo(socketId, playerName, Avatar));
      HasPlayerAppend(r.players, player.value, r.hostId);
      assert HostsPresent(gm.rooms) by {
        forall c | c in gm.rooms ensures HasPlayer(gm.rooms[c].players, gm.rooms[c].hostId) {
          if c != code {
            assert gm.rooms[c] == before[c];
          }
        }
      }
      socketToPlayer := socketToPlayer[socketId := Binding(code, socketId)];
      return true, "", player;
    }

    /** start_game: only the host of an existing room may start, and only
        with two players or more. */
    method StartGame(socketId: string, code: string) returns (ok: bool, err: string)
      requires Valid()
      modifies this, gm
      ensures Valid() && socketToPlayer == old(socketToPlayer)
      ensures code !in old(gm.rooms) ==> !ok && err == "Room not found"
      ensures code in old(gm.rooms) && old(gm.rooms)[code].hostId != socketId ==>
                !ok && err == "Only host can start game"
      ensures code in old(gm.rooms) && old(gm.rooms)[code].hostId == socketId &&
              |old(gm.rooms)[code].players| < 2 ==>
                !ok && err == "Not enough players"
      ensures ok <==>
                code in old(gm.rooms) && old(gm.rooms)[code].hostId == socketId &&
                |old(gm.rooms)[code].players| >= 2
      ensures !ok ==> gm.rooms == old(gm.rooms)
      ensures ok ==> gm.rooms == old(gm.rooms)[code := Started(old(gm.rooms)[code])]
    {
      if code !in gm.rooms {
        return false, "Room not found";
      }
      if gm.rooms[code].hostId != socketId {
        return false, "Only host can start game";
      }
      ok := gm.StartGame(code);
      if !ok {
        return false, "Not enough players";
      }
      HostKept(old(gm.rooms), code, gm.rooms[code]);
      err := "";
    }

    /** submit_word: delegates to the store; once the last word is in and
        the drawing phase has begun, builds one reveal per connected player. */
    method SubmitWord(socketId: string, code: string, word: string, imposterPick: real, wordPick: real,
                      live: set<string>)
        returns (ok: bool, err: string, payloads: seq<Reveal>)
      requires Valid()
      requires 0.0 <= imposterPick < 1.0 && 0.0 <= wordPick < 1.0
      modifies this, gm
      ensures Valid() && socketToPlayer == old(socketToPlayer)
      ensures ok <==>
                && code in old(gm.rooms) && old(gm.rooms)[code].phase == WordSubmission
                && HasPlayer(old(gm.rooms)[code].players, socketId)
                && !old(gm.rooms)[code].players[IndexOfPlayer(old(gm.rooms)[code].players, socketId).value].hasSubmittedWord
      ensures !ok ==> err == "Invalid submission" && payloads == [] && gm.rooms == old(gm.rooms)
      ensures ok ==>
                gm.rooms == old(gm.rooms)[code := WordTaken(old(gm.rooms)[code],
                                                            IndexOfPlayer(old(gm.rooms)[code].players, socketId).value,
                                                            word, imposterPick, wordPick)]
      ensures ok && gm.rooms[code].phase == Drawing ==>
                payloads == Reveals(gm.rooms[code].players, gm.rooms[code].word, live)
      ensures !(ok && gm.rooms[code].phase == Drawing) ==> payloads == []
      // nobody but the impostor learns the word, and everybody else gets it
      ensures forall v :: v in payloads ==>
                (v.word.None? <==> v.role == Some(Imposter)) && (v.word.Some? ==> v.word == gm.rooms[code].word)
      // with distinct player ids, the reveal addressed to the impostor has no word
      ensures ok && gm.rooms[code].phase == Drawing && DistinctIds(old(gm.rooms)[code].players) ==>
                forall i :: 0 <= i < |payloads| ==>
                  (payloads[i].playerId == gm.rooms[code].imposterId.value ==> payloads[i].word.None?) &&
                  (payloads[i].playerId != gm.rooms[code].imposterId.value ==> payloads[i].word == gm.rooms[code].word)
    {
      ok := gm.SubmitWord(code, socketId, word, imposterPick, wordPick);
      assert socketToPlayer == old(socketToPlayer);
      if !ok {
        return false, "Invalid submission", [];
      }
      var r := gm.rooms[code];
      HostKept(old(gm.rooms), code, r);
      err := "";
      payloads := WordRevealed(r, live);
    }

    /** submit_drawing: delegates to the store and reports the round of the
        drawing in the new_drawing event. */
    method SubmitDrawing(socketId: string, code: string, data: string, now: int)
        returns (out: Outcome, err: string, drawingRound: Option<int>)
      requires Valid()
      modifies this, gm
      ensures Valid() && socketToPlayer == old(socketToPlayer)
      ensures out == Threw <==>
                code in old(gm.rooms) && old(gm.rooms)[code].phase == Drawing &&
                old(gm.rooms)[code].currentTurnIndex >= |old(gm.rooms)[code].players|
      ensures out == Applied <==>
                && code in old(gm.rooms) && old(gm.rooms)[code].phase == Drawing
                && old(gm.rooms)[code].currentTurnIndex < |old(gm.rooms)[code].players|
                && old(gm.rooms)[code].players[old(gm.rooms)[code].currentTurnIndex].id == socketId
      ensures out != Applied ==> gm.rooms == old(gm.rooms) && drawingRound.None?
      ensures out == Refused ==> err == "Not your turn or invalid action"
      ensures out == Applied ==>
                && gm.rooms == old(gm.rooms)[code := Drawn(old(gm.rooms)[code], data, now)]
                // the round announced is the round the drawing was recorded in
                && drawingRound == Some(old(gm.rooms)[code].round)
                && drawingRound.value == gm.rooms[code].drawings[|gm.rooms[code].drawings| - 1].round
    {
      drawingRound := None;
      err := "";
      ghost var before := gm.rooms;
      out := gm.SubmitDrawing(code, socketId, data, now);
      if out == Refused {
        err := "Not your turn or invalid action";
      } else if out == Applied {
        ghost var r := before[code];
        var after := gm.rooms[code];
        assert after == Drawn(r, data, now) && gm.rooms == before[code := after];
        HostKept(before, code, after);
        DrawnRound(r, data, now);
        drawingRound := Some(AnnouncedRound(after));
      }
    }

    /** submit_guess (legacy): delegates to the store; a correct guess is told
        the word. */
    method SubmitGuess(socketId: string, code: string, guess: string, now: int)
        returns (ok: bool, err: string, isCorrect: bool, revealed: Option<string>)
      requires Valid()
      modifies this, gm
      ensures Valid() && socketToPlayer == old(socketToPlayer)
      ensures ok <==>
                && code in old(gm.rooms) && old(gm.rooms)[code].phase == Drawing
                && HasPlayer(old(gm.rooms)[code].players, socketId)
                && !old(gm.rooms)[code].players[IndexOfPlayer(old(gm.rooms)[code].players, socketId).value].hasGuessed
      ensures !ok ==> err == "Invalid guess" && gm.rooms == old(gm.rooms) && revealed.None?
      ensures ok ==>
                var r := old(gm.rooms)[code];
                && isCorrect == GuessMatches(guess, r.word.value)
                && gm.rooms == old(gm.rooms)[code := Guessed(r, IndexOfPlayer(r.players, socketId).value, guess, now)]
                && revealed == (if isCorrect then r.word else None)
    {
      var res := gm.SubmitGuess(code, socketId, guess, now);
      if res.None? {
        return false, "Invalid guess", false, None;
      }
      HostKept(old(gm.rooms), code, gm.rooms[code]);
      ok, err, isCorrect := true, "", res.value.isCorrect;
      revealed := if isCorrect then gm.rooms[code].word else None;
    }

    /** submit_message: delegates to the store. */
    method SubmitMessage(socketId: string, code: string, text: string, messageId: string, now: int)
        returns (ok: bool, err: string, sent: Option<ChatMessage>)
      requires Valid()
      modifies this, gm
      ensures Valid() && socketToPlayer == old(socketToPlayer)
      ensures ok <==> code in old(gm.rooms) && HasPlayer(old(gm.rooms)[code].players, socketId)
      ensures !ok ==> err == "Failed to send message" && gm.rooms == old(gm.rooms) && sent.None?
      ensures ok ==>
                var r := old(gm.rooms)[code];
                var p := r.players[IndexOfPlayer(r.players, socketId).value];
                && sent == Some(ChatMessage(messageId, socketId, p.name, Text.Trim(text), now, p.color))
                && gm.rooms == old(gm.rooms)[code := r.(chatMessages := Sequences.AppendCapped(r.chatMessages, sent.value, MaxChat))]
    {
      sent := gm.SubmitMessage(code, socketId, text, messageId, now);
      if sent.None? {
        return false, "Failed to send message", None;
      }
      HostKept(old(gm.rooms), code, gm.rooms[code]);
      ok, err := true, "";
    }

    /** submit_vote: delegates to the store. */
    method SubmitVote(socketId: string, code: string, candidateId: string) returns (out: Outcome, err: string)
      requires Valid()
      modifies this, gm
      ensures Valid() && socketToPlayer == old(socketToPlayer)
      ensures out == Refused <==>
                code !in old(gm.rooms) || old(gm.rooms)[code].phase != Voting || socketId == candidateId
      ensures out == Refused ==> err == "Invalid vote" && gm.rooms == old(gm.rooms)
      ensures out != Refused ==>
                var r := old(gm.rooms)[code];
                var cast := r.(votes := r.votes[socketId := candidateId]);
                && (|cast.votes| != |r.players| ==> out == Applied && gm.rooms == old(gm.rooms)[code := cast])
                && (|cast.votes| == |r.players| ==>
                      gm.rooms == old(gm.rooms)[code := VoteVerdict(cast).room] && out == VoteVerdict(cast).outcome)
    {
      out := gm.SubmitVote(code, socketId, candidateId);
      err := "";
      if out == Refused {
        err := "Invalid vote";
      } else {
        ghost var r := old(gm.rooms)[code];
        VerdictEndsGame(r.(votes := r.votes[socketId := candidateId]));
        HostKept(old(gm.rooms), code, gm.rooms[code]);
      }
    }

    /** force_vote: delegates to the store, which admits only the host. */
    method ForceVote(socketId: string, code: string) returns (ok: bool, err: string)
      requires Valid()
      modifies this, gm
      ensures Valid() && socketToPlayer == old(socketToPlayer)
      ensures ok <==> code in old(gm.rooms) && old(gm.rooms)[code].hostId == socketId
      ensures !ok ==> err == "Failed to force vote (only host can do this)" && gm.rooms == old(gm.rooms)
      ensures ok ==> gm.rooms == old(gm.rooms)[code := old(gm.rooms)[code].(phase := Voting, currentTurnIndex := 0)]
    {
      ok := gm.ForceVote(code, socketId);
      if !ok {
        return false, "Failed to force vote (only host can do this)";
      }
      HostKept(old(gm.rooms), code, gm.rooms[code]);
      err := "";
    }

    /** reset_game: only the host of an existing room may reset it. */
    method ResetGame(socketId: string, code: string) returns (ok: bool, err: string)
      requires Valid()
      modifies this, gm
      ensures Valid() && socketToPlayer == old(socketToPlayer)
      ensures ok <==> code in old(gm.rooms) && old(gm.rooms)[code].hostId == socketId
      ensures !ok ==> err == "Only host can reset game" && gm.rooms == old(gm.rooms)
      ensures ok ==> gm.rooms == old(gm.rooms)[code := Reset(old(gm.rooms)[code])]
    {
      if code !in gm.rooms || gm.rooms[code].hostId != socketId {
        return false, "Only host can reset game";
      }
      ok := gm.ResetGame(code);
      HostKept(old(gm.rooms), code, gm.rooms[code]);
      err := "";
    }

    /** disconnect: a bound connection's player leaves its room, the binding
        is dropped, and the room is told only if it still exists. */
    method Disconnect(socketId: string) returns (broadcast: bool)
      requires Valid()
      modifies this, gm
      ensures Valid()
      ensures socketToPlayer == old(socketToPlayer) - {socketId}
      ensures socketId !in old(socketToPlayer) ==> !broadcast && gm.rooms == old(gm.rooms)
      ensures socketId in old(socketToPlayer) ==>
                var b := old(socketToPlayer)[socketId];
                && (b.roomCode !in old(gm.rooms) ==> gm.rooms == old(gm.rooms))
                && (b.roomCode in old(gm.rooms) ==>
                      var r := old(gm.rooms)[b.roomCode];
                      var rest := WithoutPlayer(r.players, b.playerId);
                      && (rest == [] ==> gm.rooms == old(gm.rooms) - {b.roomCode})
                      && (rest != [] ==>
                            gm.rooms == old(gm.rooms)[b.roomCode := r.(players := rest,
                                                                       hostId := if r.hostId == b.playerId then rest[0].id else r.hostId)]))
                && (broadcast <==> b.roomCode in gm.rooms)
    {
      if socketId !in socketToPlayer {
        return false;
      }
      var b := socketToPlayer[socketId];
      ghost var before := gm.rooms;
      gm.RemovePlayer(b.roomCode, b.playerId);
      if b.roomCode in before && b.roomCode in gm.rooms {
        var r := before[b.roomCode];
        var rest := WithoutPlayer(r.players, b.playerId);
        var after := gm.rooms[b.roomCode];
        assert after.players == rest;
        if r.hostId != b.playerId {
          WithoutPlayerKeeps(r.players, b.playerId, r.hostId);
        } else {
          assert IndexOfPlayer(rest, rest[0].id).Some?;
        }
        assert gm.rooms == before[b.roomCode := after];
        HostInRoom(before, b.roomCode, after);
      } else if b.roomCode in before {
        assert gm.rooms == before - {b.roomCode};
        HostsRemoved(before, b.roomCode);
      }
      broadcast := b.roomCode in gm.rooms;
      socketToPlayer := socketToPlayer - {socketId};
    }
  }
}
