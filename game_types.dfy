/** The entities of a game room: players, drawings, chat messages, word
    submissions and the room itself. A room is a value kept in the store's
    map; every operation replaces it with its next value. */
module GameTypes {

  datatype Option<T> = None | Some(value: T)

  datatype Phase = Lobby | WordSubmission | Drawing | Voting | GameOver

  datatype Role = Artist | Imposter

  /** The `winner` field: 'ARTISTS' or 'IMPOSTER'. */
  datatype Winner = ArtistsWin | ImposterWin

  datatype Settings = Settings(maxPlayers: int, strokesPerTurn: int, allowExtraColor: bool)

  /** What a connection supplies when it joins: `{id, name, avatar}`. */
  datatype PlayerInfo = PlayerInfo(id: string, name: string, avatar: string)

  datatype Player = Player(
    id: string,
    name: string,
    avatar: string,
    color: string,
    role: Option<Role>,
    hasGuessed: bool,
    isLocked: bool,
    actionsTaken: int,
    votedOut: bool,
    hasSubmittedWord: bool)

  datatype DrawingRecord = DrawingRecord(playerId: string, round: int, data: string, timestamp: int)

  datatype GuessRecord = GuessRecord(playerId: string, guess: string, isCorrect: bool, timestamp: int)

  datatype ChatMessage = ChatMessage(
    id: string,
    senderId: string,
    senderName: string,
    text: string,
    timestamp: int,
    color: string)

  datatype Submission = Submission(playerId: string, word: string)

  datatype Room = Room(
    roomCode: string,
    hostId: string,
    players: seq<Player>,
    phase: Phase,
    settings: Settings,
    word: Option<string>,
    imposterId: Option<string>,
    currentTurnIndex: int,
    round: int,
    maxRounds: int,
    drawings: seq<DrawingRecord>,
    guesses: seq<GuessRecord>,
    chatMessages: seq<ChatMessage>,
    votes: map<string, string>,
    winner: Option<Winner>,
    winReason: Option<string>,
    wordSubmissions: seq<Submission>)

  /** Index of the first player with this id (`players.find`). */
  function IndexOfPlayer(players: seq<Player>, id: string): (r: Option<nat>)
    ensures r.Some? ==> r.value < |players| && players[r.value].id == id
    ensures r.Some? ==> forall j :: 0 <= j < r.value ==> players[j].id != id
    ensures r.None? <==> forall j :: 0 <= j < |players| ==> players[j].id != id
  {
    if |players| == 0 then None
    else if players[0].id == id then Some(0)
    else match IndexOfPlayer(players[1..], id)
      case None => None
      case Some(k) => Some(k + 1)
  }

  predicate HasPlayer(players: seq<Player>, id: string)
  {
    IndexOfPlayer(players, id).Some?
  }

  /** Two rosters with the same player ids in the same order. */
  ghost predicate SameRoster(a: seq<Player>, b: seq<Player>)
  {
    |a| == |b| && forall i :: 0 <= i < |a| ==> a[i].id == b[i].id
  }

  lemma SameRosterHasPlayer(a: seq<Player>, b: seq<Player>, id: string)
    requires SameRoster(a, b)
    ensures HasPlayer(a, id) <==> HasPlayer(b, id)
  {
    if HasPlayer(a, id) {
      assert b[IndexOfPlayer(a, id).value].id == id;
    }
    if HasPlayer(b, id) {
      assert a[IndexOfPlayer(b, id).value].id == id;
    }
  }
}
