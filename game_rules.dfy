/** The pure rules the room transitions are built from: colour assignment,
    roster filtering and rebuilding, impostor and word selection, turn and
    round arithmetic, and the vote tally. */
module GameRules {
  import opened GameTypes
  import Arith

  /** The colours handed out to joining players, in order. */
  const Palette: seq<string> :=
    ["#ef4444", "#3b82f6", "#22c55e", "#eab308", "#a855f7", "#ec4899", "#14b8a6", "#f97316"]

  ghost predicate Distinct<T>(s: seq<T>)
  {
    forall i, j :: 0 <= i < j < |s| ==> s[i] != s[j]
  }

  ghost predicate DistinctIds(players: seq<Player>)
  {
    forall i, j :: 0 <= i < j < |players| ==> players[i].id != players[j].id
  }

  // ---------------------------------------------------------------- colours

  /** Index of the first entry of `palette` at or after `i` that is not in `used`. */
  function FirstUnusedFrom(palette: seq<string>, used: seq<string>, i: nat): (r: Option<nat>)
    requires i <= |palette|
    ensures r.Some? ==> i <= r.value < |palette| && palette[r.value] !in used
    ensures r.Some? ==> forall j :: i <= j < r.value ==> palette[j] in used
    ensures r.None? <==> forall j :: i <= j < |palette| ==> palette[j] in used
    decreases |palette| - i
  {
    if i == |palette| then None
    else if palette[i] !in used then Some(i)
    else FirstUnusedFrom(palette, used, i + 1)
  }

  function Colors(players: seq<Player>): (r: seq<string>)
    ensures |r| == |players| && forall i :: 0 <= i < |players| ==> r[i] == players[i].color
  {
    seq(|players|, i requires 0 <= i < |players| => players[i].color)
  }

  /** The colour of a joining player: the first palette colour nobody in the
      room has, or the first palette colour when every one is taken. */
  function PickColor(used: seq<string>): (c: string)
    ensures (exists k :: 0 <= k < |Palette| && Palette[k] !in used) ==>
              c !in used &&
              exists k :: 0 <= k < |Palette| && Palette[k] == c && forall j :: 0 <= j < k ==> Palette[j] in used
    ensures (forall k :: 0 <= k < |Palette| ==> Palette[k] in used) ==> c == Palette[0]
  {
    match FirstUnusedFrom(Palette, used, 0)
    case Some(k) => Palette[k]
    case None => Palette[0]
  }

  /** The first player of a room gets the first palette colour. */
  lemma PickColorEmpty()
    ensures PickColor([]) == Palette[0]
  {
    assert Palette[0] !in [];
  }

  /** More distinct colours than used ones leaves one of them unused. */
  lemma {:induction false} SomeUnused(p: seq<string>, used: seq<string>)
    requires Distinct(p) && |p| > |used|
    ensures exists k :: 0 <= k < |p| && p[k] !in used
  {
    if p[0] in used {
      var m :| 0 <= m < |used| && used[m] == p[0];
      var rest := used[..m] + used[m + 1..];
      assert Distinct(p[1..]);
      SomeUnused(p[1..], rest);
      var k :| 0 <= k < |p[1..]| && p[1..][k] !in rest;
      assert p[k + 1] != p[0];
      forall i | 0 <= i < |used| ensures used[i] != p[k + 1] {
        if i < m {
          assert used[i] == rest[i];
        } else if i > m {
          assert used[i] == rest[i - 1];
        }
      }
      assert p[k + 1] !in used;
    }
  }

  /** A room with fewer players than palette colours gives a joining player a
      colour nobody there has. */
  lemma ColorIsFresh(used: seq<string>)
    requires |used| < |Palette|
    ensures PickColor(used) !in used
  {
    assert Distinct(Palette);
    SomeUnused(Palette, used);
  }

  // ---------------------------------------------------------------- rosters

  /** The player `addPlayer` pushes: the connection's id, name and avatar,
      the picked colour, no role, and every flag false or 0. */
  function NewPlayer(info: PlayerInfo, color: string): (p: Player)
    ensures p.id == info.id && p.name == info.name && p.avatar == info.avatar && p.color == color
    ensures p.role.None? && !p.hasSubmittedWord && !p.hasGuessed && !p.isLocked && p.actionsTaken == 0 && !p.votedOut
  {
    Player(info.id, info.name, info.avatar, color, None, false, false, 0, false, false)
  }

  /** `players.filter(p => p.id !== id)`. */
  function WithoutPlayer(players: seq<Player>, id: string): (r: seq<Player>)
    ensures |r| <= |players|
    ensures forall p :: p in r <==> p in players && p.id != id
  {
    if |players| == 0 then []
    else if players[0].id == id then WithoutPlayer(players[1..], id)
    else [players[0]] + WithoutPlayer(players[1..], id)
  }

  /** Filtering distributes over concatenation, so the remaining players keep
      their relative order. */
  lemma {:induction false} WithoutPlayerAppend(a: seq<Player>, b: seq<Player>, id: string)
    ensures WithoutPlayer(a + b, id) == WithoutPlayer(a, id) + WithoutPlayer(b, id)
  {
    if a == [] {
      assert a + b == b;
    } else {
      assert (a + b)[0] == a[0] && (a + b)[1..] == a[1..] + b;
      WithoutPlayerAppend(a[1..], b, id);
    }
  }

  /** Removing an id no player has changes nothing. */
  lemma {:induction false} WithoutAbsentPlayer(players: seq<Player>, id: string)
    requires !HasPlayer(players, id)
    ensures WithoutPlayer(players, id) == players
  {
    if |players| > 0 {
      forall j | 0 <= j < |players| - 1
        ensures players[1..][j].id != id
      {
        assert players[1..][j] == players[j + 1];
      }
      WithoutAbsentPlayer(players[1..], id);
    }
  }

  /** Every other player stays in the room. */
  lemma WithoutPlayerKeeps(players: seq<Player>, id: string, other: string)
    requires other != id && HasPlayer(players, other)
    ensures HasPlayer(WithoutPlayer(players, id), other)
  {
    var p := players[IndexOfPlayer(players, other).value];
    assert p in WithoutPlayer(players, id);
    var r := WithoutPlayer(players, id);
    var i :| 0 <= i < |r| && r[i] == p;
    assert r[i].id == other;
  }

  /** `players.map(p => ({...p, hasSubmittedWord: false}))`. */
  function ClearSubmitted(players: seq<Player>): (r: seq<Player>)
    ensures SameRoster(r, players)
    ensures forall i :: 0 <= i < |r| ==> !r[i].hasSubmittedWord && r[i] == players[i].(hasSubmittedWord := r[i].hasSubmittedWord)
  {
    seq(|players|, i requires 0 <= i < |players| => players[i].(hasSubmittedWord := false))
  }

  /** Gives the role IMPOSTER to every player with id `imposterId` and ARTIST
      to every other, changing nothing else. */
  function AssignRoles(players: seq<Player>, imposterId: string): (r: seq<Player>)
    ensures SameRoster(r, players)
    ensures forall i :: 0 <= i < |r| ==> r[i] == players[i].(role := r[i].role) && r[i].role.Some?
    ensures forall i :: 0 <= i < |r| ==> (r[i].role == Some(Imposter) <==> players[i].id == imposterId)
  {
    seq(|players|, i requires 0 <= i < |players| =>
      players[i].(role := Some(if players[i].id == imposterId then Imposter else Artist)))
  }

  /** With distinct ids, choosing player k as the impostor makes k the one
      IMPOSTER and everybody else an ARTIST. */
  lemma OneImposter(players: seq<Player>, k: nat)
    requires k < |players|
    ensures DistinctIds(players) ==> AssignRoles(players, players[k].id)[k].role == Some(Imposter)
    ensures DistinctIds(players) ==>
              forall j :: 0 <= j < |players| && j != k ==> AssignRoles(players, players[k].id)[j].role == Some(Artist)
  {
  }

  /** Clears every player's role and per-game flags, as `resetGame` does;
      ids, names, avatars and colours stay. */
  function ResetPlayers(players: seq<Player>): (r: seq<Player>)
    ensures SameRoster(r, players)
    ensures forall i :: 0 <= i < |r| ==>
              && r[i].name == players[i].name && r[i].avatar == players[i].avatar && r[i].color == players[i].color
              && r[i].role.None? && !r[i].hasGuessed && !r[i].isLocked && r[i].actionsTaken == 0
              && !r[i].votedOut && !r[i].hasSubmittedWord
  {
    seq(|players|, i requires 0 <= i < |players| =>
      players[i].(role := None, hasGuessed := false, isLocked := false, actionsTaken := 0,
                  votedOut := false, hasSubmittedWord := false))
  }

  // ------------------------------------------------- impostor and word pick

  /** `Math.floor(random * n)` for a random number in [0, 1). */
  function RandomIndex(random: real, n: nat): (k: nat)
    requires 0.0 <= random < 1.0 && n > 0
    ensures k < n
  {
    assert random * (n as real) < n as real;
    (random * n as real).Floor
  }

  /** The submissions made by anybody but the impostor, in order. */
  function NonImposterWords(subs: seq<Submission>, imposterId: string): (r: seq<Submission>)
    ensures forall s :: s in r <==> s in subs && s.playerId != imposterId
  {
    if |subs| == 0 then []
    else if subs[0].playerId == imposterId then NonImposterWords(subs[1..], imposterId)
    else [subs[0]] + NonImposterWords(subs[1..], imposterId)
  }

  /** The secret word: a random non-impostor submission, or the first
      submission when only the impostor submitted. */
  function ChooseWord(subs: seq<Submission>, imposterId: string, random: real): (w: string)
    requires |subs| > 0 && 0.0 <= random < 1.0
    ensures (exists s :: s in subs && s.playerId != imposterId) ==>
              exists s :: s in subs && s.playerId != imposterId && s.word == w
    ensures (forall s :: s in subs ==> s.playerId == imposterId) ==> w == subs[0].word
  {
    var candidates := NonImposterWords(subs, imposterId);
    if |candidates| > 0 then
      var s := candidates[RandomIndex(random, |candidates|)];
      assert s in candidates;
      s.word
    else
      subs[0].word
  }

  // ------------------------------------------------------ turns and rounds

  datatype Turn = Turn(index: int, round: int)

  /** The turn after a drawing in a room of n players: the next index, or
      index 0 of the next round after the last player. */
  function Advance(t: Turn, n: int): (u: Turn)
    // counting turns as round * n + index, a drawing is one step forward
    ensures 0 <= t.index < n ==> 0 <= u.index < n && u.round * n + u.index == t.round * n + t.index + 1
  {
    if t.index + 1 >= n then
      assert (t.round + 1) * n == t.round * n + n;
      Turn(0, t.round + 1)
    else Turn(t.index + 1, t.round)
  }

  /** The turn after m drawings. */
  function AdvanceMany(t: Turn, n: int, m: nat): (u: Turn)
    ensures 0 <= t.index < n ==> 0 <= u.index < n && u.round * n + u.index == t.round * n + t.index + m
  {
    if m == 0 then t else Advance(AdvanceMany(t, n, m - 1), n)
  }

  /** From a fresh drawing phase, k full rounds and j more turns lead to turn
      j of round k + 1. */
  lemma {:induction false} Progress(n: nat, k: nat, j: nat)
    requires j < n
    ensures AdvanceMany(Turn(0, 1), n, k * n + j) == Turn(j, k + 1)
    decreases k, j
  {
    if j > 0 {
      Progress(n, k, j - 1);
    } else if k > 0 {
      Progress(n, k - 1, n - 1);
      assert k * n == (k - 1) * n + (n - 1) + 1;
    }
  }

  /** maxRounds * n in-turn drawings from a fresh drawing phase push the round
      past maxRounds, and no fewer do. */
  lemma RoundsComplete(n: nat, maxRounds: nat)
    requires n > 0
    ensures AdvanceMany(Turn(0, 1), n, maxRounds * n) == Turn(0, maxRounds + 1)
    ensures forall m: nat :: m < maxRounds * n ==> AdvanceMany(Turn(0, 1), n, m).round <= maxRounds
  {
    Progress(n, maxRounds, 0);
    forall m: nat | m < maxRounds * n
      ensures AdvanceMany(Turn(0, 1), n, m).round <= maxRounds
    {
      var u := AdvanceMany(Turn(0, 1), n, m);
      // u.round * n <= n + m < (maxRounds + 1) * n
      assert u.round * n + u.index == n + m;
      if u.round >= maxRounds + 1 {
        Arith.MulMono(maxRounds + 1, u.round, n);
      }
    }
  }

  // ------------------------------------------------------------- the tally

  /** The number of voters in `among` who voted for `c`. */
  ghost function VotesAmong(votes: map<string, string>, among: set<string>, c: string): nat
  {
    |set v | v in votes && v in among && votes[v] == c|
  }

  ghost function VotesFor(votes: map<string, string>, c: string): nat
  {
    VotesAmong(votes, votes.Keys, c)
  }

  /** `c` has strictly more votes than anybody else, and at least one. */
  ghost predicate UniqueTop(votes: map<string, string>, c: string)
  {
    VotesFor(votes, c) > 0 && forall d :: d != c ==> VotesFor(votes, d) < VotesFor(votes, c)
  }

  /** A set of voters casts at most as many votes for anybody as it has members. */
  lemma VotesAmongAtMost(votes: map<string, string>, among: set<string>, c: string)
    ensures VotesAmong(votes, among, c) <= |among|
  {
    var voters := set v | v in votes && v in among && votes[v] == c;
    assert among == voters + (among - voters);
  }

  /** Counting one more voter adds one vote to that voter's candidate only. */
  lemma VotesAmongAdd(votes: map<string, string>, among: set<string>, v0: string, c: string)
    requires v0 in votes && v0 !in among
    ensures VotesAmong(votes, among + {v0}, c) == VotesAmong(votes, among, c) + (if votes[v0] == c then 1 else 0)
  {
    var before := set v | v in votes && v in among && votes[v] == c;
    var after := set v | v in votes && v in among + {v0} && votes[v] == c;
    if votes[v0] == c {
      assert after == before + {v0};
    } else {
      assert after == before;
    }
  }

  /** Someone who received a vote has a positive count. */
  lemma VotedForHasVotes(votes: map<string, string>, v: string)
    requires v in votes
    ensures VotesFor(votes, votes[v]) > 0
  {
    var voters := set w | w in votes && w in votes.Keys && votes[w] == votes[v];
    assert v in voters;
    assert voters == (voters - {v}) + {v};
  }

  /** `counts` holds every candidate's number of votes, and anybody without
      an entry received none. */
  ghost predicate IsTally(counts: map<string, int>, votes: map<string, string>)
  {
    && (forall c :: c in counts ==> counts[c] == VotesFor(votes, c))
    && (forall c :: c !in counts ==> VotesFor(votes, c) == 0)
  }

  /** The first loop of `calculateVoteResults`: an entry of 0 for every player. */
  method ZeroCounts(players: seq<Player>) returns (counts: map<string, int>)
    ensures forall c :: c in counts ==> counts[c] == 0
    ensures forall i :: 0 <= i < |players| ==> players[i].id in counts
  {
    counts := map[];
    var i := 0;
    while i < |players|
      invariant 0 <= i <= |players|
      invariant forall c :: c in counts ==> counts[c] == 0
      invariant forall j :: 0 <= j < i ==> players[j].id in counts
    {
      counts := counts[players[i].id := 0];
      i := i + 1;
    }
  }

  /** The first two loops of `calculateVoteResults`: an entry of 0 for every
      player, then one more for the candidate of each vote, the votes visited
      in an arbitrary order. */
  method CountVotes(players: seq<Player>, votes: map<string, string>) returns (counts: map<string, int>)
    ensures IsTally(counts, votes)
    ensures forall i :: 0 <= i < |players| ==> players[i].id in counts
  {
    counts := ZeroCounts(players);
    var todo := votes.Keys;
    ghost var done: set<string> := {};
    forall c ensures VotesAmong(votes, done, c) == 0 {
      VotesAmongAtMost(votes, done, c);
    }
    while todo != {}
      invariant todo + done == votes.Keys && todo !! done
      invariant forall c :: c in counts ==> counts[c] == VotesAmong(votes, done, c)
      invariant forall c :: c !in counts ==> VotesAmong(votes, done, c) == 0
      invariant forall j :: 0 <= j < |players| ==> players[j].id in counts
      decreases |todo|
    {
      var v :| v in todo;
      var c := votes[v];
      counts := counts[c := (if c in counts then counts[c] else 0) + 1];
      forall d
        ensures d in counts ==> counts[d] == VotesAmong(votes, done + {v}, d)
        ensures d !in counts ==> VotesAmong(votes, done + {v}, d) == 0
      {
        VotesAmongAdd(votes, done, v, d);
      }
      assert (todo - {v}) + (done + {v}) == votes.Keys;
      todo := todo - {v};
      done := done + {v};
    }
    assert done == votes.Keys;
  }

  /** The scan of `calculateVoteResults` over the counts, in an arbitrary
      order: a strictly larger count takes the lead and clears the tie flag,
      an equal positive count sets it. */
  method TopCandidate(counts: map<string, int>) returns (votedOut: Option<string>, maxVotes: nat, isTie: bool)
    ensures forall c :: c in counts ==> counts[c] <= maxVotes
    ensures votedOut.Some? <==> maxVotes > 0
    ensures votedOut.Some? ==> votedOut.value in counts && counts[votedOut.value] == maxVotes
    ensures isTie <==> votedOut.Some? && exists c :: c in counts && c != votedOut.value && counts[c] == maxVotes
  {
    votedOut, maxVotes, isTie := None, 0, false;
    var rest := counts.Keys;
    ghost var seen: set<string> := {};
    while rest != {}
      invariant rest + seen == counts.Keys && rest !! seen
      invariant forall c :: c in seen ==> counts[c] <= maxVotes
      invariant votedOut.Some? <==> maxVotes > 0
      invariant votedOut.Some? ==> votedOut.value in seen && counts[votedOut.value] == maxVotes
      invariant isTie <==> votedOut.Some? && exists c :: c in seen && c != votedOut.value && counts[c] == maxVotes
      decreases |rest|
    {
      var c :| c in rest;
      var n := counts[c];
      if n > maxVotes {
        maxVotes, votedOut, isTie := n, Some(c), false;
      } else if n == maxVotes && n > 0 {
        isTie := true;
      }
      rest := rest - {c};
      seen := seen + {c};
    }
  }

  /** What the scan over a tally means for the votes themselves. */
  lemma TopOfTally(counts: map<string, int>, votes: map<string, string>, votedOut: Option<string>, maxVotes: nat, isTie: bool)
    requires IsTally(counts, votes)
    requires forall c :: c in counts ==> counts[c] <= maxVotes
    requires votedOut.Some? <==> maxVotes > 0
    requires votedOut.Some? ==> votedOut.value in counts && counts[votedOut.value] == maxVotes
    requires isTie <==> votedOut.Some? && exists c :: c in counts && c != votedOut.value && counts[c] == maxVotes
    ensures forall c :: VotesFor(votes, c) <= maxVotes
    ensures votedOut.Some? <==> |votes| > 0
    ensures votedOut.Some? ==> VotesFor(votes, votedOut.value) == maxVotes
    ensures isTie <==>
              maxVotes > 0 &&
              exists c, d :: c != d && VotesFor(votes, c) == maxVotes && VotesFor(votes, d) == maxVotes
    ensures (votedOut.Some? && !isTie) <==> exists c :: UniqueTop(votes, c)
    ensures votedOut.Some? && !isTie ==> UniqueTop(votes, votedOut.value)
  {
    if |votes| > 0 {
      var v :| v in votes;
      VotedForHasVotes(votes, v);
      assert votes[v] in counts;
    }
    forall c, d | c != d && VotesFor(votes, c) == maxVotes && VotesFor(votes, d) == maxVotes && maxVotes > 0
      ensures isTie
    {
      assert c in counts && d in counts;
      if c != votedOut.value {
        assert counts[c] == maxVotes;
      } else {
        assert counts[d] == maxVotes;
      }
    }
    if isTie {
      var c :| c in counts && c != votedOut.value && counts[c] == maxVotes;
      assert VotesFor(votes, c) == maxVotes && VotesFor(votes, votedOut.value) == maxVotes;
    }
    if votedOut.Some? && !isTie {
      forall d | d != votedOut.value
        ensures VotesFor(votes, d) < maxVotes
      {
        assert VotesFor(votes, d) <= maxVotes;
      }
      assert UniqueTop(votes, votedOut.value);
    }
    if exists c :: UniqueTop(votes, c) {
      var c :| UniqueTop(votes, c);
      assert c in counts;
      assert votedOut == Some(c);
    }
  }

  /** The whole tally of `calculateVoteResults`. Its result does not depend on
      the order the maps are visited in: there is a leader exactly when
      somebody voted, a tie exactly when two candidates share the positive
      maximum, and otherwise the leader is the unique candidate with the most
      votes. */
  method Tally(players: seq<Player>, votes: map<string, string>)
      returns (votedOut: Option<string>, maxVotes: nat, isTie: bool)
    ensures forall c :: VotesFor(votes, c) <= maxVotes
    ensures votedOut.Some? <==> |votes| > 0
    ensures votedOut.Some? ==> VotesFor(votes, votedOut.value) == maxVotes
    ensures isTie <==>
              maxVotes > 0 &&
              exists c, d :: c != d && VotesFor(votes, c) == maxVotes && VotesFor(votes, d) == maxVotes
    ensures (votedOut.Some? && !isTie) <==> exists c :: UniqueTop(votes, c)
    ensures votedOut.Some? && !isTie ==> UniqueTop(votes, votedOut.value)
  {
    var counts := CountVotes(players, votes);
    votedOut, maxVotes, isTie := TopCandidate(counts);
    TopOfTally(counts, votes, votedOut, maxVotes, isTie);
  }

  /** At most one candidate can have strictly the most votes. */
  lemma UniqueTopIsUnique(votes: map<string, string>, a: string, b: string)
    requires UniqueTop(votes, a) && UniqueTop(votes, b)
    ensures a == b
  {
  }

  /** The new_drawing event reports `round - (currentTurnIndex === 0 ? 1 : 0)`
      after the turn advanced; that is the round the drawing was made in. */
  lemma EmittedRound(t: Turn, n: int)
    requires 0 <= t.index < n
    ensures Advance(t, n).round - (if Advance(t, n).index == 0 then 1 else 0) == t.round
  {
  }
}
