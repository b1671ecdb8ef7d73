/**
  The knock-out tournament of the second umpire: rounds of paired matches among the
  players that are still active, with a walk-over for one of them in odd rounds.
 */
module Tournament {
  /** The throws of a round by round, player and turn, and the walk-over player of an
      odd round. */
  datatype Game = Game(nround: nat, moves: (nat, nat, nat) -> char, walkOver: (nat, seq<nat>) -> int)

  datatype Match = Match(first: nat, second: nat)

  predicate Beats(a: char, b: char) {
    (a == '1' && b == '0') || (a == '2' && b == '1') || (a == '0' && b == '2')
  }

  /** How many of the first `n` turns `p` wins against `q`. */
  function Score(g: Game, round: nat, p: nat, q: nat, n: nat): nat {
    if n == 0 then 0
    else Score(g, round, p, q, n - 1) + if Beats(g.moves(round, p, n - 1), g.moves(round, q, n - 1)) then 1 else 0
  }

  /** The second player goes unless it won more turns. */
  function Loser(g: Game, round: nat, m: Match): nat {
    if Score(g, round, m.first, m.second, g.nround) >= Score(g, round, m.second, m.first, g.nround) then m.second
    else m.first
  }

  /** The turns of the first `n` that `p` wins against `q`: 1 beats 0, 2 beats 1, 0 beats 2. */
  function WonTurns(g: Game, round: nat, p: nat, q: nat, n: nat): set<nat> {
    set t: nat | t < n && (g.moves(round, p, t), g.moves(round, q, t)) in {('1', '0'), ('2', '1'), ('0', '2')}
  }

  lemma {:induction false} ScoreCounts(g: Game, round: nat, p: nat, q: nat, n: nat)
    ensures Score(g, round, p, q, n) == |WonTurns(g, round, p, q, n)|
  {
    if n == 0 {
    } else {
      ScoreCounts(g, round, p, q, n - 1);
      WonNext(g, round, p, q, n - 1);
      hide WonTurns;
    }
  }

  lemma WonNext(g: Game, round: nat, p: nat, q: nat, t: nat)
    ensures var before := WonTurns(g, round, p, q, t);
            && t !in before
            && WonTurns(g, round, p, q, t + 1) ==
               before + if Beats(g.moves(round, p, t), g.moves(round, q, t)) then {t} else {}
  {
  }

  /** The first player goes if it won fewer turns than the second, and the second otherwise. */
  lemma LoserExact(g: Game, round: nat, m: Match)
    ensures var a := |WonTurns(g, round, m.first, m.second, g.nround)|;
            var b := |WonTurns(g, round, m.second, m.first, g.nround)|;
            Loser(g, round, m) == if a < b then m.first else m.second
  {
    ScoreCounts(g, round, m.first, m.second, g.nround);
    ScoreCounts(g, round, m.second, m.first, g.nround);
  }

  function Winner(g: Game, round: nat, m: Match): nat {
    if Loser(g, round, m) == m.second then m.first else m.second
  }

  /** The active players in order. */
  function Players(active: seq<bool>): (r: seq<nat>)
    ensures forall i :: i in r <==> 0 <= i < |active| && active[i]
    ensures forall i, j :: 0 <= i < j < |r| ==> r[i] < r[j]
  {
    if active == [] then []
    else
      var n := |active| - 1;
      var rest := Players(active[..n]);
      assert forall k :: 0 <= k < |rest| ==> rest[k] in rest;
      rest + if active[n] then [n] else []
  }

  /** -1 in even rounds. */
  function WalkOver(g: Game, round: nat, players: seq<nat>): int {
    if |players| % 2 == 1 then g.walkOver(round, players) else -1
  }

  // ---- Pairing ----

  /** The pairs the loop makes from position `pair` on, or the news that it looks past
      the end of the player list. */
  datatype Pairing = Pairs(matches: seq<Match>) | OutOfBounds

  function Before(m: Match, p: Pairing): Pairing {
    if p.Pairs? then Pairs([m] + p.matches) else OutOfBounds
  }

  function Walk(players: seq<nat>, wid: int, pair: nat): Pairing
    decreases |players| - pair
  {
    if pair >= |players| then Pairs([])
    else if wid == players[pair] then Walk(players, wid, pair + 1)
    else if pair + 1 >= |players| then OutOfBounds
    else if wid == players[pair + 1] then
      if pair + 2 >= |players| then OutOfBounds
      else Before(Match(players[pair], players[pair + 2]), Walk(players, wid, pair + 3))
    else Before(Match(players[pair], players[pair + 1]), Walk(players, wid, pair + 2))
  }

  function Without(players: seq<nat>, wid: int): seq<nat> {
    if players == [] then []
    else (if players[0] == wid then [] else [players[0]]) + Without(players[1..], wid)
  }

  /** Neighbours play each other. */
  function PairUp(players: seq<nat>): seq<Match> {
    if |players| < 2 then [] else [Match(players[0], players[1])] + PairUp(players[2..])
  }

  /** Everybody who plays in `ms`, in order. */
  function Contestants(ms: seq<Match>): seq<nat> {
    if ms == [] then [] else [ms[0].first, ms[0].second] + Contestants(ms[1..])
  }

  predicate Ascending(s: seq<nat>) {
    forall i, j :: 0 <= i < j < |s| ==> s[i] < s[j]
  }

  lemma {:induction false} WithoutSize(players: seq<nat>, wid: int)
    requires Ascending(players)
    ensures |Without(players, wid)| == |players| - if wid in players then 1 else 0
  {
    if players == [] {
    } else {
      assert forall p :: p in players <==> p == players[0] || p in players[1..];
      WithoutSize(players[1..], wid);
    }
  }

  lemma WithoutFrom(players: seq<nat>, wid: int, i: nat)
    requires i < |players|
    ensures Without(players[i..], wid) ==
            (if players[i] == wid then [] else [players[i]]) + Without(players[i + 1..], wid)
  {
    assert players[i..][1..] == players[i + 1..];
  }

  /** The loop stays inside the list if and only if an even number of players is left
      once the walk-over player is taken out, and then it pairs neighbours among them. */
  lemma {:induction false} WalkPairs(players: seq<nat>, wid: int, pair: nat)
    requires Ascending(players) && pair <= |players|
    ensures var rest := Without(players[pair..], wid);
            && (Walk(players, wid, pair).Pairs? <==> |rest| % 2 == 0)
            && (Walk(players, wid, pair).Pairs? ==> Walk(players, wid, pair).matches == PairUp(rest))
    decreases |players| - pair
  {
    if pair == |players| {
    } else {
      WithoutFrom(players, wid, pair);
      if wid == players[pair] {
        assert [] + Without(players[pair + 1..], wid) == Without(players[pair + 1..], wid);
        WalkPairs(players, wid, pair + 1);
      } else if pair + 1 < |players| {
        WithoutFrom(players, wid, pair + 1);
        var next := if wid == players[pair + 1] then pair + 3 else pair + 2;
        if wid == players[pair + 1] && pair + 2 < |players| {
          WithoutFrom(players, wid, pair + 2);
          assert players[pair + 2] != wid;
        }
        if next <= |players| {
          WalkPairs(players, wid, next);
          PairUpTwo(Without(players[pair..], wid), Without(players[next..], wid));
        }
      }
    }
  }

  lemma PairUpTwo(all: seq<nat>, rest: seq<nat>)
    ensures |all| == |rest| + 2 && all[2..] == rest ==>
              PairUp(all) == [Match(all[0], all[1])] + PairUp(rest) && |all| % 2 == |rest| % 2
  {
    if |all| == |rest| + 2 && all[2..] == rest {
      ParityTwo(|rest|);
    }
  }

  lemma ParityTwo(n: nat)
    ensures (n + 2) % 2 == n % 2
  {
  }

  /** So a round goes right if and only if it is even or its walk-over id names an active player. */
  lemma RoundSafe(g: Game, round: nat, players: seq<nat>)
    requires Ascending(players)
    ensures Walk(players, WalkOver(g, round, players), 0).Pairs? <==>
            |players| % 2 == 0 || g.walkOver(round, players) in players
  {
    var wid := WalkOver(g, round, players);
    assert players[0..] == players;
    WalkPairs(players, wid, 0);
    WithoutSize(players, wid);
    assert |players| % 2 == 0 ==> wid !in players;
  }

  lemma {:induction false} PairUpAll(players: seq<nat>)
    requires |players| % 2 == 0
    ensures Contestants(PairUp(players)) == players && |PairUp(players)| == |players| / 2
  {
    if |players| < 2 {
    } else {
      PairUpAll(players[2..]);
      assert [players[0], players[1]] + players[2..] == players;
    }
  }

  /** Every active player but the walk-over player is in exactly one match of the round. */
  lemma EveryoneElsePlays(g: Game, round: nat, players: seq<nat>)
    requires Ascending(players) && (|players| % 2 == 1 ==> g.walkOver(round, players) in players)
    ensures var wid := WalkOver(g, round, players);
            && Walk(players, wid, 0).Pairs?
            && Contestants(Walk(players, wid, 0).matches) == Without(players, wid)
            && |Walk(players, wid, 0).matches| == |players| / 2
  {
    var wid := WalkOver(g, round, players);
    RoundSafe(g, round, players);
    assert players[0..] == players;
    WalkPairs(players, wid, 0);
    WithoutSize(players, wid);
    PairUpAll(Without(players, wid));
  }

  // ---- A round ----

  /** The flags after the losers of `ms` were cleared. */
  function Play(g: Game, round: nat, active: seq<bool>, ms: seq<Match>): (r: seq<bool>)
    requires forall m :: m in ms ==> m.first < |active| && m.second < |active|
    ensures |r| == |active|
    decreases |ms|
  {
    if ms == [] then active else Play(g, round, active[Loser(g, round, ms[0]) := false], ms[1..])
  }

  predicate NoRepeats(s: seq<nat>) {
    forall i, j :: 0 <= i < j < |s| ==> s[i] != s[j]
  }

  lemma {:induction false} PlayersClear(active: seq<bool>, i: nat)
    requires i < |active| && active[i]
    ensures |Players(active[i := false])| == |Players(active)| - 1
  {
    var n := |active| - 1;
    if i == n {
      assert active[i := false][..n] == active[..n];
    } else {
      assert active[i := false][..n] == active[..n][i := false];
      PlayersClear(active[..n], i);
    }
  }

  /** Every match of a round takes out one player: its loser, and nobody else. */
  lemma {:induction false} PlayOutcome(g: Game, round: nat, active: seq<bool>, ms: seq<Match>)
    requires forall p :: p in Contestants(ms) ==> p < |active| && active[p]
    requires forall m :: m in ms ==> m.first < |active| && m.second < |active|
    requires NoRepeats(Contestants(ms))
    ensures |Players(Play(g, round, active, ms))| == |Players(active)| - |ms|
    ensures forall i :: 0 <= i < |active| ==>
              (Play(g, round, active, ms)[i] <==> active[i] && forall m :: m in ms ==> i != Loser(g, round, m))
    decreases |ms|
  {
    if ms == [] {
    } else {
      var l := Loser(g, round, ms[0]);
      var all := Contestants(ms);
      assert all[0] == ms[0].first && all[1] == ms[0].second && all[2..] == Contestants(ms[1..]);
      assert l in all;
      PlayersClear(active, l);
      forall p | p in Contestants(ms[1..]) ensures p in all && p != l {
        var k :| 0 <= k < |all| - 2 && all[2..][k] == p;
        assert all[k + 2] == p;
      }
      PlayOutcome(g, round, active[l := false], ms[1..]);
      assert forall m :: m in ms <==> m == ms[0] || m in ms[1..];
    }
  }

  lemma {:induction false} ContestantsOf(ms: seq<Match>)
    ensures forall m :: m in ms ==> m.first in Contestants(ms) && m.second in Contestants(ms)
    ensures forall p :: p in Contestants(ms) ==> exists m :: m in ms && (p == m.first || p == m.second)
  {
    if ms == [] {
    } else {
      ContestantsOf(ms[1..]);
      assert ms == [ms[0]] + ms[1..];
      forall p | p in Contestants(ms) ensures exists m :: m in ms && (p == m.first || p == m.second) {
        if p == ms[0].first || p == ms[0].second {
          assert ms[0] in ms;
        } else {
          assert p in Contestants(ms[1..]);
          var m :| m in ms[1..] && (p == m.first || p == m.second);
          assert m in ms;
        }
      }
    }
  }

  lemma {:induction false} WithoutMembers(players: seq<nat>, wid: int)
    requires Ascending(players)
    ensures forall p :: p in Without(players, wid) <==> p in players && p != wid
    ensures Ascending(Without(players, wid))
  {
    if players == [] {
    } else {
      var rest := Without(players[1..], wid);
      WithoutMembers(players[1..], wid);
      assert forall p :: p in players <==> p == players[0] || p in players[1..];
      forall k | 0 <= k < |rest| ensures players[0] < rest[k] {
        assert rest[k] in rest;
      }
      AddFirst(players[0], rest);
    }
  }

  lemma AddFirst(p: nat, rest: seq<nat>)
    requires Ascending(rest) && forall k :: 0 <= k < |rest| ==> p < rest[k]
    ensures Ascending([p] + rest) && forall q :: q in [p] + rest <==> q == p || q in rest
  {
  }

  /** If the round is odd, its walk-over id names an active player. */
  predicate RoundOk(g: Game, round: nat, active: seq<bool>) {
    var players := Players(active);
    |players| % 2 == 1 ==> g.walkOver(round, players) in players
  }

  function Matches(g: Game, round: nat, active: seq<bool>): seq<Match> {
    var players := Players(active);
    var w := Walk(players, WalkOver(g, round, players), 0);
    if w.Pairs? then w.matches else []
  }

  lemma MatchesGood(g: Game, round: nat, active: seq<bool>)
    requires RoundOk(g, round, active)
    ensures var ms := Matches(g, round, active);
            && Walk(Players(active), WalkOver(g, round, Players(active)), 0) == Pairs(ms)
            && |ms| == |Players(active)| / 2
            && NoRepeats(Contestants(ms))
            && (forall p :: p in Contestants(ms) <==>
                  0 <= p < |active| && active[p] && p != WalkOver(g, round, Players(active)))
            && (forall m :: m in ms ==> m.first < |active| && m.second < |active|)
  {
    var players, ms := Players(active), Matches(g, round, active);
    EveryoneElsePlays(g, round, players);
    WithoutMembers(players, WalkOver(g, round, players));
    ContestantsOf(ms);
  }

  function AfterRound(g: Game, round: nat, active: seq<bool>): (r: seq<bool>)
    requires RoundOk(g, round, active)
    ensures |r| == |active|
  {
    MatchesGood(g, round, active);
    Play(g, round, active, Matches(g, round, active))
  }

  /** A round leaves half of the players, rounded up: the winner of every match, and the
      walk-over player; every loser is out. */
  lemma RoundOutcome(g: Game, round: nat, active: seq<bool>)
    requires RoundOk(g, round, active)
    ensures var next, ms := AfterRound(g, round, active), Matches(g, round, active);
            && |Players(next)| == (|Players(active)| + 1) / 2
            && (forall i :: 0 <= i < |active| && next[i] ==> active[i])
            && (forall m :: m in ms ==> m.first < |active| && m.second < |active|
                                        && next[Winner(g, round, m)] && !next[Loser(g, round, m)])
            && (|Players(active)| % 2 == 1 ==>
                  0 <= WalkOver(g, round, Players(active)) < |active| && next[WalkOver(g, round, Players(active))])
  {
    hide Matches, Play, Contestants, Players, Score;
    var ms, wid := Matches(g, round, active), WalkOver(g, round, Players(active));
    MatchesGood(g, round, active);
    PlayOutcome(g, round, active, ms);
    ContestantsOf(ms);
    forall m | m in ms ensures AfterRound(g, round, active)[Winner(g, round, m)] {
      WinnerStays(g, round, ms, m);
    }
    forall m | m in ms ensures !AfterRound(g, round, active)[Loser(g, round, m)] {
    }
  }

  lemma WinnerStays(g: Game, round: nat, ms: seq<Match>, m: Match)
    requires NoRepeats(Contestants(ms)) && m in ms
    ensures forall m' :: m' in ms ==> Winner(g, round, m) != Loser(g, round, m')
  {
    hide Score;
    forall m' | m' in ms ensures Winner(g, round, m) != Loser(g, round, m') {
      OneMatchEach(ms, m, m');
    }
  }

  /** Different matches share no player, and nobody plays against himself. */
  lemma {:induction false} OneMatchEach(ms: seq<Match>, m: Match, m': Match)
    requires NoRepeats(Contestants(ms)) && m in ms && m' in ms
    ensures m.first != m.second
    ensures m == m' || (m.first != m'.first && m.first != m'.second && m.second != m'.first && m.second != m'.second)
  {
    var all, rest := Contestants(ms), Contestants(ms[1..]);
    assert all[0] == ms[0].first && all[1] == ms[0].second;
    assert forall k :: 0 <= k < |rest| ==> rest[k] == all[k + 2];
    assert ms == [ms[0]] + ms[1..];
    ContestantsOf(ms[1..]);
    forall p | p in rest ensures p != ms[0].first && p != ms[0].second {
      var k :| 0 <= k < |rest| && rest[k] == p;
      assert all[k + 2] == p;
    }
    if m == ms[0] {
    } else {
      OneMatchEach(ms[1..], m, if m' in ms[1..] then m' else m);
    }
  }

  // ---- The tournament ----

  /** Every odd round that is played names an active player for its walk-over. */
  predicate GoesRight(g: Game, round: nat, active: seq<bool>)
    requires |Players(active)| > 0
    decreases |Players(active)|
  {
    |Players(active)| == 1 ||
    (RoundOk(g, round, active) &&
     (RoundOutcome(g, round, active); GoesRight(g, round + 1, AfterRound(g, round, active))))
  }

  /** Who is left when rounds are played until one player is. */
  function Champion(g: Game, round: nat, active: seq<bool>): (w: nat)
    requires |Players(active)| > 0 && GoesRight(g, round, active)
    ensures w < |active| && active[w]
    decreases |Players(active)|
  {
    if |Players(active)| == 1 then
      assert Players(active)[0] in Players(active);
      Players(active)[0]
    else
      RoundOutcome(g, round, active);
      Champion(g, round + 1, AfterRound(g, round, active))
  }

  /** With at most two players, or whenever the walk-over answers are right, nothing can
      go wrong. */
  lemma {:induction false} RightAnswersSuffice(g: Game, round: nat, active: seq<bool>)
    requires |Players(active)| > 0
    requires forall r: nat, s: seq<nat> :: |s| % 2 == 1 && |s| > 1 ==> g.walkOver(r, s) in s
    ensures GoesRight(g, round, active)
    decreases |Players(active)|
  {
    if |Players(active)| == 1 {
    } else {
      RoundOutcome(g, round, active);
      RightAnswersSuffice(g, round + 1, AfterRound(g, round, active));
    }
  }

  /** Everybody is active at the start. */
  function AllIn(n: nat): (r: seq<bool>)
    ensures |r| == n && |Players(r)| == n
    ensures forall i :: 0 <= i < n ==> r[i]
  {
    if n == 0 then []
    else
      var r := AllIn(n - 1) + [true];
      assert r[..n - 1] == AllIn(n - 1);
      r
  }

  // ---- The stub ----

  /** Everybody always throws the same, so every match is a tie. */
  ghost predicate AllTies(g: Game, c: char, round: nat) {
    forall p: nat, turn: nat :: g.moves(round, p, turn) == c
  }

  lemma {:induction false} TieScores(g: Game, c: char, round: nat, p: nat, q: nat, n: nat)
    requires AllTies(g, c, round)
    ensures Score(g, round, p, q, n) == 0
  {
    if n == 0 {
    } else {
      TieScores(g, c, round, p, q, n - 1);
    }
  }

  lemma TieLosers(g: Game, c: char, round: nat)
    requires AllTies(g, c, round)
    ensures forall m: Match :: Loser(g, round, m) == m.second
  {
    hide AllTies, Score;
    forall m: Match ensures Loser(g, round, m) == m.second {
      TieScores(g, c, round, m.first, m.second, g.nround);
      TieScores(g, c, round, m.second, m.first, g.nround);
    }
  }

  const ONE_ROUND_OF_SIX := [true, false, true, false, true, false]

  /** Only one ascending list of `n` numbers has them all below `n`. */
  lemma {:induction false} AllBelow(r: seq<nat>, n: nat)
    requires |r| == n && Ascending(r) && forall k :: 0 <= k < n ==> r[k] < n
    ensures forall k :: 0 <= k < n ==> r[k] == k
  {
    if n == 0 {
    } else {
      var rest := r[..n - 1];
      forall k | 0 <= k < n - 1 ensures rest[k] < n - 1 {
        assert rest[k] == r[k] < r[n - 1];
      }
      AllBelow(rest, n - 1);
      LastAbove(r);
      forall k | 0 <= k < n - 1 ensures r[k] == k {
        assert r[k] == rest[k];
      }
    }
  }

  lemma {:induction false} LastAbove(r: seq<nat>)
    requires r != [] && Ascending(r)
    ensures r[|r| - 1] >= |r| - 1
  {
    if |r| == 1 {
    } else {
      LastAbove(r[..|r| - 1]);
    }
  }

  lemma SixPlayers()
    ensures AllIn(6) == seq(6, _ => true) && Players(AllIn(6)) == [0, 1, 2, 3, 4, 5]
  {
    hide Players, AllIn;
    assert AllIn(6) == seq(6, _ => true);
    var r := Players(AllIn(6));
    forall k | 0 <= k < 6 ensures r[k] < 6 {
      assert r[k] in r;
    }
    AllBelow(r, 6);
    assert r == [r[0], r[1], r[2], r[3], r[4], r[5]];
  }

  lemma ThreePlayers()
    ensures Players(ONE_ROUND_OF_SIX) == [0, 2, 4]
  {
    hide Players, AllIn;
    SixPlayers();
    var six, r := AllIn(6), Players(ONE_ROUND_OF_SIX);
    PlayersClear(six, 1);
    PlayersClear(six[1 := false], 3);
    PlayersClear(six[1 := false][3 := false], 5);
    assert six[1 := false][3 := false][5 := false] == ONE_ROUND_OF_SIX;
    assert r[0] in r && r[1] in r && r[2] in r;
  }

  lemma PlayFirst(g: Game, round: nat, active: seq<bool>, ms: seq<Match>)
    requires forall m :: m in ms ==> m.first < |active| && m.second < |active|
    ensures ms == [] ==> Play(g, round, active, ms) == active
    ensures ms != [] ==>
              Play(g, round, active, ms) == Play(g, round, active[Loser(g, round, ms[0]) := false], ms[1..])
  {
  }

  lemma SixPlayOnce(g: Game, c: char)
    requires AllTies(g, c, 0)
    ensures RoundOk(g, 0, AllIn(6)) && AfterRound(g, 0, AllIn(6)) == ONE_ROUND_OF_SIX
  {
    hide AllTies, Players, Loser, AllIn;
    SixPlayers();
    TieLosers(g, c, 0);
    var ms := [Match(0, 1), Match(2, 3), Match(4, 5)];
    SixPaired(-1);
    var a := AllIn(6);
    assert Matches(g, 0, a) == ms;
    PlayFirst(g, 0, a, ms);
    PlayFirst(g, 0, a[1 := false], ms[1..]);
    PlayFirst(g, 0, a[1 := false][3 := false], ms[2..]);
    PlayFirst(g, 0, a[1 := false][3 := false][5 := false], []);
  }

  lemma SixPaired(wid: int)
    requires wid < 0
    ensures Walk([0, 1, 2, 3, 4, 5], wid, 0) == Pairs([Match(0, 1), Match(2, 3), Match(4, 5)])
  {
    var players := [0, 1, 2, 3, 4, 5];
    assert Walk(players, wid, 6) == Pairs([]);
    assert Walk(players, wid, 4) == Pairs([Match(4, 5)]);
    assert Walk(players, wid, 2) == Pairs([Match(2, 3), Match(4, 5)]);
  }

  /** With the stub that always answers 1 not every tournament goes right: when six players
      tie in the first round, player 1 is out of the second, an odd one. */
  lemma StubLeavesTheList(g: Game, c: char)
    requires AllTies(g, c, 0) && forall round: nat, s: seq<nat> :: g.walkOver(round, s) == 1
    ensures !GoesRight(g, 0, AllIn(6))
    ensures Walk([0, 2, 4], WalkOver(g, 1, [0, 2, 4]), 0) == OutOfBounds
  {
    hide AllTies, Players, AllIn, AfterRound;
    SixPlayOnce(g, c);
    ThreePlayers();
    assert !RoundOk(g, 1, ONE_ROUND_OF_SIX);
  }

  method Scores(g: Game, round: nat, p: nat, q: nat) returns (score1: nat, score2: nat)
    ensures score1 == Score(g, round, p, q, g.nround) && score2 == Score(g, round, q, p, g.nround)
  {
    score1, score2 := 0, 0;
    var rnd := 0;
    while rnd < g.nround
      invariant 0 <= rnd <= g.nround
      invariant score1 == Score(g, round, p, q, rnd) && score2 == Score(g, round, q, p, rnd)
    {
      var a, b := g.moves(round, p, rnd), g.moves(round, q, rnd);
      if Beats(a, b) {
        score1 := score1 + 1;
      } else if Beats(b, a) {
        score2 := score2 + 1;
      }
      rnd := rnd + 1;
    }
  }

  /** Lists the active players. */
  method ListActive(active: array<bool>) returns (players: seq<nat>)
    ensures players == Players(active[..])
  {
    players := [];
    var i := 0;
    while i < active.Length
      invariant 0 <= i <= active.Length
      invariant players == Players(active[..i])
    {
      assert active[..i + 1][..i] == active[..i];
      if active[i] {
        players := players + [i];
      }
      i := i + 1;
    }
    assert active[..i] == active[..];
  }

  /** One match: a tie is decided against the second player. */
  method PlayMatch(g: Game, round: nat, active: array<bool>, m: Match)
    requires m.first < active.Length && m.second < active.Length
    modifies active
    ensures active[..] == old(active[..])[Loser(g, round, m) := false]
    ensures var a := |WonTurns(g, round, m.first, m.second, g.nround)|;
            var b := |WonTurns(g, round, m.second, m.first, g.nround)|;
            active[..] == old(active[..])[(if a < b then m.first else m.second) := false]
  {
    LoserExact(g, round, m);
    hide Score, WonTurns;
    var score1, score2 := Scores(g, round, m.first, m.second);
    if score1 == score2 {
      active[m.second] := false;
    } else if score1 > score2 {
      active[m.second] := false;
    } else {
      active[m.first] := false;
    }
  }

  /** One round; `played` counts its matches. */
  method PlayRound(g: Game, round: nat, active: array<bool>, nactive: nat) returns (left: nat, played: nat)
    requires RoundOk(g, round, active[..]) && nactive == |Players(active[..])|
    modifies active
    ensures active[..] == AfterRound(g, round, old(active[..]))
    ensures left == |Players(active[..])| == nactive - played
    ensures played == nactive / 2
  {
    hide Matches, Contestants, Players, Score, Walk, Play;
    ghost var todo := Matches(g, round, active[..]);
    MatchesGood(g, round, active[..]);
    RoundOutcome(g, round, active[..]);
    var players := ListActive(active);
    var wid := -1;
    if nactive % 2 == 1 {
      wid := g.walkOver(round, players);
    }
    left, played := nactive, 0;
    var pair := 0;
    while pair < |players|
      invariant 0 <= pair <= |players|
      invariant |todo| == nactive / 2 - played && left == nactive - played
      invariant Walk(players, wid, pair) == Pairs(todo)
      invariant forall m :: m in todo ==> m.first < active.Length && m.second < active.Length
      invariant Play(g, round, active[..], todo) == AfterRound(g, round, old(active[..]))
      decreases |players| - pair
    {
      WalkStep(players, wid, pair, todo);
      if wid == players[pair] {
        pair := pair + 1;
        continue;
      }
      var m: Match;
      if wid == players[pair + 1] {
        m := Match(players[pair], players[pair + 2]);
        pair := pair + 3;
      } else {
        m := Match(players[pair], players[pair + 1]);
        pair := pair + 2;
      }
      assert m in todo;
      PlayFirst(g, round, active[..], todo);
      PlayMatch(g, round, active, m);
      todo := todo[1..];
      left := left - 1;
      played := played + 1;
    }
    WalkStep(players, wid, pair, todo);
    PlayFirst(g, round, active[..], todo);
  }

  lemma WalkStep(players: seq<nat>, wid: int, pair: nat, todo: seq<Match>)
    requires Walk(players, wid, pair) == Pairs(todo)
    ensures pair >= |players| ==> todo == []
    ensures pair < |players| && wid == players[pair] ==> Walk(players, wid, pair + 1) == Pairs(todo)
    ensures pair < |players| && wid != players[pair] ==>
              && pair + 1 < |players| && todo != []
              && (wid == players[pair + 1] ==>
                    pair + 2 < |players| && todo[0] == Match(players[pair], players[pair + 2])
                    && Walk(players, wid, pair + 3) == Pairs(todo[1..]))
              && (wid != players[pair + 1] ==>
                    && todo[0] == Match(players[pair], players[pair + 1])
                    && Walk(players, wid, pair + 2) == Pairs(todo[1..]))
  {
  }

  /** The whole tournament ends, after one match less than there are players, with the
      one player that the rounds leave. */
  method RunTournament(g: Game, nplayers: nat) returns (winner: nat, matches: nat)
    requires nplayers > 0
    requires GoesRight(g, 0, AllIn(nplayers))
    ensures winner == Champion(g, 0, AllIn(nplayers))
    ensures matches == nplayers - 1
  {
    hide Players, Champion, GoesRight, AfterRound, RoundOk, AllIn;
    var active := new bool[nplayers](_ => true);
    ghost var start := AllIn(nplayers);
    assert active[..] == start;
    var nactive := nplayers;
    var round := 0;
    matches := 0;
    while nactive != 1
      invariant nactive == |Players(active[..])| >= 1
      invariant matches + nactive == nplayers
      invariant active.Length == nplayers
      invariant GoesRight(g, round, active[..])
      invariant Champion(g, round, active[..]) == Champion(g, 0, start)
      decreases nactive
    {
      ChampionStep(g, round, active[..]);
      var played;
      nactive, played := PlayRound(g, round, active, nactive);
      matches := matches + played;
      round := round + 1;
    }
    ChampionStep(g, round, active[..]);
    var players := ListActive(active);
    winner := players[0];
  }

  lemma ChampionStep(g: Game, round: nat, active: seq<bool>)
    requires |Players(active)| > 0 && GoesRight(g, round, active)
    ensures |Players(active)| == 1 ==> Champion(g, round, active) == Players(active)[0]
    ensures |Players(active)| != 1 ==>
              && RoundOk(g, round, active)
              && |Players(AfterRound(g, round, active))| == (|Players(active)| + 1) / 2
              && GoesRight(g, round + 1, AfterRound(g, round, active))
              && Champion(g, round, active) == Champion(g, round + 1, AfterRound(g, round, active))
  {
    if |Players(active)| != 1 {
      RoundOutcome(g, round, active);
    }
  }
}
