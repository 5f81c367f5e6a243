/** `calculate_head_to_head` (wordle_stats.py, lines 107-142): the attempts of every player on every
    (year, puzzle), then per year the puzzles two designated players both played, counted as a win for
    the one with fewer attempts or as a tie. The two players are parameters here. */
module HeadToHead {
  import opened Wrappers
  import opened Lexical
  import opened Mentions
  import opened Extraction

  /** `puzzles[year][puzzle_num]`: player to numeric attempts. */
  type Entries = map<string, nat>
  type YearPuzzles = map<nat, Entries>
  type Puzzles = map<int, YearPuzzles>

  /** `h2h_stats[year]`: wins of the first player, wins of the second, ties. */
  datatype Duel = Duel(firstWins: nat, secondWins: nat, ties: nat)

  /** The numeric attempts of lines 119-122: the failure marker counts as 7. */
  function AttemptValue(a: AttemptToken): (v: nat)
    ensures v <= 9
    ensures v == 7 <==> (a == 'X' || a == '7')
    ensures a != 'X' ==> DigitChar(v) == a
  {
    if a == 'X' then 7 else DigitValue(a)
  }

  /** A failed game loses to every attempt count from 0 to 6 and ties with another failure. Since the
      pattern admits any digit, it also ties with "7/6" and beats "8/6" and "9/6". */
  lemma FailureRanks(a: AttemptToken)
    ensures '0' <= a <= '6' ==> AttemptValue(a) < AttemptValue('X')
    ensures a == '7' ==> AttemptValue(a) == AttemptValue('X')
    ensures (a == '8' || a == '9') ==> AttemptValue('X') < AttemptValue(a)
  {
  }

  /** Line 124: store r's attempts under (year, puzzle, player), replacing any earlier value. */
  function Place(puzzles: Puzzles, r: Record): Puzzles
  {
    var yearPuzzles: YearPuzzles := if r.year in puzzles then puzzles[r.year] else map[];
    var entries: Entries := if r.puzzle in yearPuzzles then yearPuzzles[r.puzzle] else map[];
    puzzles[r.year := yearPuzzles[r.puzzle := entries[r.player := AttemptValue(r.attempts)]]]
  }

  function PuzzlesOf(rs: seq<Record>): Puzzles
  {
    if rs == [] then map[] else Place(PuzzlesOf(rs[..|rs| - 1]), rs[|rs| - 1])
  }

  /** The loop of lines 112-124. */
  method BuildPuzzles(results: seq<Record>) returns (puzzles: Puzzles)
    ensures puzzles == PuzzlesOf(results)
  {
    puzzles := map[];
    for i := 0 to |results|
      invariant puzzles == PuzzlesOf(results[..i])
    {
      var result := results[i];
      assert results[..i + 1][..i] == results[..i];
      var attemptsVal: nat;
      if result.attempts == 'X' {
        attemptsVal := 7;
      } else {
        attemptsVal := DigitValue(result.attempts);
      }
      var yearPuzzles: YearPuzzles := if result.year in puzzles then puzzles[result.year] else map[];
      var players: Entries := if result.puzzle in yearPuzzles then yearPuzzles[result.puzzle] else map[];
      puzzles := puzzles[result.year := yearPuzzles[result.puzzle := players[result.player := attemptsVal]]];
    }
    assert results[..|results|] == results;
  }

  /** The value stored for a player on a (year, puzzle), if any. */
  function Entry(puzzles: Puzzles, y: int, p: nat, player: string): Option<nat>
  {
    if y in puzzles && p in puzzles[y] && player in puzzles[y][p] then Some(puzzles[y][p][player]) else None
  }

  predicate SameSlot(r: Record, y: int, p: nat, player: string) {
    r.year == y && r.puzzle == p && r.player == player
  }

  lemma PlaceElsewhere(puzzles: Puzzles, r: Record, y: int, p: nat, player: string)
    requires !SameSlot(r, y, p, player)
    ensures Entry(Place(puzzles, r), y, p, player) == Entry(puzzles, y, p, player)
  {
  }

  /** Last write wins: the stored value is that of the last record for the (year, puzzle, player). */
  lemma {:induction false} LastRecordWins(rs: seq<Record>, i: nat)
    requires i < |rs|
    requires forall j :: i < j < |rs| ==> !SameSlot(rs[j], rs[i].year, rs[i].puzzle, rs[i].player)
    ensures Entry(PuzzlesOf(rs), rs[i].year, rs[i].puzzle, rs[i].player) == Some(AttemptValue(rs[i].attempts))
  {
    var init := rs[..|rs| - 1];
    if i < |rs| - 1 {
      assert init[i] == rs[i];
      LastRecordWins(init, i);
      PlaceElsewhere(PuzzlesOf(init), rs[|rs| - 1], rs[i].year, rs[i].puzzle, rs[i].player);
    }
  }

  /** Without a record for a (year, puzzle, player) nothing is stored for it. */
  lemma {:induction false} NoRecordNoEntry(rs: seq<Record>, y: int, p: nat, player: string)
    requires forall j :: 0 <= j < |rs| ==> !SameSlot(rs[j], y, p, player)
    ensures Entry(PuzzlesOf(rs), y, p, player) == None
  {
    if rs != [] {
      NoRecordNoEntry(rs[..|rs| - 1], y, p, player);
      PlaceElsewhere(PuzzlesOf(rs[..|rs| - 1]), rs[|rs| - 1], y, p, player);
    }
  }

  // ----- The per-year tallies -----

  /** Among the puzzles in keys, those both players have an entry for. */
  function Contested(yp: YearPuzzles, keys: set<nat>, a: string, b: string): set<nat>
  {
    set p | p in keys && p in yp && a in yp[p] && b in yp[p]
  }

  /** Among those, the ones where a needed fewer attempts than b. */
  function Beats(yp: YearPuzzles, keys: set<nat>, a: string, b: string): set<nat>
  {
    set p | p in keys && p in yp && a in yp[p] && b in yp[p] && yp[p][a] < yp[p][b]
  }

  function Tied(yp: YearPuzzles, keys: set<nat>, a: string, b: string): set<nat>
  {
    set p | p in keys && p in yp && a in yp[p] && b in yp[p] && yp[p][a] == yp[p][b]
  }

  function DuelOver(yp: YearPuzzles, keys: set<nat>, a: string, b: string): Duel
  {
    Duel(|Beats(yp, keys, a, b)|, |Beats(yp, keys, b, a)|, |Tied(yp, keys, a, b)|)
  }

  /** The head-to-head table: a year appears exactly when both players have an entry on one of its
      puzzles, and then holds the number of such puzzles won by each and tied. */
  function DuelsOf(puzzles: Puzzles, a: string, b: string): map<int, Duel>
  {
    map y | y in puzzles && Contested(puzzles[y], puzzles[y].Keys, a, b) != {} :: DuelOver(puzzles[y], puzzles[y].Keys, a, b)
  }

  /** Both players have an entry among the players of a puzzle (line 131). */
  predicate BothPlayed(players: Entries, a: string, b: string)
  {
    a in players && b in players
  }

  lemma ContestedStep(yp: YearPuzzles, done: set<nat>, p: nat, a: string, b: string)
    requires p in yp
    ensures Contested(yp, done + {p}, a, b) ==
      Contested(yp, done, a, b) + (if BothPlayed(yp[p], a, b) then {p} else {})
  {
  }

  lemma BeatsStep(yp: YearPuzzles, done: set<nat>, p: nat, a: string, b: string)
    requires p in yp && p !in done
    ensures |Beats(yp, done + {p}, a, b)| ==
      |Beats(yp, done, a, b)| + (if BothPlayed(yp[p], a, b) && yp[p][a] < yp[p][b] then 1 else 0)
  {
    assert p !in Beats(yp, done, a, b);
    if BothPlayed(yp[p], a, b) && yp[p][a] < yp[p][b] {
      assert Beats(yp, done + {p}, a, b) == Beats(yp, done, a, b) + {p};
    } else {
      assert Beats(yp, done + {p}, a, b) == Beats(yp, done, a, b);
    }
  }

  lemma TiedStep(yp: YearPuzzles, done: set<nat>, p: nat, a: string, b: string)
    requires p in yp && p !in done
    ensures |Tied(yp, done + {p}, a, b)| ==
      |Tied(yp, done, a, b)| + (if BothPlayed(yp[p], a, b) && yp[p][a] == yp[p][b] then 1 else 0)
  {
    assert p !in Tied(yp, done, a, b);
    if BothPlayed(yp[p], a, b) && yp[p][a] == yp[p][b] {
      assert Tied(yp, done + {p}, a, b) == Tied(yp, done, a, b) + {p};
    } else {
      assert Tied(yp, done + {p}, a, b) == Tied(yp, done, a, b);
    }
  }

  /** One puzzle more: the counts grow by the outcome on it, or stay when it is not contested. */
  lemma DuelStep(yp: YearPuzzles, done: set<nat>, p: nat, a: string, b: string)
    requires p in yp && p !in done
    ensures Contested(yp, done + {p}, a, b) ==
      Contested(yp, done, a, b) + (if BothPlayed(yp[p], a, b) then {p} else {})
    ensures DuelOver(yp, done + {p}, a, b) == Scored(DuelOver(yp, done, a, b), yp[p], a, b)
  {
    ContestedStep(yp, done, p, a, b);
    BeatsStep(yp, done, p, a, b);
    BeatsStep(yp, done, p, b, a);
    TiedStep(yp, done, p, a, b);
  }

  /** The counters after comparing the players on one puzzle (lines 131-140). */
  function Scored(d: Duel, players: Entries, a: string, b: string): Duel
  {
    if !BothPlayed(players, a, b) then d
    else if players[a] < players[b] then d.(firstWins := d.firstWins + 1)
    else if players[b] < players[a] then d.(secondWins := d.secondWins + 1)
    else d.(ties := d.ties + 1)
  }

  /** The table restricted to the years in ys. */
  function DuelsOver(puzzles: Puzzles, ys: set<int>, a: string, b: string): map<int, Duel>
  {
    map y | y in ys && y in puzzles && Contested(puzzles[y], puzzles[y].Keys, a, b) != {} :: DuelOver(puzzles[y], puzzles[y].Keys, a, b)
  }

  /** The table m once year y has been tallied over the puzzles in keys: the year's counters exist
      only after a first contested puzzle (the `defaultdict` of line 127). */
  function WithYear(m: map<int, Duel>, y: int, yp: YearPuzzles, keys: set<nat>, a: string, b: string): map<int, Duel>
  {
    if Contested(yp, keys, a, b) == {} then m else m[y := DuelOver(yp, keys, a, b)]
  }

  /** The counters of year y so far, zero before the first contested puzzle. */
  function Current(m: map<int, Duel>, y: int): Duel
  {
    if y in m then m[y] else Duel(0, 0, 0)
  }

  lemma YearStep(puzzles: Puzzles, ys: set<int>, y: int, a: string, b: string)
    requires y in puzzles && y !in ys
    ensures y !in DuelsOver(puzzles, ys, a, b)
    ensures DuelsOver(puzzles, ys + {y}, a, b) == WithYear(DuelsOver(puzzles, ys, a, b), y, puzzles[y], puzzles[y].Keys, a, b)
  {
  }

  /** Without a contested puzzle all counters are zero. */
  lemma UncontestedIsZero(yp: YearPuzzles, keys: set<nat>, a: string, b: string)
    requires Contested(yp, keys, a, b) == {}
    ensures DuelOver(yp, keys, a, b) == Duel(0, 0, 0)
  {
    assert Beats(yp, keys, a, b) <= Contested(yp, keys, a, b);
    assert Beats(yp, keys, b, a) <= Contested(yp, keys, a, b);
    assert Tied(yp, keys, a, b) <= Contested(yp, keys, a, b);
  }

  /** The table update of one puzzle, on plain values: before and after are the year's counters
      over the puzzles seen so far and with one more, wasEmpty and isEmpty say whether any of them
      was contested. */
  lemma ApplyStep(m: map<int, Duel>, y: int, before: Duel, after: Duel, wasEmpty: bool, isEmpty: bool,
                  players: Entries, a: string, b: string)
    requires y !in m
    requires isEmpty == (wasEmpty && !BothPlayed(players, a, b))
    requires wasEmpty ==> before == Duel(0, 0, 0)
    requires after == Scored(before, players, a, b)
    ensures var now := if wasEmpty then m else m[y := before];
      (if isEmpty then m else m[y := after]) ==
        if BothPlayed(players, a, b) then now[y := Scored(Current(now, y), players, a, b)] else now
  {
  }

  /** One more puzzle of year y: the year's counters are created if need be and scored. */
  lemma PuzzleStep(m: map<int, Duel>, y: int, yp: YearPuzzles, done: set<nat>, p: nat, a: string, b: string)
    requires y !in m && p in yp && p !in done
    ensures var now := WithYear(m, y, yp, done, a, b);
      WithYear(m, y, yp, done + {p}, a, b) ==
        if BothPlayed(yp[p], a, b) then now[y := Scored(Current(now, y), yp[p], a, b)] else now
  {
    DuelStep(yp, done, p, a, b);
    var wasEmpty := Contested(yp, done, a, b) == {};
    if wasEmpty {
      UncontestedIsZero(yp, done, a, b);
    }
    ApplyStep(m, y, DuelOver(yp, done, a, b), DuelOver(yp, done + {p}, a, b), wasEmpty,
      Contested(yp, done + {p}, a, b) == {}, yp[p], a, b);
  }

  /** The body of the inner loop (lines 131-140): when both players have an entry, the year's
      counters (created at zero if absent) are scored; otherwise nothing changes. */
  method ScorePuzzle(h2h: map<int, Duel>, year: int, players: Entries, first: string, second: string)
    returns (scored: map<int, Duel>)
    ensures scored == if BothPlayed(players, first, second)
      then h2h[year := Scored(Current(h2h, year), players, first, second)] else h2h
  {
    scored := h2h;
    if first in players && second in players {
      var firstAttempts := players[first];
      var secondAttempts := players[second];
      var d := if year in h2h then h2h[year] else Duel(0, 0, 0);
      if firstAttempts < secondAttempts {
        d := d.(firstWins := d.firstWins + 1);
      } else if secondAttempts < firstAttempts {
        d := d.(secondWins := d.secondWins + 1);
      } else {
        d := d.(ties := d.ties + 1);
      }
      scored := h2h[year := d];
    }
  }

  /** The inner loop of lines 130-140 for one year: compare the two players on every puzzle of it
      both played, creating the year's counters on the first comparison. */
  method TallyYear(h2h: map<int, Duel>, year: int, yearPuzzles: YearPuzzles, first: string, second: string)
    returns (tallied: map<int, Duel>)
    requires year !in h2h
    ensures tallied == WithYear(h2h, year, yearPuzzles, yearPuzzles.Keys, first, second)
  {
    tallied := h2h;
    var todo := yearPuzzles.Keys;
    while todo != {}
      invariant todo <= yearPuzzles.Keys
      invariant tallied == WithYear(h2h, year, yearPuzzles, yearPuzzles.Keys - todo, first, second)
      decreases |todo|
    {
      var puzzleNum :| puzzleNum in todo;
      ghost var done := yearPuzzles.Keys - todo;
      PuzzleStep(h2h, year, yearPuzzles, done, puzzleNum, first, second);
      assert yearPuzzles.Keys - (todo - {puzzleNum}) == done + {puzzleNum};
      tallied := ScorePuzzle(tallied, year, yearPuzzles[puzzleNum], first, second);
      todo := todo - {puzzleNum};
    }
    assert yearPuzzles.Keys - todo == yearPuzzles.Keys;
  }

  /** The tally of lines 127-140, year by year. */
  method CalculateDuels(puzzles: Puzzles, first: string, second: string) returns (h2h: map<int, Duel>)
    ensures h2h == DuelsOf(puzzles, first, second)
  {
    h2h := map[];
    var years := puzzles.Keys;
    while years != {}
      invariant years <= puzzles.Keys
      invariant h2h == DuelsOver(puzzles, puzzles.Keys - years, first, second)
      decreases |years|
    {
      NonEmptyHasElement(years);
      var year: int :| year in years;
      YearStep(puzzles, puzzles.Keys - years, year, first, second);
      h2h := TallyYear(h2h, year, puzzles[year], first, second);
      assert puzzles.Keys - (years - {year}) == (puzzles.Keys - years) + {year};
      years := years - {year};
    }
    assert puzzles.Keys - years == puzzles.Keys;
  }

  /** A non-empty set of years has a member, so the loop can pick its next year with `:|`. */
  lemma NonEmptyHasElement(s: set<int>)
    requires s != {}
    ensures exists x :: x in s
  {
    if forall x: int :: x !in s {
      assert false;
    }
  }

  /** `calculate_head_to_head`: both phases. */
  method CalculateHeadToHead(results: seq<Record>, first: string, second: string) returns (h2h: map<int, Duel>)
    ensures h2h == DuelsOf(PuzzlesOf(results), first, second)
  {
    var puzzles := BuildPuzzles(results);
    h2h := CalculateDuels(puzzles, first, second);
  }

  // ----- Properties of the table -----

  /** Every contested puzzle of a year is exactly one of: a win for the first, a win for the second,
      a tie; a year is present only with at least one, so the shares printed at line 436 never
      divide by zero. */
  lemma DuelPartition(puzzles: Puzzles, a: string, b: string, y: int)
    ensures y in DuelsOf(puzzles, a, b) <==> y in puzzles && Contested(puzzles[y], puzzles[y].Keys, a, b) != {}
    ensures y in DuelsOf(puzzles, a, b) ==>
      var d := DuelsOf(puzzles, a, b)[y];
      d.firstWins + d.secondWins + d.ties == |Contested(puzzles[y], puzzles[y].Keys, a, b)| >= 1
  {
    if y in puzzles {
      var yp := puzzles[y];
      var keys := yp.Keys;
      var c := Contested(yp, keys, a, b);
      var ab, ba, ti := Beats(yp, keys, a, b), Beats(yp, keys, b, a), Tied(yp, keys, a, b);
      assert c == ab + ba + ti;
      assert ab !! ba && ab !! ti && ba !! ti;
      assert |ab + ba| == |ab| + |ba|;
      assert |ab + ba + ti| == |ab + ba| + |ti|;
      if c != {} {
        var p :| p in c;
        assert |c| >= 1;
      }
    }
  }

  /** Swapping the two designated players swaps their win counts and keeps the ties. */
  lemma DuelSymmetric(puzzles: Puzzles, a: string, b: string)
    ensures DuelsOf(puzzles, b, a).Keys == DuelsOf(puzzles, a, b).Keys
    ensures forall y :: y in DuelsOf(puzzles, a, b) ==>
      var d := DuelsOf(puzzles, a, b)[y];
      DuelsOf(puzzles, b, a)[y] == Duel(d.secondWins, d.firstWins, d.ties)
  {
    forall y | y in puzzles
      ensures Contested(puzzles[y], puzzles[y].Keys, b, a) == Contested(puzzles[y], puzzles[y].Keys, a, b)
      ensures Tied(puzzles[y], puzzles[y].Keys, b, a) == Tied(puzzles[y], puzzles[y].Keys, a, b)
    {
    }
  }

  /** Two records on the same puzzle of the same year, one per designated player, make one duel in
      that year, decided by their numeric attempts. */
  lemma SinglePuzzleDuel(ra: Record, rb: Record)
    requires ra.year == rb.year && ra.puzzle == rb.puzzle && ra.player != rb.player
    ensures DuelsOf(PuzzlesOf([ra, rb]), ra.player, rb.player) ==
      var va, vb := AttemptValue(ra.attempts), AttemptValue(rb.attempts);
      map[ra.year := if va < vb then Duel(1, 0, 0) else if vb < va then Duel(0, 1, 0) else Duel(0, 0, 1)]
  {
    var a, b := ra.player, rb.player;
    var y, p := ra.year, ra.puzzle;
    var va, vb := AttemptValue(ra.attempts), AttemptValue(rb.attempts);
    assert [ra, rb][..1] == [ra];
    assert [ra][..0] == [];
    var empty: Puzzles := map[];
    assert PuzzlesOf([]) == empty;
    var one := PuzzlesOf([ra]);
    assert one == Place(empty, ra);
    assert one == map[y := map[p := map[a := va]]];
    var puzzles := PuzzlesOf([ra, rb]);
    assert puzzles == Place(one, rb);
    var entries: Entries := map[a := va, b := vb];
    var yp: YearPuzzles := map[p := entries];
    assert map[a := va][b := vb] == entries;
    assert rb.year in one && one[rb.year] == map[p := map[a := va]];
    assert rb.puzzle in one[rb.year] && one[rb.year][rb.puzzle] == map[a := va];
    assert puzzles == one[y := map[p := map[a := va]][p := map[a := va][b := vb]]];
    assert map[p := map[a := va]][p := entries] == yp;
    assert one[y := yp] == map[y := yp];
    assert puzzles == map[y := yp];
    assert Contested(yp, yp.Keys, a, b) == {p};
    var expected := if va < vb then Duel(1, 0, 0) else if vb < va then Duel(0, 1, 0) else Duel(0, 0, 1);
    if va < vb {
      assert Beats(yp, yp.Keys, a, b) == {p};
      assert Beats(yp, yp.Keys, b, a) == {};
      assert Tied(yp, yp.Keys, a, b) == {};
    } else if vb < va {
      assert Beats(yp, yp.Keys, a, b) == {};
      assert Beats(yp, yp.Keys, b, a) == {p};
      assert Tied(yp, yp.Keys, a, b) == {};
    } else {
      assert Beats(yp, yp.Keys, a, b) == {};
      assert Beats(yp, yp.Keys, b, a) == {};
      assert Tied(yp, yp.Keys, a, b) == {p};
    }
    assert DuelOver(yp, yp.Keys, a, b) == expected;
    assert DuelsOf(puzzles, a, b) == map[y := expected];
  }

  /** Scenario: attempts 3 against 5 on the same puzzle is a win for the first player. */
  lemma ThreeBeatsFive(ra: Record, rb: Record)
    requires ra.year == rb.year && ra.puzzle == rb.puzzle && ra.player != rb.player
    requires ra.attempts == '3' && rb.attempts == '5'
    ensures DuelsOf(PuzzlesOf([ra, rb]), ra.player, rb.player) == map[ra.year := Duel(1, 0, 0)]
  {
    SinglePuzzleDuel(ra, rb);
  }

  /** Scenario: a failure against six attempts is a win for the player who took six. */
  lemma SixBeatsFailure(ra: Record, rb: Record)
    requires ra.year == rb.year && ra.puzzle == rb.puzzle && ra.player != rb.player
    requires ra.attempts == 'X' && rb.attempts == '6'
    ensures DuelsOf(PuzzlesOf([ra, rb]), ra.player, rb.player) == map[ra.year := Duel(0, 1, 0)]
  {
    SinglePuzzleDuel(ra, rb);
  }
}
