/**
 * The race simulation of src/components/RaceGame.tsx: a countdown gate, then
 * a tick that advances every unfinished track and, once every track is at the
 * finish, ranks the tracks and names the last-placed animal.
 *
 * The tick's state updater is pure (it builds new arrays with map, every,
 * sort, findIndex and reduce), so it is modelled by functions; the component
 * state that the countdown and interval effects change step by step is the
 * class `RaceGame`.
 */
module RaceGame {
  import opened Wrappers
  import opened App

  /** The finish line, in percent of the track. */
  const Finish: real := 100.0

  /** `Math.random() * 2.5 + 1.5` lies in [1.5, 4). */
  const MinSpeed: real := 1.5
  const MaxSpeed: real := 4.0

  predicate SpeedInRange(s: real)
  {
    MinSpeed <= s < MaxSpeed
  }

  /** The draws for one tick: one increment per track (a finished track's draw is not used). */
  predicate ValidSpeeds(speeds: seq<real>, n: nat)
  {
    |speeds| == n && forall i :: 0 <= i < n ==> SpeedInRange(speeds[i])
  }

  /** One track: its animal, its position (0 until ranked) and its progress. */
  datatype RaceResult = RaceResult(animal: Animal, position: int, progress: real)

  function Min(a: real, b: real): real
  {
    if a <= b then a else b
  }

  /** The tracks a race starts with: one per animal, in input order, at position 0 and progress 0. */
  function InitialResults(animals: seq<Animal>): (rs: seq<RaceResult>)
    ensures |rs| == |animals|
    ensures forall i :: 0 <= i < |rs| ==> rs[i] == RaceResult(animals[i], 0, 0.0)
  {
    seq(|animals|, i requires 0 <= i < |animals| => RaceResult(animals[i], 0, 0.0))
  }

  // ---------------------------------------------------------------------------
  // Advancing the tracks
  // ---------------------------------------------------------------------------

  /** One track in one tick: a finished track is returned as it is, any other moves by `speed`, capped at the finish. */
  function StepTrack(r: RaceResult, speed: real): (next: RaceResult)
    ensures next.animal == r.animal && next.position == r.position
    ensures r.progress >= Finish ==> next == r
    ensures r.progress < Finish ==> next.progress <= Finish
    ensures r.progress < Finish ==> next.progress == Finish || next.progress == r.progress + speed
    ensures r.progress < Finish && r.progress + speed >= Finish ==> next.progress == Finish
    ensures 0.0 <= speed ==> r.progress <= next.progress
  {
    if r.progress >= Finish then r
    else r.(progress := Min(r.progress + speed, Finish))
  }

  /** `prevResults.map(...)`: every track takes its own step. */
  function StepAll(rs: seq<RaceResult>, speeds: seq<real>): (next: seq<RaceResult>)
    requires |speeds| == |rs|
    ensures |next| == |rs|
    ensures forall i :: 0 <= i < |rs| ==> next[i] == StepTrack(rs[i], speeds[i])
  {
    seq(|rs|, i requires 0 <= i < |rs| => StepTrack(rs[i], speeds[i]))
  }

  /** `newResults.every(r => r.progress >= 100)`. */
  predicate AllFinished(rs: seq<RaceResult>)
  {
    forall i :: 0 <= i < |rs| ==> rs[i].progress >= Finish
  }

  /**
   * After a step every track is finished exactly when each one was already
   * finished or its increment carries it to the line.
   */
  lemma AllFinishedAfterStep(prev: seq<RaceResult>, speeds: seq<real>)
    requires |speeds| == |prev|
    ensures AllFinished(StepAll(prev, speeds))
        <==> forall i :: 0 <= i < |prev| ==> prev[i].progress >= Finish || prev[i].progress + speeds[i] >= Finish
  {
    var next := StepAll(prev, speeds);
    forall i | 0 <= i < |prev|
      ensures next[i].progress >= Finish <==> prev[i].progress >= Finish || prev[i].progress + speeds[i] >= Finish
    {
      assert next[i] == StepTrack(prev[i], speeds[i]);
    }
  }

  /** Progress lies between the start and the finish line. */
  predicate ProgressInRange(rs: seq<RaceResult>)
  {
    forall i :: 0 <= i < |rs| ==> 0.0 <= rs[i].progress <= Finish
  }

  /** No track has been given a position yet. */
  predicate Unranked(rs: seq<RaceResult>)
  {
    forall i :: 0 <= i < |rs| ==> rs[i].position == 0
  }

  /** The same animals in the same order. */
  predicate SameAnimals(rs: seq<RaceResult>, ts: seq<RaceResult>)
  {
    |rs| == |ts| && forall i :: 0 <= i < |rs| ==> rs[i].animal == ts[i].animal
  }

  predicate DistinctAnimals(rs: seq<RaceResult>)
  {
    forall i, j :: 0 <= i < j < |rs| ==> rs[i].animal != rs[j].animal
  }

  // ---------------------------------------------------------------------------
  // Ranking: a stable sort by descending progress, findIndex, reduce
  // ---------------------------------------------------------------------------

  /**
   * Inserts `x` into `s` where a stable sort with comparator
   * `(a, b) => b.progress - a.progress` puts an element that comes after all
   * of `s` in the input: after every element whose progress is at least its own.
   */
  function InsertDesc(x: RaceResult, s: seq<RaceResult>): (r: seq<RaceResult>)
    ensures multiset(r) == multiset(s) + multiset{x}
    ensures |r| == |s| + 1
  {
    if s == [] then [x]
    else if s[0].progress < x.progress then [x] + s
    else
      assert s == [s[0]] + s[1..];
      [s[0]] + InsertDesc(x, s[1..])
  }

  /**
   * `[...newResults].sort((a, b) => b.progress - a.progress)`. ECMA-262 has required
   * `Array.prototype.sort` to be stable since its 2019 edition, so its result is
   * the one stable sorted permutation, which this insertion sort computes.
   */
  function SortDesc(s: seq<RaceResult>): (r: seq<RaceResult>)
    ensures multiset(r) == multiset(s)
    ensures |r| == |s|
  {
    if s == [] then []
    else
      assert s == s[..|s| - 1] + [s[|s| - 1]];
      InsertDesc(s[|s| - 1], SortDesc(s[..|s| - 1]))
  }

  predicate SortedDesc(s: seq<RaceResult>)
  {
    forall i, j :: 0 <= i < j < |s| ==> s[i].progress >= s[j].progress
  }

  /** Every track is at progress `p`. */
  predicate AllAt(s: seq<RaceResult>, p: real)
  {
    forall i :: 0 <= i < |s| ==> s[i].progress == p
  }

  /** Inserting into a sorted list keeps it sorted. */
  lemma {:induction false} InsertDescSorted(x: RaceResult, s: seq<RaceResult>)
    requires SortedDesc(s)
    ensures SortedDesc(InsertDesc(x, s))
  {
    if s != [] && s[0].progress >= x.progress {
      var t := s[1..];
      assert SortedDesc(t) by {
        forall i, j | 0 <= i < j < |t| ensures t[i].progress >= t[j].progress {
          assert t[i] == s[i + 1] && t[j] == s[j + 1];
        }
      }
      assert forall i :: 0 <= i < |t| ==> t[i].progress <= s[0].progress by {
        forall i | 0 <= i < |t| ensures t[i].progress <= s[0].progress {
          assert t[i] == s[i + 1];
        }
      }
      InsertDescSorted(x, t);
      InsertDescBelow(x, t, s[0].progress);
      var r := InsertDesc(x, t);
      var out := [s[0]] + r;
      assert InsertDesc(x, s) == out;
      forall i, j | 0 <= i < j < |out| ensures out[i].progress >= out[j].progress {
        assert out[j] == r[j - 1];
        if i > 0 {
          assert out[i] == r[i - 1];
        }
      }
    }
  }

  /** Inserting an element no greater than a bound into a list bounded by it keeps the list bounded. */
  lemma InsertDescBelow(x: RaceResult, s: seq<RaceResult>, p: real)
    requires forall i :: 0 <= i < |s| ==> s[i].progress <= p
    requires x.progress <= p
    ensures forall i :: 0 <= i < |InsertDesc(x, s)| ==> InsertDesc(x, s)[i].progress <= p
  {
    var r := InsertDesc(x, s);
    forall i | 0 <= i < |r| ensures r[i].progress <= p {
      assert r[i] in multiset(r);
      if r[i] != x {
        assert r[i] in multiset(s);
        var k :| 0 <= k < |s| && s[k] == r[i];
      }
    }
  }

  /** The sort orders by descending progress. */
  lemma {:induction false} SortDescSorted(s: seq<RaceResult>)
    ensures SortedDesc(SortDesc(s))
  {
    if s != [] {
      SortDescSorted(s[..|s| - 1]);
      InsertDescSorted(s[|s| - 1], SortDesc(s[..|s| - 1]));
    }
  }

  /** When every progress is equal, an element inserted last stays last. */
  lemma {:induction false} InsertDescTied(x: RaceResult, s: seq<RaceResult>)
    requires AllAt(s, x.progress)
    ensures InsertDesc(x, s) == s + [x]
  {
    if s != [] {
      InsertDescTied(x, s[1..]);
      assert s == [s[0]] + s[1..];
    }
  }

  /** When every progress is equal, the stable sort leaves the list as it is. */
  lemma {:induction false} SortDescTied(s: seq<RaceResult>, p: real)
    requires AllAt(s, p)
    ensures SortDesc(s) == s
  {
    if s != [] {
      var n := |s| - 1;
      var init := s[..n];
      assert AllAt(init, p) by {
        forall i | 0 <= i < n ensures init[i].progress == p {
          assert init[i] == s[i];
        }
      }
      var last := s[n];
      assert last.progress == p;
      calc {
        SortDesc(s);
        InsertDesc(last, SortDesc(init));
        { SortDescTied(init, p); }
        InsertDesc(last, init);
        { InsertDescTied(last, init); }
        init + [last];
        s;
      }
    }
  }

  /** Sorting a list with distinct animals gives a list with distinct animals. */
  lemma SortDescDistinct(s: seq<RaceResult>)
    requires DistinctAnimals(s)
    ensures DistinctAnimals(SortDesc(s))
  {
    var r := SortDesc(s);
    forall i, j | 0 <= i < j < |r| ensures r[i].animal != r[j].animal {
      if r[i].animal == r[j].animal {
        DistinctAnimalsMultiset(s, r, i, j);
      }
    }
  }

  /** Two positions of a permutation of a list with distinct animals never carry the same animal. */
  lemma DistinctAnimalsMultiset(s: seq<RaceResult>, r: seq<RaceResult>, i: nat, j: nat)
    requires DistinctAnimals(s) && multiset(r) == multiset(s)
    requires i < j < |r|
    ensures r[i].animal != r[j].animal
  {
    if r[i].animal == r[j].animal {
      assert r[i] in multiset(s) && r[j] in multiset(s);
      var a :| 0 <= a < |s| && s[a] == r[i];
      var b :| 0 <= b < |s| && s[b] == r[j];
      assert a == b;
      assert r[i] == r[j];
      var m := multiset(r);
      assert r == r[..i] + [r[i]] + r[i + 1..j] + [r[j]] + r[j + 1..];
      assert m[r[i]] >= 2;
      assert multiset(s)[s[a]] >= 2;
      MultiplicityOfDistinct(s, a);
      assert false;
    }
  }

  /** In a list with distinct animals every element occurs once. */
  lemma {:induction false} MultiplicityOfDistinct(s: seq<RaceResult>, a: nat)
    requires DistinctAnimals(s) && a < |s|
    ensures multiset(s)[s[a]] == 1
  {
    assert s == s[..a] + [s[a]] + s[a + 1..];
    assert s[a] !in s[..a];
    assert s[a] !in s[a + 1..];
    assert multiset(s) == multiset(s[..a]) + multiset{s[a]} + multiset(s[a + 1..]);
  }

  /** `sorted.findIndex(s => s.animal === animal)`: the first index holding the animal, or -1. */
  function FindIndex(s: seq<RaceResult>, animal: Animal): (k: int)
    ensures -1 <= k < |s|
    ensures k >= 0 ==> s[k].animal == animal && forall j :: 0 <= j < k ==> s[j].animal != animal
    ensures k == -1 <==> forall j :: 0 <= j < |s| ==> s[j].animal != animal
  {
    if s == [] then -1
    else if s[0].animal == animal then 0
    else
      var k := FindIndex(s[1..], animal);
      if k == -1 then -1 else k + 1
  }

  /** `newResults.map(result => ({...result, position: sorted.length - index}))`. */
  function AssignPositions(rs: seq<RaceResult>): (ranked: seq<RaceResult>)
    ensures |ranked| == |rs|
    ensures forall i :: 0 <= i < |rs| ==> ranked[i].animal == rs[i].animal && ranked[i].progress == rs[i].progress
  {
    var sorted := SortDesc(rs);
    seq(|rs|, i requires 0 <= i < |rs| => rs[i].(position := |sorted| - FindIndex(sorted, rs[i].animal)))
  }

  /**
   * The position a track gets is N minus its index in the sorted list, where
   * the index is that of the first sorted entry with the track's animal.
   * With distinct animals that entry is the track itself.
   */
  lemma PositionIsSortIndex(rs: seq<RaceResult>, i: nat)
    requires i < |rs|
    ensures var sorted := SortDesc(rs); var k := FindIndex(sorted, rs[i].animal);
      0 <= k < |rs| && AssignPositions(rs)[i].position == |rs| - k
      && 1 <= AssignPositions(rs)[i].position <= |rs|
      && (DistinctAnimals(rs) ==> sorted[k] == rs[i])
  {
    var sorted := SortDesc(rs);
    assert rs[i] in multiset(sorted);
    var k :| 0 <= k < |sorted| && sorted[k] == rs[i];
    var f := FindIndex(sorted, rs[i].animal);
    assert f != -1;
    if DistinctAnimals(rs) {
      SortDescDistinct(rs);
      assert f == k;
    }
  }

  /** The positions 1..n. */
  function OneTo(n: nat): (r: set<int>)
    ensures forall p :: p in r <==> 1 <= p <= n
  {
    if n == 0 then {} else OneTo(n - 1) + {n}
  }

  /** The positions given to the tracks. */
  function Positions(ranked: seq<RaceResult>): set<int>
  {
    set i | 0 <= i < |ranked| :: ranked[i].position
  }

  /**
   * With distinct animals the positions are a permutation of 1..N: no two
   * tracks share a position and every position in 1..N is held.
   */
  lemma PositionsArePermutation(rs: seq<RaceResult>)
    requires DistinctAnimals(rs)
    ensures var ranked := AssignPositions(rs);
      && (forall i, j :: 0 <= i < j < |rs| ==> ranked[i].position != ranked[j].position)
      && Positions(ranked) == OneTo(|rs|)
  {
    var ranked := AssignPositions(rs);
    forall i, j | 0 <= i < j < |rs| ensures ranked[i].position != ranked[j].position {
      PositionsDiffer(rs, i, j);
    }
    forall q | q in Positions(ranked) ensures q in OneTo(|rs|) {
      var i :| 0 <= i < |ranked| && ranked[i].position == q;
      PositionIsSortIndex(rs, i);
    }
    forall p | p in OneTo(|rs|) ensures p in Positions(ranked) {
      PositionHeld(rs, p);
    }
  }

  /** Two tracks with different animals get different positions. */
  lemma PositionsDiffer(rs: seq<RaceResult>, i: nat, j: nat)
    requires DistinctAnimals(rs) && i < j < |rs|
    ensures AssignPositions(rs)[i].position != AssignPositions(rs)[j].position
  {
    PositionIsSortIndex(rs, i);
    PositionIsSortIndex(rs, j);
    assert rs[i].animal != rs[j].animal;
  }

  /** Every position in 1..N is held by the track found at sorted index N - p. */
  lemma PositionHeld(rs: seq<RaceResult>, p: int)
    requires DistinctAnimals(rs) && 1 <= p <= |rs|
    ensures p in Positions(AssignPositions(rs))
  {
    var ranked := AssignPositions(rs);
    var sorted := SortDesc(rs);
    var k := |rs| - p;
    assert sorted[k] in multiset(rs);
    var i :| 0 <= i < |rs| && rs[i] == sorted[k];
    PositionIsSortIndex(rs, i);
    SortDescDistinct(rs);
    assert FindIndex(sorted, rs[i].animal) == k;
    assert ranked[i].position == p;
  }

  /**
   * `withPositions.reduce((max, curr) => curr.position > max.position ? curr : max)`,
   * as the index of the accumulator: `best` is the index of `max` after the
   * elements before `i` have been folded in.
   */
  function ReduceLastPlace(ws: seq<RaceResult>, best: nat, i: nat): (m: nat)
    requires best < i <= |ws|
    requires forall j :: 0 <= j < i ==> ws[j].position <= ws[best].position
    requires forall j :: 0 <= j < best ==> ws[j].position < ws[best].position
    ensures m < |ws|
    ensures forall j :: 0 <= j < |ws| ==> ws[j].position <= ws[m].position
    ensures forall j :: 0 <= j < m ==> ws[j].position < ws[m].position
    decreases |ws| - i
  {
    if i == |ws| then best
    else ReduceLastPlace(ws, if ws[i].position > ws[best].position then i else best, i + 1)
  }

  /**
   * The last-placed track: the one with the largest position, the first of
   * them when several tie (the strict `>` keeps the accumulator). `reduce`
   * without an initial value needs a non-empty array.
   */
  function LastPlace(ws: seq<RaceResult>): (k: nat)
    requires |ws| >= 1
    ensures k < |ws|
    ensures forall j :: 0 <= j < |ws| ==> ws[j].position <= ws[k].position
    ensures forall j :: 0 <= j < k ==> ws[j].position < ws[k].position
  {
    ReduceLastPlace(ws, 0, 1)
  }

  /**
   * The loser is the animal at the head of the sorted list, the one with the
   * most progress: position N goes to sorted index 0.
   */
  lemma LoserIsSortedHead(rs: seq<RaceResult>)
    requires |rs| >= 1
    ensures var ranked := AssignPositions(rs);
      ranked[LastPlace(ranked)].animal == SortDesc(rs)[0].animal
      && ranked[LastPlace(ranked)].position == |rs|
  {
    var ranked := AssignPositions(rs);
    var sorted := SortDesc(rs);
    assert sorted[0] in multiset(rs);
    var i :| 0 <= i < |rs| && rs[i] == sorted[0];
    PositionIsSortIndex(rs, i);
    assert ranked[i].position == |rs|;
    var m := LastPlace(ranked);
    PositionIsSortIndex(rs, m);
    assert FindIndex(sorted, rs[m].animal) == 0;
  }

  // ---------------------------------------------------------------------------
  // The tick
  // ---------------------------------------------------------------------------

  /** What one run of the interval's state updater produces. */
  datatype TickOutcome =
    | Running(results: seq<RaceResult>)
    | Finished(results: seq<RaceResult>, loser: Animal)
      /** `reduce` of an empty array with no initial value throws a TypeError; no state is committed. */
    | ReduceOfEmptyArray

  /** The `setResults` updater of one tick (with the `setLoser`/`setFinished` it calls). */
  function Tick(prev: seq<RaceResult>, speeds: seq<real>): (o: TickOutcome)
    requires |speeds| == |prev|
    ensures o.ReduceOfEmptyArray? <==> |prev| == 0
    ensures o.Running? <==> !AllFinished(StepAll(prev, speeds))
    ensures o.Running? || o.Finished? ==> SameAnimals(o.results, prev)
  {
    var next := StepAll(prev, speeds);
    if !AllFinished(next) then Running(next)
    else if |next| == 0 then ReduceOfEmptyArray
    else
      var ranked := AssignPositions(next);
      Finished(ranked, ranked[LastPlace(ranked)].animal)
  }

  /**
   * A tick leaves finished tracks alone, moves every other track to
   * min(p + s, 100), and never moves a track back or past the finish.
   */
  lemma TickAdvancesTracks(prev: seq<RaceResult>, speeds: seq<real>)
    requires ValidSpeeds(speeds, |prev|) && ProgressInRange(prev)
    ensures var o := Tick(prev, speeds); o.Running? || o.Finished? ==>
      ProgressInRange(o.results)
      && forall i :: 0 <= i < |prev| ==>
           && prev[i].progress <= o.results[i].progress
           && (prev[i].progress >= Finish ==> o.results[i].progress == prev[i].progress)
           && (prev[i].progress < Finish ==> o.results[i].progress == Min(prev[i].progress + speeds[i], Finish))
  {
  }

  /**
   * While some track is short of the finish the tick changes no position;
   * the tick on which the last track arrives ranks every track at once.
   */
  lemma TickRanksAtOnce(prev: seq<RaceResult>, speeds: seq<real>)
    requires |speeds| == |prev|
    ensures Tick(prev, speeds).Running? ==>
      forall i :: 0 <= i < |prev| ==> Tick(prev, speeds).results[i].position == prev[i].position
    ensures Tick(prev, speeds).Finished? ==>
      forall i :: 0 <= i < |prev| ==> 1 <= Tick(prev, speeds).results[i].position <= |prev|
  {
    var next := StepAll(prev, speeds);
    if Tick(prev, speeds).Finished? {
      forall i | 0 <= i < |prev| ensures 1 <= Tick(prev, speeds).results[i].position <= |prev| {
        PositionIsSortIndex(next, i);
      }
    }
  }

  /** A tick after which every track is finished leaves every track at exactly 100. */
  lemma FinishedTracksAtFinish(prev: seq<RaceResult>, speeds: seq<real>)
    requires |speeds| == |prev| && ProgressInRange(prev)
    requires AllFinished(StepAll(prev, speeds))
    ensures AllAt(StepAll(prev, speeds), Finish)
  {
    var next := StepAll(prev, speeds);
    forall i | 0 <= i < |next| ensures next[i].progress == Finish {
      assert next[i] == StepTrack(prev[i], speeds[i]);
    }
  }

  /**
   * Ranking tracks that are all at the same progress: the stable sort keeps
   * input order, so the first track is the loser and, with distinct animals,
   * the i-th track gets position N - i.
   */
  lemma TiedRankingIsInputOrder(rs: seq<RaceResult>, p: real)
    requires |rs| >= 1 && AllAt(rs, p)
    ensures var ranked := AssignPositions(rs);
      ranked[LastPlace(ranked)].animal == rs[0].animal
      && (DistinctAnimals(rs) ==> forall i :: 0 <= i < |rs| ==> ranked[i].position == |rs| - i)
  {
    SortDescTied(rs, p);
    LoserIsSortedHead(rs);
    if DistinctAnimals(rs) {
      forall i | 0 <= i < |rs| ensures AssignPositions(rs)[i].position == |rs| - i {
        PositionIsSortIndex(rs, i);
      }
    }
  }

  /**
   * The consequence of the cap: every track ends at exactly 100, so the sort
   * keeps input order, the i-th animal gets position N - i, and the loser is
   * always the first animal of the input, whatever the draws.
   */
  lemma FinishedRankingIsInputOrder(prev: seq<RaceResult>, speeds: seq<real>)
    requires |speeds| == |prev| && ProgressInRange(prev)
    requires Tick(prev, speeds).Finished?
    ensures var o := Tick(prev, speeds);
      |prev| >= 1 && o.loser == prev[0].animal && AllAt(o.results, Finish)
      && (DistinctAnimals(prev) ==> forall i :: 0 <= i < |prev| ==> o.results[i].position == |prev| - i)
  {
    var next := StepAll(prev, speeds);
    assert AllFinished(next) && |next| >= 1;
    FinishedTracksAtFinish(prev, speeds);
    TiedRankingIsInputOrder(next, Finish);
    assert next[0].animal == prev[0].animal;
    assert DistinctAnimals(prev) ==> DistinctAnimals(next) by {
      assert SameAnimals(next, prev);
    }
  }

  /**
   * With forced increments: the rat reaches the finish on the first tick, the
   * ox and the tiger on the second. The rat, first over the line, is ranked
   * last and named the loser; the tiger, last over the line, gets position 1.
   */
  lemma ScenarioFirstOverTheLineLoses()
    ensures var t1 := Tick(InitialResults([Rat, Ox, Tiger]), [100.0, 50.0, 10.0]);
      && t1 == Running([RaceResult(Rat, 0, 100.0), RaceResult(Ox, 0, 50.0), RaceResult(Tiger, 0, 10.0)])
      && Tick(t1.results, [2.0, 60.0, 95.0])
         == Finished([RaceResult(Rat, 3, 100.0), RaceResult(Ox, 2, 100.0), RaceResult(Tiger, 1, 100.0)], Rat)
  {
    var rs0 := InitialResults([Rat, Ox, Tiger]);
    var rs1 := [RaceResult(Rat, 0, 100.0), RaceResult(Ox, 0, 50.0), RaceResult(Tiger, 0, 10.0)];
    assert StepAll(rs0, [100.0, 50.0, 10.0]) == rs1;
    assert !AllFinished(rs1) by {
      assert rs1[1].progress < Finish;
    }
    ScenarioSecondTick(rs1);
  }

  /** The second tick of the scenario: all three tracks reach 100 and are ranked in input order. */
  lemma ScenarioSecondTick(rs1: seq<RaceResult>)
    requires rs1 == [RaceResult(Rat, 0, 100.0), RaceResult(Ox, 0, 50.0), RaceResult(Tiger, 0, 10.0)]
    ensures Tick(rs1, [2.0, 60.0, 95.0])
         == Finished([RaceResult(Rat, 3, 100.0), RaceResult(Ox, 2, 100.0), RaceResult(Tiger, 1, 100.0)], Rat)
  {
    var next := StepAll(rs1, [2.0, 60.0, 95.0]);
    assert next[0] == RaceResult(Rat, 0, 100.0);
    assert next[1] == RaceResult(Ox, 0, 100.0);
    assert next[2] == RaceResult(Tiger, 0, 100.0);
    assert AllAt(next, Finish);
    assert DistinctAnimals(next);
    TiedRankingIsInputOrder(next, Finish);
    var ranked := AssignPositions(next);
    assert ranked == [RaceResult(Rat, 3, 100.0), RaceResult(Ox, 2, 100.0), RaceResult(Tiger, 1, 100.0)] by {
      assert ranked[0] == RaceResult(Rat, 3, 100.0);
      assert ranked[1] == RaceResult(Ox, 2, 100.0);
      assert ranked[2] == RaceResult(Tiger, 1, 100.0);
    }
  }

  /** The outcome of running ticks until the race finishes (or the draws run out). */
  function RunTicks(rs: seq<RaceResult>, draws: seq<seq<real>>): (o: TickOutcome)
    requires forall t :: 0 <= t < |draws| ==> |draws[t]| == |rs|
    ensures o.Running? || o.Finished? ==> SameAnimals(o.results, rs)
    ensures o.ReduceOfEmptyArray? <==> |rs| == 0 && |draws| >= 1
    decreases |draws|
  {
    if draws == [] then Running(rs)
    else
      match Tick(rs, draws[0])
      case Running(next) => RunTicks(next, draws[1..])
      case other => other
  }

  /**
   * Once the race has finished the interval is cleared: the draws after the
   * finishing tick change nothing about the outcome.
   */
  lemma {:induction false} RunTicksStopsWhenFinished(rs: seq<RaceResult>, draws: seq<seq<real>>, k: nat)
    requires forall t :: 0 <= t < |draws| ==> |draws[t]| == |rs|
    requires k <= |draws|
    requires RunTicks(rs, draws[..k]).Finished?
    ensures RunTicks(rs, draws) == RunTicks(rs, draws[..k])
    decreases k
  {
    assert k != 0;
    var pre := draws[..k];
    SliceShift(draws, k);
    assert pre[0] == draws[0];
    var o := Tick(rs, draws[0]);
    if o.Running? {
      RunTicksStopsWhenFinished(o.results, draws[1..], k - 1);
    }
  }

  /** Dropping the first element of a prefix is taking a prefix of the tail. */
  lemma SliceShift<T>(s: seq<T>, k: nat)
    requires 1 <= k <= |s|
    ensures s[..k][1..] == s[1..][..k - 1]
  {
  }

  /**
   * Because every draw is at least 1.5, a race of at least one animal that
   * still has `t` ticks to go finishes if every track is within 1.5 * t of the
   * finish line.
   */
  lemma {:induction false} RaceFinishesInTime(rs: seq<RaceResult>, draws: seq<seq<real>>)
    requires |rs| >= 1 && |draws| >= 1
    requires forall t :: 0 <= t < |draws| ==> ValidSpeeds(draws[t], |rs|)
    requires forall i :: 0 <= i < |rs| ==> rs[i].progress >= Finish - MinSpeed * |draws| as real
    ensures forall t :: 0 <= t < |draws| ==> |draws[t]| == |rs|
    ensures RunTicks(rs, draws).Finished?
    decreases |draws|
  {
    assert forall t :: 0 <= t < |draws| ==> |draws[t]| == |rs| by {
      forall t | 0 <= t < |draws| ensures |draws[t]| == |rs| {
        assert ValidSpeeds(draws[t], |rs|);
      }
    }
    var next := StepAll(rs, draws[0]);
    if |draws| == 1 {
      forall i | 0 <= i < |rs| ensures next[i].progress >= Finish {
        assert rs[i].progress + draws[0][i] >= Finish;
      }
    } else if !AllFinished(next) {
      forall i | 0 <= i < |rs| ensures next[i].progress >= Finish - MinSpeed * (|draws| - 1) as real {
        assert SpeedInRange(draws[0][i]);
      }
      RaceFinishesInTime(next, draws[1..]);
    }
  }

  /** A race of at least one animal is over after at most 67 ticks (100 / 1.5 rounded up). */
  lemma RaceFinishesWithin67Ticks(animals: seq<Animal>, draws: seq<seq<real>>)
    requires |animals| >= 1 && |draws| >= 67
    requires forall t :: 0 <= t < |draws| ==> ValidSpeeds(draws[t], |animals|)
    ensures forall t :: 0 <= t < |draws| ==> |draws[t]| == |InitialResults(animals)|
    ensures RunTicks(InitialResults(animals), draws).Finished?
  {
    RaceFinishesInTime(InitialResults(animals), draws);
  }

  /**
   * What the component's tracks and loser satisfy between ticks: one track
   * per selected animal in selection order, progress within [0, 100], no
   * positions and no loser before the end, and at the end every track at
   * 100, the first selected animal the loser and (for distinct animals) the
   * i-th track at position N - i.
   */
  predicate RaceInvariant(animals: seq<Animal>, results: seq<RaceResult>, finished: bool, loser: Option<Animal>)
  {
    && |results| == |animals|
    && (forall i :: 0 <= i < |results| ==> results[i].animal == animals[i])
    && ProgressInRange(results)
    && (!finished ==> Unranked(results) && loser == None)
    && (finished ==>
          && |animals| >= 1
          && loser == Some(animals[0])
          && AllAt(results, Finish)
          && (DistinctAnimals(results) ==> forall i :: 0 <= i < |results| ==> results[i].position == |results| - i))
  }

  /** Every tick of a running race keeps the invariant; the empty race is the only one whose tick throws. */
  lemma TickKeepsRaceInvariant(animals: seq<Animal>, prev: seq<RaceResult>, speeds: seq<real>)
    requires RaceInvariant(animals, prev, false, None)
    requires ValidSpeeds(speeds, |prev|)
    ensures match Tick(prev, speeds)
      case Running(next) => RaceInvariant(animals, next, false, None)
      case Finished(ranked, l) => RaceInvariant(animals, ranked, true, Some(l))
      case ReduceOfEmptyArray => |prev| == 0
  {
    TickAdvancesTracks(prev, speeds);
    TickRanksAtOnce(prev, speeds);
    var o := Tick(prev, speeds);
    if o.Finished? {
      FinishedRankingIsInputOrder(prev, speeds);
      assert DistinctAnimals(o.results) ==> DistinctAnimals(prev);
    }
  }

  // ---------------------------------------------------------------------------
  // The component state
  // ---------------------------------------------------------------------------

  /** The state of the `RaceGame` component, changed by the countdown and interval effects. */
  class RaceGame {
    const animals: seq<Animal>
    var raceStarted: bool
    var countdown: int
    var results: seq<RaceResult>
    var finished: bool
    var loser: Option<Animal>

    ghost predicate Valid()
      reads this
    {
      && 0 <= countdown <= 3
      && (raceStarted ==> countdown == 0)
      && (finished ==> raceStarted)
      && RaceInvariant(animals, results, finished, loser)
    }

    /** Mounting the component: countdown 3, not started, every track at 0, no loser. */
    constructor (animals: seq<Animal>)
      ensures Valid()
      ensures this.animals == animals
      ensures countdown == 3 && !raceStarted && !finished && loser == None
      ensures results == InitialResults(animals)
    {
      this.animals := animals;
      raceStarted := false;
      countdown := 3;
      results := InitialResults(animals);
      finished := false;
      loser := None;
    }

    /**
     * One run of the countdown effect: a positive countdown goes down by one
     * (the 1000 ms timer firing); at 0 the race is started.
     */
    method CountdownStep()
      requires Valid()
      modifies this
      ensures Valid()
      ensures old(countdown) > 0 ==> countdown == old(countdown) - 1 && raceStarted == old(raceStarted)
      ensures old(countdown) == 0 ==> countdown == 0 && raceStarted
      ensures results == old(results) && finished == old(finished) && loser == old(loser)
    {
      if countdown > 0 {
        countdown := countdown - 1;
      } else if countdown == 0 && !raceStarted {
        raceStarted := true;
      }
    }

    /**
     * One firing of the 50 ms interval with the given draws. The interval only
     * exists while the race is started and not finished; otherwise nothing changes.
     */
    method Advance(speeds: seq<real>)
      requires Valid()
      requires ValidSpeeds(speeds, |results|)
      modifies this
      ensures Valid()
      ensures countdown == old(countdown) && raceStarted == old(raceStarted)
      ensures !old(raceStarted) || old(finished) ==>
        results == old(results) && finished == old(finished) && loser == old(loser)
      ensures old(raceStarted) && !old(finished) ==>
        match Tick(old(results), speeds)
        case Running(next) => results == next && !finished && loser == None
        case Finished(ranked, l) => results == ranked && finished && loser == Some(l)
        case ReduceOfEmptyArray => results == old(results) && !finished && loser == None
    {
      if !raceStarted || finished {
        return;
      }
      TickKeepsRaceInvariant(animals, results, speeds);
      match Tick(results, speeds)
      case Running(next) =>
        results := next;
      case Finished(ranked, l) =>
        results := ranked;
        loser := Some(l);
        finished := true;
      case ReduceOfEmptyArray =>
    }
  }
}
