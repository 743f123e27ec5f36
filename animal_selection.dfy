/**
 * The animal-selection screen (src/components/AnimalSelection.tsx): a list of
 * selected animals, in click order, bounded by the player count. The list is
 * replaced wholesale on every click, so the model is a set of pure functions
 * from the old list to the new one.
 */
module AnimalSelection {
  import opened Wrappers
  import opened App

  /** The `ANIMALS` table, in display order. */
  const Animals: seq<Animal> :=
    [Rat, Ox, Tiger, Rabbit, Dragon, Snake, Horse, Sheep, Monkey, Rooster, Dog, Pig]

  predicate NoDuplicates(s: seq<Animal>)
  {
    forall i, j :: 0 <= i < j < |s| ==> s[i] != s[j]
  }

  /** The selection invariant: no animal twice, never more animals than players. */
  predicate ValidSelection(selected: seq<Animal>, playerCount: int)
  {
    NoDuplicates(selected) && |selected| <= playerCount
  }

  /** The table lists twelve distinct animals, and every animal is in it. */
  lemma AnimalsTable()
    ensures |Animals| == 12 && NoDuplicates(Animals)
    ensures forall a: Animal :: a in Animals
  {
    forall a: Animal ensures a in Animals {
      match a
      case Rat => assert Animals[0] == a;
      case Ox => assert Animals[1] == a;
      case Tiger => assert Animals[2] == a;
      case Rabbit => assert Animals[3] == a;
      case Dragon => assert Animals[4] == a;
      case Snake => assert Animals[5] == a;
      case Horse => assert Animals[6] == a;
      case Sheep => assert Animals[7] == a;
      case Monkey => assert Animals[8] == a;
      case Rooster => assert Animals[9] == a;
      case Dog => assert Animals[10] == a;
      case Pig => assert Animals[11] == a;
    }
  }

  /** `selected.filter(a => a !== animal)`. */
  function Without(s: seq<Animal>, animal: Animal): (r: seq<Animal>)
    ensures forall x :: x in r <==> x in s && x != animal
    ensures |r| <= |s|
    ensures animal in s ==> |r| < |s|
    ensures NoDuplicates(s) ==> NoDuplicates(r)
  {
    if s == [] then []
    else if s[0] == animal then Without(s[1..], animal)
    else
      var rest := Without(s[1..], animal);
      assert NoDuplicates(s) ==> s[0] !in s[1..] && NoDuplicates(s[1..]);
      [s[0]] + rest
  }

  /** One click on the button of `animal`. */
  function Toggle(selected: seq<Animal>, animal: Animal, playerCount: int): (r: seq<Animal>)
    ensures animal in r <==> animal !in selected && |selected| < playerCount
    ensures forall x :: x != animal ==> (x in r <==> x in selected)
    ensures ValidSelection(selected, playerCount) ==> ValidSelection(r, playerCount)
  {
    if animal in selected then Without(selected, animal)
    else if |selected| < playerCount then selected + [animal]
    else selected
  }

  /**
   * The `disabled` condition of an animal's button: a button is disabled
   * exactly when clicking it would change nothing.
   */
  function IsDisabled(selected: seq<Animal>, animal: Animal, playerCount: int): (disabled: bool)
    ensures disabled <==> Toggle(selected, animal, playerCount) == selected
  {
    animal !in selected && |selected| >= playerCount
  }

  /** `handleStart`: the selection is handed to `onSelect` only when it is complete. */
  function HandleStart(selected: seq<Animal>, playerCount: int): (emitted: Option<seq<Animal>>)
    ensures emitted.Some? <==> |selected| == playerCount
    ensures emitted.Some? ==> emitted.value == selected
  {
    if |selected| == playerCount then Some(selected) else None
  }

  /**
   * The `disabled` condition of the start button: disabled exactly when
   * `handleStart` would hand nothing on; on a valid selection, exactly while
   * some player still has no animal.
   */
  function StartDisabled(selected: seq<Animal>, playerCount: int): (disabled: bool)
    ensures disabled <==> HandleStart(selected, playerCount).None?
    ensures ValidSelection(selected, playerCount) ==> (disabled <==> |selected| < playerCount)
  {
    |selected| != playerCount
  }

  /** Clicking a selected animal removes exactly that animal and keeps the others in order. */
  lemma {:induction false} DeselectRemovesIt(selected: seq<Animal>, k: nat, playerCount: int)
    requires NoDuplicates(selected) && k < |selected|
    ensures Toggle(selected, selected[k], playerCount) == selected[..k] + selected[k + 1..]
  {
    WithoutAbsent(selected[..k] + selected[k + 1..], selected[k]);
    WithoutSplit(selected[..k], selected[k..], selected[k]);
    assert selected == selected[..k] + selected[k..];
    WithoutSplit([selected[k]], selected[k + 1..], selected[k]);
    assert selected[k..] == [selected[k]] + selected[k + 1..];
    WithoutSplit(selected[..k], selected[k + 1..], selected[k]);
  }

  /** Filtering out an absent animal changes nothing. */
  lemma {:induction false} WithoutAbsent(s: seq<Animal>, animal: Animal)
    requires animal !in s
    ensures Without(s, animal) == s
  {
    if s != [] {
      assert s[0] != animal && animal !in s[1..];
      WithoutAbsent(s[1..], animal);
      assert Without(s, animal) == [s[0]] + Without(s[1..], animal);
      assert s == [s[0]] + s[1..];
    }
  }

  /** Filtering distributes over concatenation. */
  lemma {:induction false} WithoutSplit(s: seq<Animal>, t: seq<Animal>, animal: Animal)
    ensures Without(s + t, animal) == Without(s, animal) + Without(t, animal)
  {
    if s != [] {
      assert (s + t)[1..] == s[1..] + t;
      WithoutSplit(s[1..], t, animal);
    } else {
      assert s + t == t;
    }
  }

  /** An unselected animal is appended at the end while there is room, so click order is kept. */
  lemma SelectAppends(selected: seq<Animal>, animal: Animal, playerCount: int)
    requires animal !in selected && |selected| < playerCount
    ensures Toggle(selected, animal, playerCount) == selected + [animal]
  {
  }

  /** From a list that is not full, clicking the same unselected animal twice restores the list. */
  lemma ToggleTwiceRestores(selected: seq<Animal>, animal: Animal, playerCount: int)
    requires animal !in selected && |selected| < playerCount
    ensures Toggle(Toggle(selected, animal, playerCount), animal, playerCount) == selected
  {
    WithoutSplit(selected, [animal], animal);
    WithoutAbsent(selected, animal);
  }

  /** Clicking a selected animal twice (with the list not full once it is removed) restores the list. */
  lemma {:induction false} ToggleTwiceRestoresSelected(selected: seq<Animal>, k: nat, playerCount: int)
    requires NoDuplicates(selected) && k < |selected| <= playerCount
    ensures Toggle(Toggle(selected, selected[k], playerCount), selected[k], playerCount)
            == selected[..k] + selected[k + 1..] + [selected[k]]
  {
    DeselectRemovesIt(selected, k, playerCount);
  }

  /**
   * The selection after a sequence of clicks, starting from the empty list:
   * only clicked animals are ever selected, and never more than were clicked.
   */
  function Clicks(playerCount: int, clicks: seq<Animal>): (selected: seq<Animal>)
    ensures forall x :: x in selected ==> x in clicks
    ensures |selected| <= |clicks|
  {
    if clicks == [] then []
    else Toggle(Clicks(playerCount, clicks[..|clicks| - 1]), clicks[|clicks| - 1], playerCount)
  }

  /**
   * Every list reachable by clicking is duplicate-free and within the player
   * count, so every selection `handleStart` emits is a duplicate-free list of
   * exactly `playerCount` animals from the table.
   */
  lemma {:induction false} ReachableSelectionIsValid(playerCount: int, clicks: seq<Animal>)
    requires playerCount >= 0
    ensures ValidSelection(Clicks(playerCount, clicks), playerCount)
    ensures var e := HandleStart(Clicks(playerCount, clicks), playerCount);
      e.Some? ==> (NoDuplicates(e.value) && |e.value| == playerCount
                   && forall x :: x in e.value ==> x in Animals)
  {
    if clicks != [] {
      ReachableSelectionIsValid(playerCount, clicks[..|clicks| - 1]);
    }
  }

  /** Clicking distinct animals, with room for all of them, selects exactly those, in click order. */
  lemma {:induction false} ClickingDistinctSelectsThem(playerCount: int, clicks: seq<Animal>)
    requires NoDuplicates(clicks) && |clicks| <= playerCount
    ensures Clicks(playerCount, clicks) == clicks
  {
    if clicks != [] {
      var n := |clicks| - 1;
      var init, last := clicks[..n], clicks[n];
      assert NoDuplicates(init) by {
        forall i, j | 0 <= i < j < n ensures init[i] != init[j] {
          assert init[i] == clicks[i] && init[j] == clicks[j];
        }
      }
      ClickingDistinctSelectsThem(playerCount, init);
      assert last !in init by {
        forall i | 0 <= i < n ensures init[i] != last {
          assert init[i] == clicks[i];
        }
      }
      SelectAppends(init, last, playerCount);
      calc {
        Clicks(playerCount, clicks);
        Toggle(Clicks(playerCount, init), last, playerCount);
        Toggle(init, last, playerCount);
        init + [last];
        { assert init + [last] == clicks; }
        clicks;
      }
    }
  }

  /** Any player count the player-selection screen offers can be filled, so the race can always start. */
  lemma EveryPlayerCountCanStart(playerCount: int)
    requires MinPlayers <= playerCount <= MaxPlayers
    ensures HandleStart(Clicks(playerCount, Animals[..playerCount]), playerCount) == Some(Animals[..playerCount])
  {
    AnimalsTable();
    ClickingDistinctSelectsThem(playerCount, Animals[..playerCount]);
  }

  /** Clicking the rat, the ox and the tiger with three players selects them in click order and lets the game start. */
  lemma ScenarioThreePlayersStart()
    ensures Clicks(3, [Rat, Ox, Tiger]) == [Rat, Ox, Tiger]
    ensures HandleStart(Clicks(3, [Rat, Ox, Tiger]), 3) == Some([Rat, Ox, Tiger])
  {
    ClickingDistinctSelectsThem(3, [Rat, Ox, Tiger]);
  }

  /** With two players a third click on a new animal is ignored. */
  lemma ScenarioNoThirdAnimal()
    ensures Clicks(2, [Rat, Ox, Tiger]) == [Rat, Ox]
  {
    ClickingDistinctSelectsThem(2, [Rat, Ox]);
    assert [Rat, Ox, Tiger][..2] == [Rat, Ox];
  }

  /** Clicking the rat twice deselects it again. */
  lemma ScenarioDeselect()
    ensures Clicks(3, [Rat]) == [Rat] && Clicks(3, [Rat, Rat]) == []
  {
    ClickingDistinctSelectsThem(3, [Rat]);
    assert [Rat, Rat][..1] == [Rat];
  }
}
