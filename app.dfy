/**
 * The top-level screen navigation of the game (src/App.tsx): which of the
 * three screens is shown, how many players take part, and which animals
 * run in the race.
 */
module App {

  /** The twelve zodiac animals of the `Animal` string-literal union type. */
  datatype Animal =
    | Rat | Ox | Tiger | Rabbit | Dragon | Snake
    | Horse | Sheep | Monkey | Rooster | Dog | Pig

  /** The label the source uses for each animal; it is the animal's value in the source. */
  function Name(a: Animal): string
  {
    match a
    case Rat => "쥐"
    case Ox => "소"
    case Tiger => "호랑이"
    case Rabbit => "토끼"
    case Dragon => "용"
    case Snake => "뱀"
    case Horse => "말"
    case Sheep => "양"
    case Monkey => "원숭이"
    case Rooster => "닭"
    case Dog => "개"
    case Pig => "돼지"
  }

  /** Different animals carry different labels, so the label identifies the animal. */
  lemma NameInjective(a: Animal, b: Animal)
    ensures Name(a) == Name(b) ==> a == b
  {
  }

  datatype GameState = PlayerSelection | AnimalSelection | Racing

  /** The screens the component tree can mount. */
  datatype Screen = PlayerSelectionScreen | AnimalSelectionScreen | RaceGameScreen

  /** The player counts offered by the player-selection screen. */
  const MinPlayers: int := 2
  const MaxPlayers: int := 12

  /**
   * The screens rendered for a game state: the source writes three independent
   * `gameState === ... && <Screen/>` conditionals, one after the other.
   */
  function RenderedScreens(g: GameState): (screens: seq<Screen>)
    ensures |screens| == 1
    ensures screens[0] == PlayerSelectionScreen <==> g == PlayerSelection
    ensures screens[0] == AnimalSelectionScreen <==> g == AnimalSelection
    ensures screens[0] == RaceGameScreen <==> g == Racing
  {
    (if g == PlayerSelection then [PlayerSelectionScreen] else [])
    + (if g == AnimalSelection then [AnimalSelectionScreen] else [])
    + (if g == Racing then [RaceGameScreen] else [])
  }

  /** The state of the `App` component: three independent pieces of React state. */
  class App {
    var gameState: GameState
    var playerCount: int
    var selectedAnimals: seq<Animal>

    /** The player count always comes from the player-selection screen's range (or the initial 2). */
    ghost predicate Valid()
      reads this
    {
      MinPlayers <= playerCount <= MaxPlayers
    }

    /** The initial state: the player-selection screen, two players, no animals. */
    constructor ()
      ensures Valid()
      ensures gameState == PlayerSelection && playerCount == 2 && selectedAnimals == []
    {
      gameState := PlayerSelection;
      playerCount := 2;
      selectedAnimals := [];
    }

    /** A player count was chosen: remember it and move on to animal selection. */
    method HandlePlayerSelect(count: int)
      requires Valid()
      requires MinPlayers <= count <= MaxPlayers
      modifies this
      ensures Valid()
      ensures playerCount == count && gameState == AnimalSelection
      ensures selectedAnimals == old(selectedAnimals)
    {
      playerCount := count;
      gameState := AnimalSelection;
    }

    /** The animals were chosen: store them and start the race. */
    method HandleAnimalsSelect(animals: seq<Animal>)
      requires Valid()
      modifies this
      ensures Valid()
      ensures selectedAnimals == animals && gameState == Racing
      ensures playerCount == old(playerCount)
    {
      selectedAnimals := animals;
      gameState := Racing;
    }

    /**
     * Restart after the race: every field gets its initial value, whatever the
     * old state was, so restarting twice is the same as restarting once.
     */
    method HandleRestart()
      requires Valid()
      modifies this
      ensures Valid()
      ensures gameState == PlayerSelection && playerCount == 2 && selectedAnimals == []
    {
      gameState := PlayerSelection;
      playerCount := 2;
      selectedAnimals := [];
    }

    /** The back button of the animal-selection screen: only the screen changes. */
    method Back()
      requires Valid()
      modifies this
      ensures Valid()
      ensures gameState == PlayerSelection
      ensures playerCount == old(playerCount) && selectedAnimals == old(selectedAnimals)
    {
      gameState := PlayerSelection;
    }
  }
}
