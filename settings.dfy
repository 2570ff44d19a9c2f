/**
  The small numeric rules around a game: Unreal's `FMath::Clamp` as the engine
  and the settings panel use it, the four difficulty presets, the clamps of the
  custom-size entry boxes, and the "Mines Remaining" counter.
*/
module Settings {

  /**
    `FMath::Clamp(X, Min, Max)`, which is `X < Min ? Min : X < Max ? X : Max`.
    With `Min <= Max` the result lies in `[Min, Max]` and is `X` when `X`
    already does; below `Min` it is `Min`, and from `Max` upwards it is `Max`.
  */
  function Clamp(x: int, lo: int, hi: int): (r: int)
    ensures lo <= hi ==> lo <= r <= hi
    ensures lo <= x <= hi ==> r == x
    ensures x < lo ==> r == lo
    ensures lo <= x && hi <= x ==> r == hi
  {
    if x < lo then lo else if x < hi then x else hi
  }

  /** Clamping a clamped value again changes nothing. */
  lemma ClampIdempotent(x: int, lo: int, hi: int)
    requires lo <= hi
    ensures Clamp(Clamp(x, lo, hi), lo, hi) == Clamp(x, lo, hi)
  {
  }

  /** The largest board side the custom entry boxes accept. */
  const MaxSide := 256

  /** The width and height entry boxes clamp their value into `[1, 256]`. */
  function ClampSide(value: int): (r: int)
    ensures 1 <= r <= MaxSide
    ensures 1 <= value <= MaxSide ==> r == value
    ensures value < 1 ==> r == 1
    ensures MaxSide < value ==> r == MaxSide
  {
    Clamp(value, 1, MaxSide)
  }

  /** The mine-count entry box clamps into `[1, height * width]` for the current size. */
  function ClampMineEntry(value: int, width: int, height: int): (r: int)
    requires 1 <= width && 1 <= height
    ensures 1 <= r <= width * height
    ensures 1 <= value <= width * height ==> r == value
    ensures value < 1 ==> r == 1
    ensures width * height < value ==> r == width * height
  {
    Clamp(value, 1, height * width)
  }

  /** The entries of the difficulty combo box. */
  datatype Difficulty = Easy | Medium | Hard | Impossible | Custom

  /** The size and mine count a new game is started with. */
  datatype Config = Config(width: int, height: int, mineCount: int)

  /** A configuration every entry box accepts unchanged. */
  predicate Playable(c: Config) {
    1 <= c.width <= MaxSide && 1 <= c.height <= MaxSide && 1 <= c.mineCount <= c.width * c.height
  }

  /**
    Selecting a difficulty: a preset replaces the configuration, `Custom` keeps
    the current one for the entry boxes to edit.
  */
  function SelectDifficulty(d: Difficulty, current: Config): (c: Config)
    ensures d != Custom ==> Playable(c) && 5 * c.mineCount <= c.width * c.height
    ensures d == Custom ==> c == current
  {
    match d
    case Easy => Config(8, 8, 10)
    case Medium => Config(16, 16, 40)
    case Hard => Config(32, 16, 99)
    case Impossible => Config(32, 32, 170)
    case Custom => current
  }

  /**
    Every preset is a fixed point of the entry-box clamps and of the engine's
    own mine clamp: a preset game starts with exactly the preset's numbers.
  */
  lemma PresetsSurviveClamps(d: Difficulty, current: Config)
    requires d != Custom
    ensures var c := SelectDifficulty(d, current);
      ClampSide(c.width) == c.width && ClampSide(c.height) == c.height
      && ClampMineEntry(c.mineCount, c.width, c.height) == c.mineCount
      && Clamp(c.mineCount, 1, c.width * c.height) == c.mineCount
  {
  }

  /** The "Mines Remaining" label: `max(0, MineCount - FlagsPlaced)`. */
  function MinesRemaining(mineCount: int, flagsPlaced: int): (r: int)
    ensures 0 <= r && mineCount - flagsPlaced <= r
    ensures r == 0 || r == mineCount - flagsPlaced
  {
    if mineCount - flagsPlaced < 0 then 0 else mineCount - flagsPlaced
  }

  /**
    Placing one more flag lowers the label by one until it reaches zero, and
    never lets it go below zero however many flags are placed.
  */
  lemma RemainingAfterFlag(mineCount: int, flagsPlaced: int)
    ensures flagsPlaced < mineCount ==>
      MinesRemaining(mineCount, flagsPlaced + 1) == MinesRemaining(mineCount, flagsPlaced) - 1
    ensures mineCount <= flagsPlaced ==> MinesRemaining(mineCount, flagsPlaced + 1) == 0
  {
  }
}
