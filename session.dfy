/** Streamlit keeps a per-browser-session dictionary across the reruns of
    the script. The exam page stores one entry in it, "seed", written on the
    first run and read back on every later one, so that every rerun samples
    the same questions. */
module Session {

  datatype Option<T> = None | Some(value: T)

  /** `random.randint(1, 10**9)` draws from this closed range. */
  const MinSeed: int := 1
  const MaxSeed: int := 1_000_000_000

  predicate InRange(seed: int)
  {
    MinSeed <= seed <= MaxSeed
  }

  /** The "seed" entry of the session state. */
  class SeedStore {
    var stored: Option<int>

    /** Only `GetOrDraw` writes the entry, and only with an in-range draw. */
    ghost predicate Valid()
      reads this
    {
      stored.Some? ==> InRange(stored.value)
    }

    /** A new browser session starts with no seed. */
    constructor ()
      ensures Valid() && stored == None
    {
      stored := None;
    }

    /** Read the seed; on the first run store the fresh draw `draw` (the
        value `random.randint` would return) and use it. A stored seed is
        never overwritten. */
    method GetOrDraw(draw: int) returns (seed: int)
      requires Valid() && InRange(draw)
      modifies this
      ensures Valid() && InRange(seed) && stored == Some(seed)
      ensures old(stored).Some? ==> seed == old(stored).value
      ensures old(stored).None? ==> seed == draw
    {
      if stored.None? {
        stored := Some(draw);
      }
      seed := stored.value;
    }
  }

  /** Two reruns of the page in one session use the same seed, whatever
      the second run's draw. */
  method RerunsAgree(store: SeedStore, draw1: int, draw2: int) returns (seed1: int, seed2: int)
    requires store.Valid() && InRange(draw1) && InRange(draw2)
    modifies store
    ensures seed1 == seed2 && store.stored == Some(seed1)
    ensures old(store.stored).Some? ==> seed1 == old(store.stored).value
    ensures old(store.stored).None? ==> seed1 == draw1
  {
    seed1 := store.GetOrDraw(draw1);
    seed2 := store.GetOrDraw(draw2);
  }
}
