/** The example's simulation state between frames: two grids of the same
    shape, swapped after every generation so that no grid is allocated per
    frame. `buffer1` holds the generation on display and `buffer2` the spare
    grid the next generation is written into. */
module Simulation {
  import Life
  import opened Generation

  class DoubleBuffer<P(!new)> {
    var buffer1: P -> bool
    var buffer2: P -> bool
    /** The grid library's neighbour resolution, fixed for the grid's life. */
    const neighbour: (P, Direction) -> P

    /** The first generation and the number of generations computed since. */
    ghost var initial: P -> bool
    ghost var ticks: nat

    /** `buffer1` is generation `ticks` and, after the first tick, `buffer2`
        is the generation before it. */
    ghost predicate Valid()
      reads this
    {
      buffer1 == Generations(initial, neighbour, Life.Transition, ticks)
      && (ticks > 0 ==> buffer2 == Generations(initial, neighbour, Life.Transition, ticks - 1))
    }

    /** `buffer1` is built from a per-cell generator (the example seeds it
        at random) and `buffer2` is the default grid, every cell dead. */
    constructor (generator: P -> bool, neighbour: (P, Direction) -> P)
      ensures Valid() && ticks == 0 && initial == generator
      ensures buffer1 == generator && this.neighbour == neighbour
      ensures forall p :: !buffer2(p)
    {
      buffer1 := generator;
      buffer2 := p => false;
      this.neighbour := neighbour;
      initial := generator;
      ticks := 0;
    }

    /** One frame's update: write the next Game of Life generation from
        `buffer1` into `buffer2`, then swap the two grids. Afterwards
        `buffer1` holds the new generation and `buffer2` the previous one. */
    method Tick()
      requires Valid()
      modifies this
      ensures Valid() && ticks == old(ticks) + 1 && initial == old(initial)
      ensures buffer1 == Step(old(buffer1), neighbour, Life.Transition)
      ensures buffer2 == old(buffer1)
    {
      buffer2 := Step(buffer1, neighbour, Life.Transition);
      buffer1, buffer2 := buffer2, buffer1;
      ticks := ticks + 1;
    }
  }
}
