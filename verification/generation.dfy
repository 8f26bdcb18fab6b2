/** One generation of a cellular automaton on the grid, as the example drives
    the grid library's `set_from_neighbours_diagonals_par`: every cell of the
    destination gets the transition rule applied to that cell's 3x3 window, read
    from the source grid.

    A grid is a total map from cell address to cell state, written as a Dafny
    function `P -> T` over the type `P` of the grid's valid addresses. The
    library's neighbour resolution (which crosses cube faces and corners) is a
    parameter `neighbour` giving the address next to a cell in each of eight
    directions. */
module Generation {
  import Life

  /** The eight compass directions around a cell. */
  datatype Direction =
    | North | NorthEast | East | SouthEast | South | SouthWest | West | NorthWest

  /** A transition rule: the 3x3 window in row-major order, the centre cell fifth. */
  type Rule<!T> = (T, T, T, T, T, T, T, T, T) -> T

  /** The next state of cell `p`: the rule applied to its window in `source`. */
  function NextCell<P, T>(source: P -> T, neighbour: (P, Direction) -> P, rule: Rule<T>, p: P): T
  {
    rule(source(neighbour(p, NorthWest)), source(neighbour(p, North)), source(neighbour(p, NorthEast)),
         source(neighbour(p, West)),      source(p),                   source(neighbour(p, East)),
         source(neighbour(p, SouthWest)), source(neighbour(p, South)), source(neighbour(p, SouthEast)))
  }

  /** One generation: the destination holds, at every address, the rule
      applied to that address's window in the source. The source is a value
      and is left as it was; nothing of the destination's previous contents
      survives, since the result does not depend on it. */
  function Step<P(!new), T>(source: P -> T, neighbour: (P, Direction) -> P, rule: Rule<T>): (next: P -> T)
    ensures forall p ::
              next(p) == rule(source(neighbour(p, NorthWest)), source(neighbour(p, North)),
                              source(neighbour(p, NorthEast)), source(neighbour(p, West)),
                              source(p),                       source(neighbour(p, East)),
                              source(neighbour(p, SouthWest)), source(neighbour(p, South)),
                              source(neighbour(p, SouthEast)))
  {
    p => NextCell(source, neighbour, rule, p)
  }

  /** A cell's next state depends on the source only through the cell's own
      window: two sources that agree on it give the same next state. */
  lemma StepIsLocal<P(!new), T>(g1: P -> T, g2: P -> T, neighbour: (P, Direction) -> P, rule: Rule<T>, p: P)
    requires g1(p) == g2(p)
    requires forall d :: g1(neighbour(p, d)) == g2(neighbour(p, d))
    ensures Step(g1, neighbour, rule)(p) == Step(g2, neighbour, rule)(p)
  {
  }

  /** Number of live cells among the eight neighbours of `p`. */
  function LiveNeighbours<P>(g: P -> bool, neighbour: (P, Direction) -> P, p: P): (count: nat)
    ensures count <= 8
  {
    Life.LiveNeighbours(g(neighbour(p, NorthWest)), g(neighbour(p, North)), g(neighbour(p, NorthEast)),
                        g(neighbour(p, West)),                              g(neighbour(p, East)),
                        g(neighbour(p, SouthWest)), g(neighbour(p, South)), g(neighbour(p, SouthEast)))
  }

  /** The Game of Life generation: a cell is alive next exactly when three of
      its neighbours are alive, or when it is alive and two neighbours are. */
  lemma LifeStepCell<P(!new)>(g: P -> bool, neighbour: (P, Direction) -> P, p: P)
    ensures Step(g, neighbour, Life.Transition)(p)
        <==> LiveNeighbours(g, neighbour, p) == 3 || (g(p) && LiveNeighbours(g, neighbour, p) == 2)
  {
  }

  /** Every neighbour of `p` is dead in `g`. */
  ghost predicate NeighboursDead<P>(g: P -> bool, neighbour: (P, Direction) -> P, p: P)
  {
    forall d :: !g(neighbour(p, d))
  }

  /** A cell whose eight neighbours are dead is dead one step later, whether
      it was alive (an isolated cell) or not. */
  lemma IsolatedCellDies<P(!new)>(g: P -> bool, neighbour: (P, Direction) -> P, p: P)
    requires NeighboursDead(g, neighbour, p)
    ensures !Step(g, neighbour, Life.Transition)(p)
  {
    assert !g(neighbour(p, North)) && !g(neighbour(p, NorthEast)) && !g(neighbour(p, East))
        && !g(neighbour(p, SouthEast)) && !g(neighbour(p, South)) && !g(neighbour(p, SouthWest))
        && !g(neighbour(p, West)) && !g(neighbour(p, NorthWest));
    Life.AllNeighboursDeadDies(g(p));
  }

  /** A grid with no live cell (such as the default grid) stays without live
      cells. */
  lemma AllDeadStaysDead<P(!new)>(g: P -> bool, neighbour: (P, Direction) -> P)
    requires forall p :: !g(p)
    ensures forall p :: !Step(g, neighbour, Life.Transition)(p)
  {
    forall p
      ensures !Step(g, neighbour, Life.Transition)(p)
    {
      IsolatedCellDies(g, neighbour, p);
    }
  }

  /** A grid whose every cell is alive has every cell dead one step later:
      each cell sees eight live neighbours. */
  lemma AllAliveCollapses<P(!new)>(g: P -> bool, neighbour: (P, Direction) -> P)
    requires forall p :: g(p)
    ensures forall p :: !Step(g, neighbour, Life.Transition)(p)
  {
    forall p
      ensures !Step(g, neighbour, Life.Transition)(p)
    {
      assert g(neighbour(p, North)) && g(neighbour(p, NorthEast)) && g(neighbour(p, East))
          && g(neighbour(p, SouthEast)) && g(neighbour(p, South)) && g(neighbour(p, SouthWest))
          && g(neighbour(p, West)) && g(neighbour(p, NorthWest));
      Life.AllNeighboursAliveDies(g(p));
    }
  }

  /** The grid after `k` generations of `rule` from `g`: `k - 1` generations
      followed by one more, as the example's loop computes them. */
  function Generations<P(!new), T>(g: P -> T, neighbour: (P, Direction) -> P, rule: Rule<T>, k: nat): P -> T
  {
    if k == 0 then g else Step(Generations(g, neighbour, rule, k - 1), neighbour, rule)
  }

  /** Generations compose from the front as well: `k` generations are one
      generation followed by `k - 1` more from its result. */
  lemma {:induction false} GenerationsShift<P(!new), T>(g: P -> T, neighbour: (P, Direction) -> P, rule: Rule<T>, k: nat)
    requires k > 0
    ensures Generations(g, neighbour, rule, k) == Generations(Step(g, neighbour, rule), neighbour, rule, k - 1)
  {
    if k > 1 {
      GenerationsShift(g, neighbour, rule, k - 1);
    }
  }

  /** An all-dead grid stays all dead for any number of generations. */
  lemma {:induction false} AllDeadForever<P(!new)>(g: P -> bool, neighbour: (P, Direction) -> P, k: nat)
    requires forall p :: !g(p)
    ensures forall p :: !Generations(g, neighbour, Life.Transition, k)(p)
  {
    if k > 0 {
      var previous := Generations(g, neighbour, Life.Transition, k - 1);
      AllDeadForever(g, neighbour, k - 1);
      AllDeadStaysDead(previous, neighbour);
      assert Generations(g, neighbour, Life.Transition, k) == Step(previous, neighbour, Life.Transition);
    }
  }

  /** An all-alive grid is all dead after one generation and stays so. */
  lemma {:induction false} AllAliveThenDead<P(!new)>(g: P -> bool, neighbour: (P, Direction) -> P, k: nat)
    requires forall p :: g(p)
    requires k >= 1
    ensures forall p :: !Generations(g, neighbour, Life.Transition, k)(p)
  {
    if k == 1 {
      AllAliveCollapses(g, neighbour);
    } else {
      var previous := Generations(g, neighbour, Life.Transition, k - 1);
      AllAliveThenDead(g, neighbour, k - 1);
      AllDeadStaysDead(previous, neighbour);
      assert Generations(g, neighbour, Life.Transition, k) == Step(previous, neighbour, Life.Transition);
    }
  }
}
