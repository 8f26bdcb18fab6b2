/** Conway's Game of Life transition rule (B3/S23) as the example passes it to
    the grid's generation step: nine cell states, the centre cell in the fifth
    position and its eight neighbours around it. */
module Life {

  /** Number of live cells in `cells`: the iterator `filter(alive).count()`. */
  function CountAlive(cells: seq<bool>): (n: nat)
    ensures n <= |cells|
  {
    if cells == [] then 0
    else (if cells[0] then 1 else 0) + CountAlive(cells[1..])
  }

  /** The number of live cells is the multiplicity of `true` in the cells,
      so it does not depend on the order the cells are listed in. */
  lemma {:induction false} CountAliveIsMultiplicity(cells: seq<bool>)
    ensures CountAlive(cells) == multiset(cells)[true]
  {
    if cells != [] {
      CountAliveIsMultiplicity(cells[1..]);
      assert cells == [cells[0]] + cells[1..];
      assert multiset(cells) == multiset{cells[0]} + multiset(cells[1..]);
    }
  }

  /** Counting is additive over concatenation. */
  lemma {:induction false} CountAliveAppend(a: seq<bool>, b: seq<bool>)
    ensures CountAlive(a + b) == CountAlive(a) + CountAlive(b)
  {
    if a != [] {
      assert (a + b)[1..] == a[1..] + b;
      CountAliveAppend(a[1..], b);
    } else {
      assert a + b == b;
    }
  }

  /** Listing the same cells in another order gives the same count. */
  lemma CountAliveReorder(a: seq<bool>, b: seq<bool>)
    requires multiset(a) == multiset(b)
    ensures CountAlive(a) == CountAlive(b)
  {
    CountAliveIsMultiplicity(a);
    CountAliveIsMultiplicity(b);
  }

  /** A single cell counts one exactly when it is alive. */
  lemma CountAliveSingle(cell: bool)
    ensures CountAlive([cell]) == if cell then 1 else 0
  {
    assert [cell][1..] == [];
  }

  /** The eight neighbour states in the order the closure lists them; the
      centre argument is not among them. */
  function Neighbours(s1: bool, s2: bool, s3: bool, s4: bool,
                      s6: bool, s7: bool, s8: bool, s9: bool): (ns: seq<bool>)
    ensures |ns| == 8
    ensures ns[..4] == [s1, s2, s3, s4] && ns[4..] == [s6, s7, s8, s9]
  {
    [s1, s2, s3, s4] + [s6, s7, s8, s9]
  }

  /** Live neighbours of the centre cell: the eight neighbour arguments only. */
  function LiveNeighbours(s1: bool, s2: bool, s3: bool, s4: bool,
                          s6: bool, s7: bool, s8: bool, s9: bool): (count: nat)
    ensures count <= 8
  {
    CountAlive(Neighbours(s1, s2, s3, s4, s6, s7, s8, s9))
  }

  /** A centre placed between two runs of cells adds one to their count
      exactly when it is alive. */
  lemma CountAroundCentre(west: seq<bool>, current: bool, east: seq<bool>)
    ensures CountAlive(west + [current] + east)
         == CountAlive(west + east) + (if current then 1 else 0)
  {
    assert west + [current] + east == west + ([current] + east);
    CountAliveAppend(west, [current] + east);
    CountAliveAppend([current], east);
    CountAliveAppend(west, east);
    CountAliveSingle(current);
  }

  /** The whole 3x3 window, centre included, holds exactly the live neighbours
      plus one when the centre is alive: the centre is never counted as its own
      neighbour. */
  lemma CentreNotCounted(s1: bool, s2: bool, s3: bool, s4: bool, current: bool,
                         s6: bool, s7: bool, s8: bool, s9: bool)
    ensures CountAlive([s1, s2, s3, s4] + [current] + [s6, s7, s8, s9])
         == LiveNeighbours(s1, s2, s3, s4, s6, s7, s8, s9) + (if current then 1 else 0)
  {
    CountAroundCentre([s1, s2, s3, s4], current, [s6, s7, s8, s9]);
  }

  /** The transition closure: the next state of the centre cell `current`
      given its eight neighbours, written as the same chain of tests.
      The result is the B3/S23 rule: alive exactly when three neighbours are
      alive, or when the cell is alive and two neighbours are. */
  function Transition(s1: bool, s2: bool, s3: bool, s4: bool, current: bool,
                      s6: bool, s7: bool, s8: bool, s9: bool): (alive: bool)
    ensures alive <==> LiveNeighbours(s1, s2, s3, s4, s6, s7, s8, s9) == 3
                       || (current && LiveNeighbours(s1, s2, s3, s4, s6, s7, s8, s9) == 2)
  {
    var count := LiveNeighbours(s1, s2, s3, s4, s6, s7, s8, s9);
    if count < 2 then false
    else if count > 3 then false
    else if current && count == 2 then true
    else if count == 3 then true
    else false
  }

  /** Underpopulation: fewer than two live neighbours kill or keep dead. */
  lemma FewerThanTwoDies(s1: bool, s2: bool, s3: bool, s4: bool, current: bool,
                         s6: bool, s7: bool, s8: bool, s9: bool)
    requires LiveNeighbours(s1, s2, s3, s4, s6, s7, s8, s9) < 2
    ensures !Transition(s1, s2, s3, s4, current, s6, s7, s8, s9)
  {
  }

  /** Overpopulation: more than three live neighbours give a dead cell. */
  lemma MoreThanThreeDies(s1: bool, s2: bool, s3: bool, s4: bool, current: bool,
                          s6: bool, s7: bool, s8: bool, s9: bool)
    requires LiveNeighbours(s1, s2, s3, s4, s6, s7, s8, s9) > 3
    ensures !Transition(s1, s2, s3, s4, current, s6, s7, s8, s9)
  {
  }

  /** Two live neighbours keep the cell as it is. */
  lemma TwoKeeps(s1: bool, s2: bool, s3: bool, s4: bool, current: bool,
                 s6: bool, s7: bool, s8: bool, s9: bool)
    requires LiveNeighbours(s1, s2, s3, s4, s6, s7, s8, s9) == 2
    ensures Transition(s1, s2, s3, s4, current, s6, s7, s8, s9) == current
  {
  }

  /** Three live neighbours give a live cell whatever the centre was. */
  lemma ThreeBirths(s1: bool, s2: bool, s3: bool, s4: bool, current: bool,
                    s6: bool, s7: bool, s8: bool, s9: bool)
    requires LiveNeighbours(s1, s2, s3, s4, s6, s7, s8, s9) == 3
    ensures Transition(s1, s2, s3, s4, current, s6, s7, s8, s9)
  {
  }

  /** A cell whose eight neighbours are all dead is dead next, alive or not:
      an empty neighbourhood stays empty and an isolated cell dies. */
  lemma AllNeighboursDeadDies(current: bool)
    ensures !Transition(false, false, false, false, current, false, false, false, false)
  {
    assert LiveNeighbours(false, false, false, false, false, false, false, false) == 0;
  }

  /** A cell with eight live neighbours is dead next. */
  lemma AllNeighboursAliveDies(current: bool)
    ensures !Transition(true, true, true, true, current, true, true, true, true)
  {
    assert LiveNeighbours(true, true, true, true, true, true, true, true) == 8;
  }

  /** The rule treats the eight neighbours alike: any rearrangement of them
      gives the same next state. */
  lemma TransitionIgnoresNeighbourOrder(s1: bool, s2: bool, s3: bool, s4: bool, current: bool,
                                        s6: bool, s7: bool, s8: bool, s9: bool,
                                        t1: bool, t2: bool, t3: bool, t4: bool,
                                        t6: bool, t7: bool, t8: bool, t9: bool)
    requires multiset(Neighbours(s1, s2, s3, s4, s6, s7, s8, s9))
          == multiset(Neighbours(t1, t2, t3, t4, t6, t7, t8, t9))
    ensures Transition(s1, s2, s3, s4, current, s6, s7, s8, s9)
         == Transition(t1, t2, t3, t4, current, t6, t7, t8, t9)
  {
    assert LiveNeighbours(s1, s2, s3, s4, s6, s7, s8, s9)
        == LiveNeighbours(t1, t2, t3, t4, t6, t7, t8, t9) by {
      CountAliveReorder(Neighbours(s1, s2, s3, s4, s6, s7, s8, s9),
                        Neighbours(t1, t2, t3, t4, t6, t7, t8, t9));
    }
  }
}
