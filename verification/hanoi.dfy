/**
 * The graph-constrained Towers of Hanoi of assignment-1/question-1/question-1.cpp.
 * Five pegs joined by an undirected graph (Start - A1, A1 - Dest, A1 - A3,
 * A3 - A2, A2 - Dest); a disk may only move along an edge. `startToDest`
 * moves the stack on Start to Dest through `moveNonAdjacent` (two hops via
 * the smallest common neighbour) and `moveAdjacent` (park the smaller disks
 * on the smallest other neighbour of the target). Pegs are chosen by the
 * string order of their names, which the model keeps as a rank.
 */
module Hanoi {
  import opened Wrappers

  datatype Peg = A1 | A2 | A3 | Dest | Start

  /** The name the source keys its maps by. */
  function Name(p: Peg): string
  {
    match p
    case A1 => "A1" case A2 => "A2" case A3 => "A3"
    case Dest => "Dest" case Start => "Start"
  }

  /** Position of a peg's name in `std::string` order. */
  function Rank(p: Peg): nat
  {
    match p
    case A1 => 0 case A2 => 1 case A3 => 2 case Dest => 3 case Start => 4
  }

  /** Strict lexicographic order on strings, as `std::string::operator<`. */
  predicate StrLess(a: string, b: string)
  {
    b != [] && (a == [] || a[0] < b[0] || (a[0] == b[0] && StrLess(a[1..], b[1..])))
  }

  /** No string is below itself. */
  lemma {:induction false} StrLessIrreflexive(a: string)
    ensures !StrLess(a, a)
  {
    if a != [] {
      StrLessIrreflexive(a[1..]);
    }
  }

  /** The rank orders pegs exactly as `std::set<std::string>` orders their names. */
  lemma RankIsNameOrder(p: Peg, q: Peg)
    ensures Rank(p) < Rank(q) <==> StrLess(Name(p), Name(q))
  {
    StrLessIrreflexive(Name(p));
    match p
    case A1 => match q { case A1 => case A2 => case A3 => case Dest => case Start => }
    case A2 => match q { case A1 => assert !StrLess("2", "1"); case A2 => case A3 => case Dest => case Start => }
    case A3 => match q { case A1 => case A2 => case A3 => case Dest => case Start => }
    case Dest => match q { case A1 => case A2 => case A3 => case Dest => case Start => }
    case Start => match q { case A1 => case A2 => case A3 => case Dest => case Start => }
  }

  /** The adjacency sets the constructor stores in `graph`. */
  function Neighbours(p: Peg): set<Peg>
  {
    match p
    case Start => {A1}
    case A1 => {Start, Dest, A3}
    case A2 => {Dest, A3}
    case A3 => {A2, A1}
    case Dest => {A1, A2}
  }

  /** The graph has no loops and every edge is listed from both ends. */
  lemma Undirected(p: Peg, q: Peg)
    ensures p !in Neighbours(p)
    ensures q in Neighbours(p) <==> p in Neighbours(q)
  {
  }

  /** `*s.begin()`: the first peg of a non-empty set in name order. */
  function Least(s: set<Peg>): (p: Peg)
    requires s != {}
    ensures p in s && forall q :: q in s ==> Rank(p) <= Rank(q)
  {
    if A1 in s then A1 else if A2 in s then A2 else if A3 in s then A3
    else if Dest in s then Dest
    else assert Start in s by { var q :| q in s; PegCases(q); } Start
  }

  /**
   * The auxiliary peg of `moveAdjacent(n, src, dst)`: the first neighbour of
   * `dst` other than `src` in name order, or none.
   */
  function Auxiliary(src: Peg, dst: Peg): (r: Option<Peg>)
    ensures r.None? <==> Neighbours(dst) - {src} == {}
    ensures r.Some? ==> r.value in Neighbours(dst) && r.value != src
    ensures r.Some? ==> forall q :: q in Neighbours(dst) && q != src ==> Rank(r.value) <= Rank(q)
  {
    var c := Neighbours(dst) - {src};
    if c == {} then None else Some(Least(c))
  }

  /**
   * The intermediate peg of `moveNonAdjacent(n, src, dst)`: the first common
   * neighbour of `src` and `dst` in name order, or none.
   */
  function Intermediate(src: Peg, dst: Peg): (r: Option<Peg>)
    ensures r.None? <==> Neighbours(src) * Neighbours(dst) == {}
    ensures r.Some? ==> r.value in Neighbours(src) && r.value in Neighbours(dst)
    ensures r.Some? ==> forall q :: q in Neighbours(src) && q in Neighbours(dst) ==> Rank(r.value) <= Rank(q)
  {
    var c := Neighbours(src) * Neighbours(dst);
    if c == {} then None else Some(Least(c))
  }

  /** Every peg is one of the five. */
  lemma PegCases(p: Peg)
    ensures p == A1 || p == A2 || p == A3 || p == Dest || p == Start
  {
  }

  // ---------------------------------------------------------------------------
  // Towers and the solver's state.
  // ---------------------------------------------------------------------------

  /**
   * One peg's `std::vector<int>`. The solver only ever tests it for
   * emptiness, reads and pops its back and pushes onto its back, so it is
   * modelled as a stack: `Push(below, top)` is `below` with `top` pushed on.
   */
  datatype Tower = Empty | Push(below: Tower, top: int)

  /** The vector's contents, bottom first. */
  function Disks(w: Tower): seq<int>
  {
    match w
    case Empty => []
    case Push(below, x) => Disks(below) + [x]
  }

  /** `towers`: one tower per graph peg. */
  datatype Towers = Towers(a1: Tower, a2: Tower, a3: Tower, dest: Tower, start: Tower)

  /** `towers.at(p)`. */
  function Get(t: Towers, p: Peg): Tower
  {
    match p
    case A1 => t.a1 case A2 => t.a2 case A3 => t.a3
    case Dest => t.dest case Start => t.start
  }

  /** `t` with peg `p`'s tower replaced by `w`. */
  function Set(t: Towers, p: Peg, w: Tower): (r: Towers)
    ensures Get(r, p) == w && forall q :: q != p ==> Get(r, q) == Get(t, q)
  {
    match p
    case A1 => t.(a1 := w) case A2 => t.(a2 := w) case A3 => t.(a3 := w)
    case Dest => t.(dest := w) case Start => t.(start := w)
  }

  /** The solver's mutable state: the towers and `moveCount`. */
  datatype Solver = Solver(towers: Towers, moveCount: nat)

  /** The `std::logic_error`s the solver throws. */
  datatype Fault =
    | EmptyTower(src: Peg)
      /** The disk has already left `src` when this is thrown: `left` is the towers at that point. */
    | SmallerDisk(disk: int, onto: int, left: Towers)
    | NoAuxiliary(src: Peg, dst: Peg)
    | NoPath(src: Peg, dst: Peg)

  /** `w` with the disks `k, k - 1, ..., 1` pushed on it in that order. */
  function PushDown(w: Tower, k: nat): Tower
    decreases k
  {
    if k == 0 then w else PushDown(Push(w, k), k - 1)
  }

  /** Disks `n, n - 1, ..., 1` on an empty peg. */
  function Stack(n: nat): Tower
  {
    PushDown(Empty, n)
  }

  /** `t` with the disks `k..1` stacked on top of peg `p`. */
  function Put(t: Towers, p: Peg, k: nat): Towers
  {
    Set(t, p, PushDown(Get(t, p), k))
  }

  /** Two tower sets that agree on every peg are the same. */
  lemma SameTowers(a: Towers, b: Towers)
    requires forall p :: Get(a, p) == Get(b, p)
    ensures a == b
  {
    assert Get(a, A1) == Get(b, A1) && Get(a, A2) == Get(b, A2) && Get(a, A3) == Get(b, A3);
    assert Get(a, Dest) == Get(b, Dest) && Get(a, Start) == Get(b, Start);
  }

  /** A tower that is empty or has a disk bigger than `k` on top. */
  predicate Clear(w: Tower, k: int)
  {
    w.Empty? || w.top > k
  }

  /** No peg has a disk of size `k` or less on top. */
  predicate TopsAbove(t: Towers, k: int)
  {
    Clear(Get(t, A1), k) && Clear(Get(t, A2), k) && Clear(Get(t, A3), k) && Clear(Get(t, Dest), k)
    && Clear(Get(t, Start), k)
  }

  /** What `TopsAbove` says about a peg given by name. */
  lemma ClearAt(t: Towers, k: int, p: Peg)
    requires TopsAbove(t, k)
    ensures Clear(Get(t, p), k)
  {
  }

  /** The disks of one tower. */
  function Bag(w: Tower): multiset<int>
  {
    match w
    case Empty => multiset{}
    case Push(below, x) => Bag(below) + multiset{x}
  }

  /** The disks on all pegs together. */
  function Contents(t: Towers): multiset<int>
  {
    Bag(Get(t, A1)) + Bag(Get(t, A2)) + Bag(Get(t, A3)) + Bag(Get(t, Dest)) + Bag(Get(t, Start))
  }

  /** Every disk sits on a bigger one (or on the floor). */
  predicate Decreasing(w: Tower)
  {
    match w
    case Empty => true
    case Push(below, x) => Clear(below, x) && Decreasing(below)
  }

  /** A legal position: every tower strictly decreasing bottom to top, no disk twice. */
  ghost predicate Valid(t: Towers)
  {
    (forall p :: Decreasing(Get(t, p))) && (forall x :: Contents(t)[x] <= 1)
  }

  /** The towers the constructor builds for `n` disks. */
  function InitialTowers(n: nat): Towers
  {
    Towers(Empty, Empty, Empty, Empty, Stack(n))
  }

  /** The towers `startToDest(n)` is meant to leave: everything on Dest. */
  function FinalTowers(n: nat): Towers
  {
    Towers(Empty, Empty, Empty, Stack(n), Empty)
  }

  /**
   * The constructor: an empty tower per graph peg, then `n, n - 1, ..., 1`
   * pushed onto Start (nothing when `n <= 0`), and no moves yet.
   */
  method NewSolver(n: int) returns (s: Solver)
    ensures s.moveCount == 0 && s.towers == InitialTowers(if n > 0 then n else 0)
    ensures forall p :: p != Start ==> Get(s.towers, p) == Empty
    ensures |Disks(Get(s.towers, Start))| == (if n > 0 then n else 0)
    ensures forall i :: 0 <= i < |Disks(Get(s.towers, Start))| ==> Disks(Get(s.towers, Start))[i] == n - i
  {
    var towers := InitialTowers(0);
    var i := n;
    while i > 0
      invariant n > 0 ==> 0 <= i && PushDown(Get(towers, Start), i) == Stack(n)
      invariant n <= 0 ==> towers == InitialTowers(0)
      invariant forall p :: p != Start ==> Get(towers, p) == Empty
    {
      towers := Set(towers, Start, Push(Get(towers, Start), i));
      i := i - 1;
    }
    s := Solver(towers, 0);
    var size := if n > 0 then n else 0;
    SameTowers(towers, InitialTowers(size));
    StackDisks(size);
  }

  /** `Stack(n)` read as the source's vector is `n, n - 1, ..., 1`, bottom first. */
  lemma StackDisks(n: nat)
    ensures |Disks(Stack(n))| == n && forall i :: 0 <= i < n ==> Disks(Stack(n))[i] == n - i
  {
    PushDownDisks(Empty, n);
  }

  /** Pushing `k..1` appends `k, ..., 1` to the vector. */
  lemma {:induction false} PushDownDisks(w: Tower, k: nat)
    ensures |Disks(PushDown(w, k))| == |Disks(w)| + k
    ensures forall j :: 0 <= j < |Disks(w)| ==> Disks(PushDown(w, k))[j] == Disks(w)[j]
    ensures forall j :: |Disks(w)| <= j < |Disks(w)| + k ==> Disks(PushDown(w, k))[j] == |Disks(w)| + k - j
    decreases k
  {
    if k > 0 {
      var w' := Push(w, k);
      PushDownDisks(w', k - 1);
      assert PushDown(w, k) == PushDown(w', k - 1);
      assert Disks(w') == Disks(w) + [k];
    }
  }

  /** Pushing `k..1` onto a tower adds one each of `1..k` to its disks. */
  lemma {:induction false} PushDownContents(w: Tower, k: nat)
    ensures forall x :: Bag(PushDown(w, k))[x] == Bag(w)[x] + (if 1 <= x <= k then 1 else 0)
    decreases k
  {
    if k > 0 {
      var w' := Push(w, k);
      PushDownContents(w', k - 1);
      assert PushDown(w, k) == PushDown(w', k - 1);
      forall x ensures Bag(w')[x] == Bag(w)[x] + (if x == k then 1 else 0) {
        assert Bag(w')[x] == Bag(w)[x] + multiset{k}[x];
      }
    }
  }

  /** Pushing `k..1` onto a decreasing tower whose top is bigger than `k` keeps it decreasing. */
  lemma {:induction false} PushDownDecreasing(w: Tower, k: nat)
    requires Decreasing(w) && Clear(w, k)
    ensures Decreasing(PushDown(w, k))
    decreases k
  {
    if k > 0 {
      PushDownDecreasing(Push(w, k), k - 1);
    }
  }

  /** `Stack(n)` is decreasing and holds each of `1..n` once. */
  lemma StackValid(n: nat)
    ensures Decreasing(Stack(n))
    ensures forall x :: Bag(Stack(n))[x] == (if 1 <= x <= n then 1 else 0)
  {
    PushDownDecreasing(Empty, n);
    PushDownContents(Empty, n);
  }

  /** The starting position is legal and holds exactly the disks `1..n`. */
  lemma InitialValid(n: nat)
    ensures Valid(InitialTowers(n))
    ensures forall x :: Contents(InitialTowers(n))[x] == (if 1 <= x <= n then 1 else 0)
  {
    StackValid(n);
    assert Contents(InitialTowers(n)) == Bag(Stack(n));
  }

  // ---------------------------------------------------------------------------
  // Moving one disk.
  // ---------------------------------------------------------------------------

  /**
   * `moveDisk(src, dst)`: an empty source throws; otherwise the top disk is
   * popped, and then it is either pushed onto `dst` with `moveCount`
   * increased by one, or, when `dst`'s top is smaller, a fault is thrown with
   * the disk already gone from `src`.
   */
  function MoveDisk(s: Solver, src: Peg, dst: Peg): (r: Result<Solver, Fault>)
  {
    match Get(s.towers, src)
    case Empty => Failure(EmptyTower(src))
    case Push(below, disk) =>
      var left := Set(s.towers, src, below);
      var onto := Get(left, dst);
      if onto.Push? && onto.top < disk then Failure(SmallerDisk(disk, onto.top, left))
      else Success(Solver(Set(left, dst, Push(onto, disk)), s.moveCount + 1))
  }

  /**
   * The faults of `moveDisk` whatever the position: the empty-tower fault
   * exactly when the source is empty; the smaller-disk fault names the
   * source's top disk and a smaller top on `dst`, and carries the towers with
   * that disk already popped off the source.
   */
  lemma MoveDiskFaults(s: Solver, src: Peg, dst: Peg)
    ensures MoveDisk(s, src, dst) == Failure(EmptyTower(src)) <==> Get(s.towers, src).Empty?
    ensures var r := MoveDisk(s, src, dst);
      r.Failure? && r.error.SmallerDisk? ==>
        && Get(s.towers, src).Push? && r.error.disk == Get(s.towers, src).top
        && r.error.left == Set(s.towers, src, Get(s.towers, src).below)
        && Get(r.error.left, dst).Push? && r.error.onto == Get(r.error.left, dst).top < r.error.disk
  {
  }

  /**
   * On a legal position and distinct pegs, `moveDisk` succeeds exactly when
   * the source has a disk smaller than the target's top (or the target is
   * empty); it then takes that one disk off the source, puts it on the
   * target, leaves the other pegs alone and counts one move.
   */
  lemma MoveDiskSpec(s: Solver, src: Peg, dst: Peg)
    requires Valid(s.towers) && src != dst
    ensures var r := MoveDisk(s, src, dst);
      var a, b := Get(s.towers, src), Get(s.towers, dst);
      && (r.Success? <==> a.Push? && Clear(b, a.top))
      && (r.Success? ==>
           && r.value.moveCount == s.moveCount + 1
           && Get(r.value.towers, src) == a.below
           && Get(r.value.towers, dst) == Push(b, a.top)
           && forall p :: p != src && p != dst ==> Get(r.value.towers, p) == Get(s.towers, p))
  {
    var a, b := Get(s.towers, src), Get(s.towers, dst);
    if a.Push? && b.Push? {
      DistinctTops(s.towers, src, dst);
    }
  }

  /** Replacing one tower replaces its share of the contents. */
  lemma ContentsSet(t: Towers, p: Peg, w: Tower)
    ensures forall x :: Contents(Set(t, p, w))[x] + Bag(Get(t, p))[x] == Contents(t)[x] + Bag(w)[x]
  {
    match p
    case A1 => case A2 => case A3 => case Dest => case Start =>
  }

  /** Two different pegs together hold no more of any disk than the whole position. */
  lemma TwoPegs(t: Towers, p: Peg, q: Peg)
    requires p != q
    ensures forall x :: Bag(Get(t, p))[x] + Bag(Get(t, q))[x] <= Contents(t)[x]
  {
    var t1 := Set(t, p, Empty);
    assert Get(t1, q) == Get(t, q);
    ContentsSet(t, p, Empty);
    ContentsSet(t1, q, Empty);
  }

  /** The tops of two different non-empty towers of a legal position differ. */
  lemma DistinctTops(t: Towers, p: Peg, q: Peg)
    requires Valid(t) && p != q && Get(t, p).Push? && Get(t, q).Push?
    ensures Get(t, p).top != Get(t, q).top
  {
    TwoPegs(t, p, q);
    assert Get(t, p).top in Bag(Get(t, p));
    assert Get(t, q).top in Bag(Get(t, q));
  }

  /** A successful move keeps the position legal and the set of disks the same. */
  lemma MovePreservesValid(s: Solver, src: Peg, dst: Peg)
    requires Valid(s.towers) && MoveDisk(s, src, dst).Success?
    ensures Valid(MoveDisk(s, src, dst).value.towers)
    ensures Contents(MoveDisk(s, src, dst).value.towers) == Contents(s.towers)
  {
    var t := s.towers;
    var a := Get(t, src);
    var left := Set(t, src, a.below);
    var b := Get(left, dst);
    var t' := Set(left, dst, Push(b, a.top));
    assert MoveDisk(s, src, dst).value.towers == t';
    if src == dst {
      SameTowers(t', t);
    } else {
      assert Get(t, dst) == b;
      MovedValid(t, src, dst, t');
    }
  }

  /** A legal move between different pegs keeps the position legal and the disks the same. */
  lemma MovedValid(t: Towers, src: Peg, dst: Peg, t': Towers)
    requires Valid(t) && src != dst && Get(t, src).Push? && !(Get(t, dst).Push? && Get(t, dst).top < Get(t, src).top)
    requires t' == Set(Set(t, src, Get(t, src).below), dst, Push(Get(t, dst), Get(t, src).top))
    ensures Valid(t') && Contents(t') == Contents(t)
  {
    if Get(t, dst).Push? {
      DistinctTops(t, src, dst);
    }
    MovedContents(t, src, dst, t');
    MovedDecreasing(t, src, dst, t');
    SameContents(t, t');
  }

  /** A position with decreasing towers and the same disks as a legal one is legal. */
  lemma SameContents(t: Towers, t': Towers)
    requires Valid(t) && (forall p :: Decreasing(Get(t', p))) && forall y :: Contents(t')[y] == Contents(t)[y]
    ensures Valid(t') && Contents(t') == Contents(t)
  {
    var c, c' := Contents(t), Contents(t');
    assert forall y :: c'[y] == c[y];
    assert c' == c;
  }

  /** Taking the top disk off one peg and pushing it on another keeps the disks. */
  lemma MovedContents(t: Towers, src: Peg, dst: Peg, t': Towers)
    requires src != dst && Get(t, src).Push?
    requires t' == Set(Set(t, src, Get(t, src).below), dst, Push(Get(t, dst), Get(t, src).top))
    ensures forall y :: Contents(t')[y] == Contents(t)[y]
  {
    var a, b := Get(t, src), Get(t, dst);
    var left := Set(t, src, a.below);
    assert Get(left, dst) == b;
    ContentsSet(t, src, a.below);
    ContentsSet(left, dst, Push(b, a.top));
    forall y ensures Contents(t')[y] == Contents(t)[y] {
      var one := if y == a.top then 1 else 0;
      assert Bag(Push(b, a.top))[y] == Bag(b)[y] + one;
      assert Bag(a)[y] == Bag(a.below)[y] + one;
    }
  }

  /** The same move onto a bigger top keeps every tower decreasing. */
  lemma MovedDecreasing(t: Towers, src: Peg, dst: Peg, t': Towers)
    requires src != dst && Get(t, src).Push? && forall p :: Decreasing(Get(t, p))
    requires Clear(Get(t, dst), Get(t, src).top)
    requires t' == Set(Set(t, src, Get(t, src).below), dst, Push(Get(t, dst), Get(t, src).top))
    ensures forall p :: Decreasing(Get(t', p))
  {
    forall p ensures Decreasing(Get(t', p)) {
      assert Decreasing(Get(t, p));
    }
  }

  // ---------------------------------------------------------------------------
  // The recursive solver.
  // ---------------------------------------------------------------------------

  /**
   * `moveAdjacent(n, src, dst)`: move the top `n` disks of `src` to its
   * neighbour `dst`, parking the top `n - 1` on `aux`, the smallest neighbour
   * of `dst` other than `src`.
   */
  function MoveAdjacent(n: nat, src: Peg, dst: Peg, s: Solver): (r: Result<Solver, Fault>)
        decreases n, 1
  {
    if n == 0 then Success(s)
    else
      var candidate := Auxiliary(src, dst);
      if candidate.None? then Failure(NoAuxiliary(src, dst))
      else
        var aux := candidate.value;
        match MoveNonAdjacent(n - 1, src, aux, s)
        case Failure(e) => Failure(e)
        case Success(s1) =>
          match MoveDisk(s1, src, dst)
          case Failure(e) => Failure(e)
          case Success(s2) => MoveAdjacent(n - 1, aux, dst, s2)
  }

  /**
   * `moveNonAdjacent(n, src, dst)`: move the top `n` disks of `src` to `dst`
   * in two adjacent hops via the smallest common neighbour.
   */
  function MoveNonAdjacent(n: nat, src: Peg, dst: Peg, s: Solver): (r: Result<Solver, Fault>)
        decreases n, 2
  {
    if n == 0 then Success(s)
    else
      var common := Intermediate(src, dst);
      if common.None? then Failure(NoPath(src, dst))
      else
        var inter := common.value;
        match MoveAdjacent(n, src, inter, s)
        case Failure(e) => Failure(e)
        case Success(s1) => MoveAdjacent(n, inter, dst, s1)
  }

  /**
   * `startToDest(n)`: move the top `n - 1` disks of Start to Dest, then on
   * to A3, carry disk `n` over Start - A1 - Dest, and bring the `n - 1`
   * disks back from A3 onto it.
   */
  function StartToDest(n: nat, s: Solver): (r: Result<Solver, Fault>)
      {
    if n == 0 then Success(s)
    else
      match StartToDest(n - 1, s)
      case Failure(e) => Failure(e)
      case Success(s1) =>
        match MoveNonAdjacent(n - 1, Dest, A3, s1)
        case Failure(e) => Failure(e)
        case Success(s2) =>
          match MoveDisk(s2, Start, A1)
          case Failure(e) => Failure(e)
          case Success(s3) =>
            match MoveDisk(s3, A1, Dest)
            case Failure(e) => Failure(e)
            case Success(s4) => MoveNonAdjacent(n - 1, A3, Dest, s4)
  }

  function Pow3(n: nat): (p: nat)
    ensures p >= 1
  {
    if n == 0 then 1 else 3 * Pow3(n - 1)
  }

  /** Moves made by `moveAdjacent(k, ...)`: `(3^k - 1) / 2`. */
  function AdjacentCount(k: nat): (c: nat)
    ensures 2 * c + 1 == Pow3(k)
  {
    if k == 0 then 0 else 3 * AdjacentCount(k - 1) + 1
  }

  /** A run of `moveAdjacent` with `k` disks takes the counter from `m` to `m'`. */
  predicate AdjacentRun(k: nat, m: nat, m': nat)
  {
    m' == m + AdjacentCount(k)
  }

  /** A run of `moveNonAdjacent` with `k` disks takes the counter from `m` to `m'`. */
  predicate NonAdjacentRun(k: nat, m: nat, m': nat)
  {
    m' == m + 2 * AdjacentCount(k)
  }

  /** A run of `startToDest` with `k` disks takes the counter from `m` to `m'`. */
  predicate StartToDestRun(k: nat, m: nat, m': nat)
  {
    m' == m + Pow3(k) - 1
  }

  // ---------------------------------------------------------------------------
  // Why the solver never throws on its own calls.
  // ---------------------------------------------------------------------------

  /**
   * The peg choices stay inside the part of the graph where they work: an
   * edge into a peg other than Start has an auxiliary, which is not Start
   * and has a common neighbour (`dst`) with the source.
   */
  lemma AuxiliaryFacts(src: Peg, dst: Peg)
    requires src in Neighbours(dst) && dst != Start
    ensures Auxiliary(src, dst).Some?
    ensures Auxiliary(src, dst).value != Start && Auxiliary(src, dst).value != src
    ensures Auxiliary(src, dst).value != dst && Auxiliary(src, dst).value in Neighbours(dst)
    ensures dst in Neighbours(src) && dst in Neighbours(Auxiliary(src, dst).value)
  {
  }

  /**
   * Two pegs with a common neighbour, the second not Start, get an
   * intermediate peg other than Start, adjacent to both.
   */
  lemma IntermediateFacts(src: Peg, dst: Peg)
    requires Neighbours(src) * Neighbours(dst) != {} && dst != Start
    ensures Intermediate(src, dst).Some?
    ensures Intermediate(src, dst).value != Start
    ensures src in Neighbours(Intermediate(src, dst).value) && Intermediate(src, dst).value in Neighbours(dst)
  {
    var inter := Intermediate(src, dst).value;
    Undirected(src, inter);
  }

  /** `moveAdjacent` with `n > 0` as its three steps. */
  lemma AdjacentUnfold(n: nat, src: Peg, dst: Peg, aux: Peg, s0: Solver, s1: Solver, s2: Solver)
    requires n > 0 && Auxiliary(src, dst) == Some(aux)
    requires MoveNonAdjacent(n - 1, src, aux, s0) == Success(s1) && MoveDisk(s1, src, dst) == Success(s2)
    ensures MoveAdjacent(n, src, dst, s0) == MoveAdjacent(n - 1, aux, dst, s2)
  {
  }

  /** `moveNonAdjacent` with `n > 0` as its two hops. */
  lemma NonAdjacentUnfold(n: nat, src: Peg, dst: Peg, inter: Peg, s0: Solver, s1: Solver)
    requires n > 0 && Intermediate(src, dst) == Some(inter) && MoveAdjacent(n, src, inter, s0) == Success(s1)
    ensures MoveNonAdjacent(n, src, dst, s0) == MoveAdjacent(n, inter, dst, s1)
  {
  }

  /** `startToDest` with `n > 0` as its five steps. */
  lemma StartToDestUnfold(n: nat, s0: Solver, s1: Solver, s2: Solver, s3: Solver, s4: Solver)
    requires n > 0 && StartToDest(n - 1, s0) == Success(s1) && MoveNonAdjacent(n - 1, Dest, A3, s1) == Success(s2)
    requires MoveDisk(s2, Start, A1) == Success(s3) && MoveDisk(s3, A1, Dest) == Success(s4)
    ensures StartToDest(n, s0) == MoveNonAdjacent(n - 1, A3, Dest, s4)
  {
  }

  lemma AboveStep(t: Towers, p: Peg, k: nat)
    requires k > 0 && TopsAbove(t, k)
    ensures TopsAbove(Set(t, p, Push(Get(t, p), k)), k - 1)
  {
    match p
    case A1 => case A2 => case A3 => case Dest => case Start =>
  }

  /** Stacking `k..1` is stacking `k` and then `k - 1..1`. */
  lemma PutStep(t: Towers, p: Peg, k: nat)
    requires k > 0
    ensures Put(t, p, k) == Put(Set(t, p, Push(Get(t, p), k)), p, k - 1)
  {
    match p
    case A1 => case A2 => case A3 => case Dest => case Start =>
  }

  /** Moving the top disk `x` from one peg to another when nothing smaller is in its way. */
  lemma MoveTop(u: Towers, src: Peg, dst: Peg, rest: Tower, x: int, m: nat, m': nat)
    requires src != dst && Get(u, src) == Push(rest, x) && m' == m + 1 && Clear(Get(u, dst), x)
    ensures MoveDisk(Solver(u, m), src, dst) == Success(Solver(Set(Set(u, src, rest), dst, Push(Get(u, dst), x)), m'))
  {
  }

  /**
   * The position after moving the top disk `k` from `src` to `dst` while
   * `k - 1..1` sit on a third peg `aux`.
   */
  lemma MoveUnder(t: Towers, src: Peg, dst: Peg, aux: Peg, k: nat, u: Towers)
    requires src != dst && aux != src && aux != dst && k > 0
    requires u == Put(Set(t, src, Push(Get(t, src), k)), aux, k - 1)
    ensures Set(Set(u, src, Get(t, src)), dst, Push(Get(u, dst), k)) == Put(Set(t, dst, Push(Get(t, dst), k)), aux, k - 1)
  {
    SameTowers(Set(Set(u, src, Get(t, src)), dst, Push(Get(u, dst), k)), Put(Set(t, dst, Push(Get(t, dst), k)), aux, k - 1));
  }

  /**
   * `moveAdjacent(k, src, dst)` along an edge into a peg other than Start,
   * with disks `k..1` on top of `src` and only bigger disks anywhere else,
   * carries those `k` disks onto `dst` in `(3^k - 1) / 2` moves and throws
   * nothing: the move counter goes from `m` to `m'`.
   */
  lemma {:induction false} AdjacentMoves(k: nat, src: Peg, dst: Peg, t: Towers, m: nat, m': nat)
    requires TopsAbove(t, k) && src in Neighbours(dst) && dst != Start && AdjacentRun(k, m, m')
    ensures MoveAdjacent(k, src, dst, Solver(Put(t, src, k), m)) == Success(Solver(Put(t, dst, k), m'))
    decreases k, 2
  {
    if k == 0 {
      PutNone(t, src);
      PutNone(t, dst);
    } else {
      AuxiliaryFacts(src, dst);
      var aux := Auxiliary(src, dst).value;
      assert dst in Neighbours(src) * Neighbours(aux);
      AdjacentSteps(k, src, dst, aux, t, m, m');
    }
  }

  /**
   * The three steps of `moveAdjacent(k, src, dst)` for `k > 0`, once the
   * auxiliary peg is known: `k - 1` disks out of the way onto `aux`, disk
   * `k` across the edge, the `k - 1` disks back on top of it.
   */
  lemma {:induction false} AdjacentSteps(k: nat, src: Peg, dst: Peg, aux: Peg, t: Towers, m: nat, m': nat)
    requires k > 0 && TopsAbove(t, k) && AdjacentRun(k, m, m')
    requires Auxiliary(src, dst) == Some(aux) && aux != src && aux != dst && src != dst
    requires dst != Start && aux != Start && Neighbours(src) * Neighbours(aux) != {} && aux in Neighbours(dst)
    ensures MoveAdjacent(k, src, dst, Solver(Put(t, src, k), m)) == Success(Solver(Put(t, dst, k), m'))
    decreases k, 1
  {
    var m1 := m + 2 * AdjacentCount(k - 1);
    var m2 := m1 + 1;
    var t1 := Set(t, src, Push(Get(t, src), k));
    var t2 := Set(t, dst, Push(Get(t, dst), k));
    ThreeStepPositions(t, src, dst, k, t1, t2);
    assert NonAdjacentRun(k - 1, m, m1);
    NonAdjacentMoves(k - 1, src, aux, t1, m, m1);
    AdjacentTail(k, src, dst, aux, t, t1, t2, m, m1, m2, m');
    AdjacentUnfold(k, src, dst, aux, Solver(Put(t1, src, k - 1), m), Solver(Put(t1, aux, k - 1), m1), Solver(Put(t2, aux, k - 1), m2));
  }

  /**
   * The last two steps of `moveAdjacent(k, src, dst)`: with `k - 1..1`
   * parked on `aux`, disk `k` crosses to `dst` and the `k - 1` disks follow.
   */
  lemma {:induction false} AdjacentTail(k: nat, src: Peg, dst: Peg, aux: Peg, t: Towers, t1: Towers, t2: Towers,
                                        m: nat, m1: nat, m2: nat, m': nat)
    requires k > 0 && TopsAbove(t, k) && aux != src && aux != dst && src != dst
    requires dst != Start && aux in Neighbours(dst)
    requires t1 == Set(t, src, Push(Get(t, src), k)) && t2 == Set(t, dst, Push(Get(t, dst), k))
    requires AdjacentRun(k, m, m') && m1 == m + 2 * AdjacentCount(k - 1) && m2 == m1 + 1
    ensures MoveDisk(Solver(Put(t1, aux, k - 1), m1), src, dst) == Success(Solver(Put(t2, aux, k - 1), m2))
    ensures MoveAdjacent(k - 1, aux, dst, Solver(Put(t2, aux, k - 1), m2)) == Success(Solver(Put(t, dst, k), m'))
    decreases k, 0
  {
    ThreeStepPositions(t, src, dst, k, t1, t2);
    assert AdjacentRun(k - 1, m2, m');
    CrossMove(t, src, dst, aux, k, t1, t2, Put(t1, aux, k - 1), m1, m2);
    AdjacentMoves(k - 1, aux, dst, t2, m2, m');
  }

  /**
   * The positions before and after the three-step pattern that carries disk
   * `k` from `src` to `dst`: `k..1` on `src` is disk `k` with `k - 1..1` on
   * top, and likewise on `dst`, with nothing smaller than `k` anywhere else.
   */
  lemma ThreeStepPositions(t: Towers, src: Peg, dst: Peg, k: nat, t1: Towers, t2: Towers)
    requires k > 0 && TopsAbove(t, k)
    requires t1 == Set(t, src, Push(Get(t, src), k)) && t2 == Set(t, dst, Push(Get(t, dst), k))
    ensures Put(t, src, k) == Put(t1, src, k - 1) && TopsAbove(t1, k - 1)
    ensures Put(t, dst, k) == Put(t2, dst, k - 1) && TopsAbove(t2, k - 1)
  {
    PutStep(t, src, k);
    PutStep(t, dst, k);
    AboveStep(t, src, k);
    AboveStep(t, dst, k);
  }

  /**
   * The middle step of the pattern: with `k - 1..1` parked on `aux`, disk
   * `k` moves from `src` to `dst` without a fault.
   */
  lemma CrossMove(t: Towers, src: Peg, dst: Peg, aux: Peg, k: nat, t1: Towers, t2: Towers, u: Towers, m: nat, m': nat)
    requires k > 0 && TopsAbove(t, k) && aux != src && aux != dst && src != dst && m' == m + 1
    requires t1 == Set(t, src, Push(Get(t, src), k)) && t2 == Set(t, dst, Push(Get(t, dst), k)) && u == Put(t1, aux, k - 1)
    ensures MoveDisk(Solver(u, m), src, dst) == Success(Solver(Put(t2, aux, k - 1), m'))
  {
    ClearAt(t, k, dst);
    assert Get(t1, dst) == Get(t, dst);
    assert Get(u, dst) == Get(t1, dst);
    assert Clear(Get(u, dst), k);
    assert Get(u, src) == Push(Get(t, src), k);
    MoveUnder(t, src, dst, aux, k, u);
    MoveTop(u, src, dst, Get(t, src), k, m, m');
  }

  /** Stacking no disks changes nothing. */
  lemma PutNone(t: Towers, p: Peg)
    ensures Put(t, p, 0) == t
  {
    SameTowers(Put(t, p, 0), t);
  }

  /**
   * `moveNonAdjacent(k, src, dst)` between pegs with a common neighbour,
   * into a peg other than Start, under the same conditions carries the top
   * `k` disks onto `dst` in `3^k - 1` moves and throws nothing.
   */
  lemma {:induction false} NonAdjacentMoves(k: nat, src: Peg, dst: Peg, t: Towers, m: nat, m': nat)
    requires TopsAbove(t, k) && Neighbours(src) * Neighbours(dst) != {} && dst != Start
    requires NonAdjacentRun(k, m, m')
    ensures MoveNonAdjacent(k, src, dst, Solver(Put(t, src, k), m)) == Success(Solver(Put(t, dst, k), m'))
    decreases k, 3
  {
    if k == 0 {
      PutNone(t, src);
      PutNone(t, dst);
    } else {
      IntermediateFacts(src, dst);
      var inter := Intermediate(src, dst).value;
      var m1 := m + AdjacentCount(k);
      AdjacentMoves(k, src, inter, t, m, m1);
      AdjacentMoves(k, inter, dst, t, m1, m');
      NonAdjacentUnfold(k, src, dst, inter, Solver(Put(t, src, k), m), Solver(Put(t, inter, k), m1));
    }
  }

  /**
   * `startToDest(k)` with disks `k..1` on top of Start and only bigger disks
   * anywhere else carries them onto Dest in `3^k - 1` moves and throws nothing.
   */
  lemma {:induction false} StartToDestMoves(k: nat, t: Towers, m: nat, m': nat)
    requires TopsAbove(t, k) && StartToDestRun(k, m, m')
    ensures StartToDest(k, Solver(Put(t, Start, k), m)) == Success(Solver(Put(t, Dest, k), m'))
  {
    if k == 0 {
      PutNone(t, Start);
      PutNone(t, Dest);
    } else {
      var a := AdjacentCount(k - 1);
      var m1 := m + Pow3(k - 1) - 1;
      var m2 := m1 + 2 * a;
      var m3 := m2 + 1;
      var m4 := m3 + 1;
      var t1 := Set(t, Start, Push(Get(t, Start), k));
      var t3 := Set(t, A1, Push(Get(t, A1), k));
      var t4 := Set(t, Dest, Push(Get(t, Dest), k));
      ThreeStepPositions(t, Start, A1, k, t1, t3);
      assert A1 in Neighbours(Dest) * Neighbours(A3);
      assert StartToDestRun(k - 1, m, m1);
      assert NonAdjacentRun(k - 1, m1, m2);
      assert NonAdjacentRun(k - 1, m4, m');
      StartToDestMoves(k - 1, t1, m, m1);
      NonAdjacentMoves(k - 1, Dest, A3, t1, m1, m2);
      StartToDestTail(k, t, t1, t3, t4, m2, m3, m4, m');
      StartToDestUnfold(k, Solver(Put(t1, Start, k - 1), m), Solver(Put(t1, Dest, k - 1), m1),
                        Solver(Put(t1, A3, k - 1), m2), Solver(Put(t3, A3, k - 1), m3), Solver(Put(t4, A3, k - 1), m4));
    }
  }

  /**
   * The last three steps of `startToDest(k)`: with `k - 1..1` parked on A3,
   * disk `k` goes Start - A1 - Dest and the `k - 1` disks follow it onto Dest.
   */
  lemma StartToDestTail(k: nat, t: Towers, t1: Towers, t3: Towers, t4: Towers, m2: nat, m3: nat, m4: nat, m': nat)
    requires k > 0 && TopsAbove(t, k)
    requires t1 == Set(t, Start, Push(Get(t, Start), k)) && t3 == Set(t, A1, Push(Get(t, A1), k))
    requires t4 == Set(t, Dest, Push(Get(t, Dest), k))
    requires m3 == m2 + 1 && m4 == m3 + 1 && NonAdjacentRun(k - 1, m4, m')
    ensures MoveDisk(Solver(Put(t1, A3, k - 1), m2), Start, A1) == Success(Solver(Put(t3, A3, k - 1), m3))
    ensures MoveDisk(Solver(Put(t3, A3, k - 1), m3), A1, Dest) == Success(Solver(Put(t4, A3, k - 1), m4))
    ensures MoveNonAdjacent(k - 1, A3, Dest, Solver(Put(t4, A3, k - 1), m4)) == Success(Solver(Put(t, Dest, k), m'))
  {
    ThreeStepPositions(t, A1, Dest, k, t3, t4);
    CrossMove(t, Start, A1, A3, k, t1, t3, Put(t1, A3, k - 1), m2, m3);
    CrossMove(t, A1, Dest, A3, k, t3, t4, Put(t3, A3, k - 1), m3, m4);
    assert A1 in Neighbours(A3) * Neighbours(Dest);
    NonAdjacentMoves(k - 1, A3, Dest, t4, m4, m');
  }

  /**
   * `solve()` on a fresh solver for `n` disks: no fault, all `n` disks end
   * on Dest in order, every other peg is empty, and `3^n - 1` moves were made.
   */
  method Solve(n: nat) returns (r: Result<Solver, Fault>)
    ensures r == Success(Solver(FinalTowers(n), Pow3(n) - 1))
    ensures Valid(r.value.towers)
    ensures forall p :: p != Dest ==> Get(r.value.towers, p) == Empty
    ensures |Disks(Get(r.value.towers, Dest))| == n
    ensures forall i :: 0 <= i < n ==> Disks(Get(r.value.towers, Dest))[i] == n - i
  {
    var s := NewSolver(n);
    var empty := InitialTowers(0);
    assert s.towers == Put(empty, Start, n);
    StartToDestMoves(n, empty, 0, Pow3(n) - 1);
    assert Put(empty, Dest, n) == FinalTowers(n);
    r := StartToDest(n, s);
    FinalValid(n);
    StackDisks(n);
  }

  /** The final position is legal. */
  lemma FinalValid(n: nat)
    ensures Valid(FinalTowers(n))
  {
    StackValid(n);
    assert Contents(FinalTowers(n)) == Bag(Stack(n));
  }
}
