/**
  The intersection of kern/asst1/stoplight.c: cars as sequences of P and V on four region semaphores.

  A car is here from the moment the admission gate has let it in.  The gate itself is not modelled:
  how many cars are in at once is a hypothesis of the liveness theorems.
 */
module Stoplight {
  /** The regions NW, NE, SE, SW are 0 to 3, as are the directions N, E, S, W. */
  type Quarter = q: nat | q < 4

  datatype Turn = Right | Straight | Left

  /** Down is P and Up is V on a region's semaphore. */
  datatype Stmt = Down(r: Quarter) | Up(r: Quarter)

  datatype Car = Car(turn: Turn, dir: Quarter, pc: nat)

  function Prev(r: Quarter): Quarter { (r + 3) % 4 }

  /** The statements of turnright, gostraight and turnleft for a car coming from d. */
  function Script(turn: Turn, d: Quarter): seq<Stmt> {
    var e := Prev(d);
    var f := Prev(e);
    match turn
    case Right => [Down(d), Up(d)]
    case Straight => [Down(d), Down(e), Up(d), Up(e)]
    case Left => [Down(d), Down(e), Up(d), Down(f), Up(e), Up(f)]
  }

  /** The case distinction of approachintersection. */
  function TurnOf(dir: Quarter, dest: Quarter): Turn {
    var diff := dir - dest;
    if diff == 1 || diff == -3 then Right else if diff == 2 || diff == -2 then Straight else Left
  }

  /** A car enters by its own quarter and leaves by the quarter of its destination. */
  lemma RouteLeads(dir: Quarter, dest: Quarter)
    requires dir != dest
    ensures var s := Script(TurnOf(dir, dest), dir); s[0] == Down(dir) && s[|s| - 1] == Up((dest + 1) % 4)
  {
  }

  /** The regions a car is in after the statements ss: those it has entered and not left. */
  function In(ss: seq<Stmt>): set<Quarter> {
    if ss == [] then {}
    else var before := In(ss[..|ss| - 1]);
      match ss[|ss| - 1]
      case Down(r) => before + {r}
      case Up(r) => before - {r}
  }

  /** The regions a car enters, in order. */
  function Entered(ss: seq<Stmt>): seq<Quarter> {
    if ss == [] then [] else Entered(ss[..|ss| - 1]) + if ss[|ss| - 1].Down? then [ss[|ss| - 1].r] else []
  }

  /**
    A right turn crosses the car's own quarter, straight on that and the one before it, a left turn the
    two before it; on the way the car is always in one region or in two.
   */
  lemma {:induction false} RouteCrosses(turn: Turn, d: Quarter, pc: nat)
    requires pc <= |Script(turn, d)|
    ensures Entered(Script(turn, d)) == if turn == Right then [d] else if turn == Straight then [d, (d + 3) % 4]
                                        else [d, (d + 3) % 4, (d + 2) % 4]
    ensures if 0 < pc < |Script(turn, d)| then 1 <= |In(Script(turn, d)[..pc])| <= 2 else In(Script(turn, d)[..pc]) == {}
  {
    hide In;
    EnteredAll(turn, d);
    HeldIsIn(turn, d, pc);
    HeldCount(turn, d, pc);
  }

  lemma EnteredAll(turn: Turn, d: Quarter)
    ensures Entered(Script(turn, d)) == if turn == Right then [d] else if turn == Straight then [d, (d + 3) % 4]
                                        else [d, (d + 3) % 4, (d + 2) % 4]
  {
    var ss := Script(turn, d);
    for i := 0 to |ss|
      invariant Entered(ss[..i]) == [d, (d + 3) % 4, (d + 2) % 4][..if i == 0 then 0 else if i == 1 || turn == Right then 1
                                                                    else if i < 4 || turn == Straight then 2 else 3]
    {
      assert ss[..i + 1][..i] == ss[..i] && ss[..i + 1][i] == ss[i];
    }
    assert ss[..|ss|] == ss;
  }

  lemma HeldCount(turn: Turn, d: Quarter, pc: nat)
    requires pc <= |Script(turn, d)|
    ensures if 0 < pc < |Script(turn, d)| then 1 <= |Held(turn, d, pc)| <= 2 else Held(turn, d, pc) == {}
  {
  }

  /** The same, written out. */
  function Held(turn: Turn, d: Quarter, pc: nat): set<Quarter> {
    var e := Prev(d);
    if turn == Right then (if pc == 1 then {d} else {})
    else if pc == 1 then {d} else if pc == 2 then {d, e} else if pc == 3 then {e}
    else if turn == Left && pc == 4 then {e, Prev(e)} else if turn == Left && pc == 5 then {Prev(e)} else {}
  }

  predicate Finished(c: Car) { c.pc >= |Script(c.turn, c.dir)| }

  function Next(c: Car): Stmt
    requires !Finished(c)
  {
    Script(c.turn, c.dir)[c.pc]
  }

  lemma {:induction false} HeldIsIn(turn: Turn, d: Quarter, pc: nat)
    requires pc <= |Script(turn, d)|
    ensures In(Script(turn, d)[..pc]) == Held(turn, d, pc)
  {
    if pc > 0 {
      var ss := Script(turn, d);
      assert ss[..pc][..pc - 1] == ss[..pc - 1];
      HeldIsIn(turn, d, pc - 1);
    }
  }

  // ------------------------------------------------------------ the step machine

  datatype State = State(sem: seq<nat>, cars: map<nat, Car>)

  datatype Event = Arrive(c: nat, turn: Turn, dir: Quarter) | Go(c: nat) | Depart(c: nat)

  /** A car can go on unless its next statement is P on a semaphore at zero. */
  predicate CanGo(s: State, c: nat)
    requires |s.sem| == 4
  {
    c in s.cars && !Finished(s.cars[c]) && (Next(s.cars[c]).Down? ==> s.sem[Next(s.cars[c]).r] > 0)
  }

  predicate Enabled(s: State, e: Event)
    requires |s.sem| == 4
  {
    match e
    case Arrive(c, _, _) => c !in s.cars
    case Go(c) => CanGo(s, c)
    case Depart(c) => c in s.cars && Finished(s.cars[c])
  }

  function Step(s: State, e: Event): (s': State)
    requires |s.sem| == 4 && Enabled(s, e)
    ensures |s'.sem| == 4
  {
    match e
    case Arrive(c, turn, dir) => s.(cars := s.cars[c := Car(turn, dir, 0)])
    case Go(c) =>
      var r := Next(s.cars[c]).r;
      State(s.sem[r := if Next(s.cars[c]).Down? then s.sem[r] - 1 else s.sem[r] + 1],
            s.cars[c := s.cars[c].(pc := s.cars[c].pc + 1)])
    case Depart(c) => s.(cars := s.cars - {c})
  }

  /** createcars: the four semaphores start at 1. */
  const INITIAL := State([1, 1, 1, 1], map[])

  function Holds(c: Car): set<Quarter> { Held(c.turn, c.dir, c.pc) }

  /** The cars in region r. */
  function Inside(s: State, r: Quarter): set<nat> {
    set c | c in s.cars && r in Holds(s.cars[c])
  }

  /** Each region is free or holds one car: its semaphore's count and the cars in it add up to one. */
  ghost predicate Exclusive(s: State) {
    |s.sem| == 4 && forall r: Quarter :: s.sem[r] + |Inside(s, r)| == 1
  }

  /** One statement enters or leaves the region it names, and no other. */
  lemma OneStatement(c: Car)
    requires !Finished(c)
    ensures var c' := c.(pc := c.pc + 1);
            if Next(c).Down? then Next(c).r !in Holds(c) && Holds(c') == Holds(c) + {Next(c).r}
            else Next(c).r in Holds(c) && Holds(c') == Holds(c) - {Next(c).r}
  {
  }

  lemma {:induction false} StepExclusive(s: State, e: Event)
    requires Exclusive(s) && Enabled(s, e)
    ensures Exclusive(Step(s, e))
  {
    hide Held, Script;
    var s' := Step(s, e);
    if e.Arrive? { Ends(s'.cars[e.c]); } else { Ends(s.cars[e.c]); }
    forall r: Quarter ensures s'.sem[r] + |Inside(s', r)| == 1 {
      assert s.sem[r] + |Inside(s, r)| == 1;
      if e.Go? {
        GoInside(s, e.c, r);
      } else {
        assert Inside(s', r) == Inside(s, r);
      }
    }
  }

  lemma {:induction false} GoInside(s: State, c: nat, r: Quarter)
    requires |s.sem| == 4 && CanGo(s, c)
    ensures var s', i := Step(s, Go(c)), Next(s.cars[c]);
            if i.r != r then s'.sem[r] == s.sem[r] && Inside(s', r) == Inside(s, r)
            else if i.Down? then s'.sem[r] == s.sem[r] - 1 && c !in Inside(s, r) && Inside(s', r) == Inside(s, r) + {c}
            else s'.sem[r] == s.sem[r] + 1 && c in Inside(s, r) && Inside(s', r) == Inside(s, r) - {c}
  {
    hide Held, Script;
    OneStatement(s.cars[c]);
  }

  lemma Ends(c: Car)
    ensures c.pc == 0 || Finished(c) ==> Holds(c) == {}
  {
  }

  ghost predicate IsRun(ss: seq<State>, es: seq<Event>) {
    && |ss| == |es| + 1
    && (forall i | 0 <= i < |ss| :: |ss[i].sem| == 4)
    && forall i | 0 <= i < |es| :: Enabled(ss[i], es[i]) && ss[i + 1] == Step(ss[i], es[i])
  }

  /** Main result: in every run, with any number of cars, each region's count plus the cars in it is one. */
  lemma {:induction false} EveryRunExclusive(ss: seq<State>, es: seq<Event>, n: nat)
    requires IsRun(ss, es) && ss[0] == INITIAL && n <= |es|
    ensures Exclusive(ss[n])
  {
    hide Step, Enabled;
    if n == 0 {
      assert forall r: Quarter :: Inside(ss[0], r) == {};
    } else {
      EveryRunExclusive(ss, es, n - 1);
      assert Enabled(ss[n - 1], es[n - 1]) && ss[n - 1 + 1] == Step(ss[n - 1], es[n - 1]);
      StepExclusive(ss[n - 1], es[n - 1]);
    }
  }

  // ------------------------------------------------------------ deadlock

  /** Some car has not finished, and none can go on. */
  predicate Stuck(s: State)
    requires |s.sem| == 4
  {
    && (exists c :: c in s.cars && !Finished(s.cars[c]))
    && (forall c | c in s.cars :: !CanGo(s, c))
  }

  /** Car c is in region r alone and waits for the next one. */
  predicate WaitsIn(s: State, c: nat, r: Quarter) {
    c in s.cars && var x := s.cars[c]; !Finished(x) && Holds(x) == {r} && Next(x) == Down(Prev(r))
  }

  /** The four cars of a circular wait, one per region. */
  predicate Circle(s: State, cs: seq<nat>) {
    |cs| == 4 && forall r: Quarter :: WaitsIn(s, cs[r], r)
  }

  /** A car in a region, whose next statement is P, is in that region alone and wants the next; it is not turning right. */
  lemma HolderWants(c: Car, r: Quarter)
    requires !Finished(c) && Next(c).Down? && r in Holds(c)
    ensures Holds(c) == {r} && Next(c) == Down(Prev(r)) && c.turn != Right
  {
  }

  lemma UpInside(s: State, c: nat)
    requires c in s.cars && !Finished(s.cars[c])
    ensures Next(s.cars[c]).Up? ==> c in Inside(s, Next(s.cars[c]).r)
  {
  }

  /** If the car in a region is stuck, so is the car in the region before. */
  lemma {:induction false} Around(s: State, r: Quarter) returns (c: nat)
    requires Exclusive(s) && Stuck(s) && s.sem[r] == 0
    ensures WaitsIn(s, c, r) && s.sem[Prev(r)] == 0
  {
    hide Held, Script;
    assert |Inside(s, r)| == 1;
    assert Inside(s, r) != {};
    c :| c in Inside(s, r);
    var x := s.cars[c];
    Ends(x);
    assert !CanGo(s, c);
    HolderWants(x, r);
  }

  /** Main result: no car can go on exactly when four cars, one in each region, each wait for the next region. */
  lemma {:induction false} StuckHasCircle(s: State) returns (cs: seq<nat>)
    requires Exclusive(s) && Stuck(s)
    ensures Circle(s, cs)
  {
    hide Held, Script, WaitsIn;
    var r := SomeClosed(s);
    var c := Around(s, r);
    var c1 := Around(s, Prev(r));
    var c2 := Around(s, Prev(Prev(r)));
    var c3 := Around(s, Prev(Prev(Prev(r))));
    cs := if r == 0 then [c, c3, c2, c1] else if r == 1 then [c1, c, c3, c2] else if r == 2 then [c2, c1, c, c3] else [c3, c2, c1, c];
  }

  lemma SomeClosed(s: State) returns (r: Quarter)
    requires |s.sem| == 4 && Stuck(s)
    ensures s.sem[r] == 0
  {
    var c :| c in s.cars && !Finished(s.cars[c]);
    assert !CanGo(s, c);
    r := Next(s.cars[c]).r;
  }

  /** Conversely, a circular wait stops every car. */
  lemma {:induction false} CircleIsStuck(s: State, cs: seq<nat>)
    requires Exclusive(s) && Circle(s, cs)
    ensures Stuck(s)
  {
    hide Held, Script;
    forall r: Quarter ensures s.sem[r] == 0 && Inside(s, r) == {cs[r]} {
      assert WaitsIn(s, cs[r], r);
      assert cs[r] in Inside(s, r);
      assert Inside(s, r) == {cs[r]} + (Inside(s, r) - {cs[r]});
    }
    assert WaitsIn(s, cs[0], 0);
    forall r: Quarter ensures !CanGo(s, cs[r]) { assert WaitsIn(s, cs[r], r); }
    forall c | c in s.cars ensures !CanGo(s, c) {
      if !Finished(s.cars[c]) { UpInside(s, c); }
    }
  }

  // ------------------------------------------------------------ liveness

  /** The straight and left-turning cars. */
  function Crossing(s: State): set<nat> { set c | c in s.cars && s.cars[c].turn != Right }

  /** Main result: with at most three straight or left-turning cars in, some car can always go on. */
  lemma {:induction false} ThreeNeverStuck(s: State)
    requires Exclusive(s) && |Crossing(s)| <= 3
    ensures !Stuck(s)
  {
    hide Held, Script;
    if Stuck(s) {
      var cs := StuckHasCircle(s);
      forall r: Quarter ensures cs[r] in Crossing(s) && Holds(s.cars[cs[r]]) == {r} {
        assert WaitsIn(s, cs[r], r);
        HolderWants(s.cars[cs[r]], r);
      }
      FourDistinct(s, cs);
      var four := {cs[0], cs[1], cs[2], cs[3]};
      assert |four| == 4;
      assert four <= Crossing(s);
      Larger(four, Crossing(s));
      assert false;
    }
  }

  lemma FourDistinct(s: State, cs: seq<nat>)
    requires |cs| == 4 && forall r: Quarter :: cs[r] in s.cars && Holds(s.cars[cs[r]]) == {r}
    ensures cs[0] != cs[1] && cs[0] != cs[2] && cs[0] != cs[3] && cs[1] != cs[2] && cs[1] != cs[3] && cs[2] != cs[3]
  {
    forall q: Quarter, r: Quarter | q != r ensures cs[q] != cs[r] {
      assert q in Holds(s.cars[cs[q]]) && q !in Holds(s.cars[cs[r]]);
    }
  }

  lemma Larger(a: set<nat>, b: set<nat>)
    requires a <= b
    ensures |a| <= |b|
  {
    assert b == a + (b - a);
  }

  /** It needs no more than four: from the start, four straight cars can stop each other for good. */
  lemma {:induction false} FourCanStick() returns (ss: seq<State>, es: seq<Event>)
    ensures IsRun(ss, es) && ss[0] == INITIAL && |Crossing(ss[|es|])| == 4 && Stuck(ss[|es|])
  {
    hide CanGo;
    es := seq(8, i requires 0 <= i < 8 => if i < 4 then Arrive(i, Straight, i) else Go(i - 4));
    ss := seq(9, i requires 0 <= i <= 8 => Jam(i));
    assert IsRun(ss, es) by {
      forall i | 0 <= i < 8 ensures Enabled(ss[i], es[i]) && ss[i + 1] == Step(ss[i], es[i]) { JamStep(i); }
    }
    JamStuck();
  }

  /** The first i of four arrivals and four entries. */
  function Jam(i: nat): State
    requires i <= 8
  {
    State(seq(4, r requires 0 <= r < 4 => if r + 4 < i then 0 else 1),
          map c: nat | c < 4 && c < i :: JamCar(c, i))
  }

  function JamCar(c: Quarter, i: nat): Car { Car(Straight, c, if c + 4 < i then 1 else 0) }

  lemma JamStep(i: nat)
    requires i < 8
    ensures var e := if i < 4 then Arrive(i, Straight, i) else Go(i - 4);
            Enabled(Jam(i), e) && Step(Jam(i), e) == Jam(i + 1)
  {
  }

  lemma JamStuck()
    ensures Stuck(Jam(8)) && |Crossing(Jam(8))| == 4
  {
    assert 0 in Jam(8).cars;
    assert Crossing(Jam(8)) == {0, 1, 2, 3};
  }

  // ------------------------------------------------------------ every run drains

  function Todo(c: Car): nat {
    if Finished(c) then 0 else |Script(c.turn, c.dir)| - c.pc
  }

  /** The statements still to be executed by all cars. */
  ghost function AllTodo(cars: map<nat, Car>): nat
    decreases |cars|
  {
    if cars == map[] then 0
    else var c :| c in cars;
      Fewer(cars, c);
      Todo(cars[c]) + AllTodo(cars - {c})
  }

  lemma Fewer(cars: map<nat, Car>, c: nat)
    requires c in cars
    ensures |cars - {c}| < |cars|
  {
    assert (cars - {c}).Keys == cars.Keys - {c};
    assert |cars.Keys| == |cars| && |(cars - {c}).Keys| == |cars - {c}|;
  }

  /** Any car can be counted first. */
  lemma {:induction false} TodoSplit(cars: map<nat, Car>, c: nat)
    requires c in cars
    ensures AllTodo(cars) == Todo(cars[c]) + AllTodo(cars - {c})
    decreases |cars|
  {
    hide Todo;
    var d :| d in cars && AllTodo(cars) == Todo(cars[d]) + AllTodo(cars - {d});
    if d != c {
      Fewer(cars, d);
      TodoSplit(cars - {d}, c);
      assert cars - {d} - {c} == cars - {c} - {d};
      Fewer(cars, c);
      TodoSplit(cars - {c}, d);
    }
  }

  lemma {:induction false} GoCounts(s: State, c: nat)
    requires |s.sem| == 4 && CanGo(s, c)
    ensures AllTodo(Step(s, Go(c)).cars) + 1 == AllTodo(s.cars) && Crossing(Step(s, Go(c))) == Crossing(s)
  {
    hide Script;
    var cars' := Step(s, Go(c)).cars;
    TodoSplit(s.cars, c);
    TodoSplit(cars', c);
    assert cars' - {c} == s.cars - {c};
  }

  /**
    Main result: with at most three straight or left-turning cars in and no more coming, every
    step brings the cars one statement nearer to the end and no step is the last before it: every
    run drains the intersection, in AllTodo steps exactly.
   */
  lemma {:induction false} EveryRunDrains(ss: seq<State>, es: seq<Event>, n: nat)
    requires IsRun(ss, es) && n <= |es| && (forall e | e in es :: e.Go?)
    requires Exclusive(ss[0]) && |Crossing(ss[0])| <= 3
    ensures Exclusive(ss[n]) && Crossing(ss[n]) == Crossing(ss[0])
    ensures AllTodo(ss[n].cars) + n == AllTodo(ss[0].cars)
    ensures (forall c | c in ss[n].cars :: Finished(ss[n].cars[c])) || exists c :: CanGo(ss[n], c)
  {
    hide Step, Exclusive, CanGo, Crossing;
    if n > 0 {
      EveryRunDrains(ss, es, n - 1);
      assert Enabled(ss[n - 1], es[n - 1]) && ss[n - 1 + 1] == Step(ss[n - 1], es[n - 1]) && es[n - 1] in es;
      StepExclusive(ss[n - 1], es[n - 1]);
      GoCounts(ss[n - 1], es[n - 1].c);
    }
    ThreeNeverStuck(ss[n]);
  }
}
