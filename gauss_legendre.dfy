/**
 * The Gauss-Legendre node and weight table: Newton iteration for each root of
 * the Legendre polynomial P_n from a cosine first guess, and the mirrored fill
 * that writes each root and its negative into the two halves of the table.
 * The library functions and the IEEE divisions with a possibly zero divisor are
 * left open (Geometry.Libm); the control flow and the index structure are exact.
 */
module GaussLegendre {
  import opened Geometry

  /** Newton stops one pass after the first step of size at most 3e-14 ... */
  const Tolerance: real := 0.00000000000003
  /** ... and gives up once 100 passes have gone by without that. */
  const MaxPasses: int := 100

  // ---------------------------------------------------------------------------
  // Legendre polynomials

  /** The three-term recurrence: P_k = ((2k-1) x P_{k-1} - (k-1) P_{k-2}) / k. */
  function Recur(k: int, x: real, p1: real, p2: real): real
    requires k >= 1
  {
    ((2 * k - 1) as real * x * p1 - (k - 1) as real * p2) / k as real
  }

  /**
   * (P_k(x), P_{k-1}(x)), from P_0 = 1 and P_1 = x by the recurrence; for
   * k <= 1 the pair the table starts from, (x, 1).
   */
  function LegendrePair(k: int, x: real): (real, real)
    decreases k
  {
    if k <= 1 then (x, 1.0)
    else
      var prev := LegendrePair(k - 1, x);
      (Recur(k, x, prev.0, prev.1), prev.0)
  }

  /** The rearranged step the table evaluates, x P_{k-1} + (k-1)/k (x P_{k-1} - P_{k-2}), is the recurrence. */
  lemma SourceRecurrence(k: int, x: real, p1: real, p2: real)
    requires k >= 2
    ensures x * p1 + (k - 1) as real / k as real * (x * p1 - p2) == Recur(k, x, p1, p2)
  {
    var kr := k as real;
    var a := x * p1;
    calc {
      a + (kr - 1.0) / kr * (a - p2);
      (kr * a) / kr + ((kr - 1.0) * (a - p2)) / kr;
      (kr * a + (kr - 1.0) * (a - p2)) / kr;
      ((2.0 * kr - 1.0) * a - (kr - 1.0) * p2) / kr;
    }
  }

  /** Every Legendre polynomial takes the value 1 at x = 1. */
  lemma {:induction false} LegendreAtOne(k: int)
    requires k >= 1
    ensures LegendrePair(k, 1.0) == (1.0, 1.0)
  {
    if k > 1 {
      LegendreAtOne(k - 1);
      var kr := k as real;
      calc {
        Recur(k, 1.0, 1.0, 1.0);
        ((2.0 * kr - 1.0) * 1.0 * 1.0 - (kr - 1.0) * 1.0) / kr;
        kr / kr;
        1.0;
      }
    }
  }

  /** An even step: P_{k-1} odd and P_{k-2} even give P_k even. */
  lemma RecurEven(k: int, x: real, p1: real, p2: real)
    requires k >= 1
    ensures Recur(k, -x, -p1, p2) == Recur(k, x, p1, p2)
  {
    assert (2 * k - 1) as real * -x * -p1 == (2 * k - 1) as real * x * p1;
  }

  /** An odd step: P_{k-1} even and P_{k-2} odd give P_k odd. */
  lemma RecurOdd(k: int, x: real, p1: real, p2: real)
    requires k >= 1
    ensures Recur(k, -x, p1, -p2) == -Recur(k, x, p1, p2)
  {
    assert (2 * k - 1) as real * -x * p1 == -((2 * k - 1) as real * x * p1);
  }

  /** P_k has the parity of k: P_k(-x) = (-1)^k P_k(x), so its roots are symmetric about 0. */
  lemma {:induction false} LegendreParity(k: int, x: real)
    requires k >= 1
    ensures k % 2 == 0 ==> LegendrePair(k, -x) == (LegendrePair(k, x).0, -LegendrePair(k, x).1)
    ensures k % 2 == 1 ==> LegendrePair(k, -x) == (-LegendrePair(k, x).0, LegendrePair(k, x).1)
  {
    if k > 1 {
      LegendreParity(k - 1, x);
      var prev := LegendrePair(k - 1, x);
      var mirrored := LegendrePair(k - 1, -x);
      assert LegendrePair(k, x) == (Recur(k, x, prev.0, prev.1), prev.0);
      assert LegendrePair(k, -x) == (Recur(k, -x, mirrored.0, mirrored.1), mirrored.0);
      if k % 2 == 0 {
        assert (k - 1) % 2 == 1;
        assert mirrored == (-prev.0, prev.1);
        RecurEven(k, x, prev.0, prev.1);
      } else {
        assert (k - 1) % 2 == 0;
        assert mirrored == (prev.0, -prev.1);
        RecurOdd(k, x, prev.0, prev.1);
      }
    }
  }

  /** The roots of P_n come in pairs: x is a root exactly when -x is. */
  lemma LegendreRootsSymmetric(n: int, x: real)
    requires n >= 1
    ensures LegendrePair(n, x).0 == 0.0 <==> LegendrePair(n, -x).0 == 0.0
  {
    LegendreParity(n, x);
  }

  /** The inner loop of the table: P_n(x) and P_{n-1}(x), starting from P_0 = 1 and P_1 = x. */
  method EvalLegendre(n: int, x: real) returns (p0: real, p1: real)
    ensures (p0, p1) == LegendrePair(n, x)
  {
    p1 := 1.0;
    p0 := x;
    var k := 2;
    while k <= n
      invariant 2 <= k && (n >= 1 ==> k <= n + 1) && (n < 2 ==> k == 2)
      invariant (p0, p1) == LegendrePair(k - 1, x)
    {
      var p2 := p1;
      p1 := p0;
      p0 := x * p1 + (k - 1) as real / k as real * (x * p1 - p2);
      SourceRecurrence(k, x, p1, p2);
      k := k + 1;
    }
  }

  // ---------------------------------------------------------------------------
  // Newton iteration

  /** One Newton pass from x: the derivative of P_n at x and the next iterate. */
  datatype Step = Step(next: real, dpdx: real)

  /** The Newton pass from x once P_n(x) = p0 and P_{n-1}(x) = p1 are known. */
  function StepFrom(lib: Libm, n: int, x: real, p0: real, p1: real): Step
  {
    var dpdx := lib.fdiv((x * p0 - p1) * n as real, x * x - 1.0);
    Step(x - lib.fdiv(p0, dpdx), dpdx)
  }

  function NewtonStep(lib: Libm, n: int, x: real): Step
  {
    var p := LegendrePair(n, x);
    StepFrom(lib, n, x, p.0, p.1)
  }

  /** The Newton pass for P_n, as a function of the current iterate. */
  function NewtonFn(lib: Libm, n: int): real -> Step
  {
    x => NewtonStep(lib, n, x)
  }

  /**
   * One pass of the Newton loop: evaluate P_n and P_{n-1} at x by the inner
   * loop, then take the Newton step.
   */
  method NewtonPass(lib: Libm, n: int, x: real) returns (step: Step)
    ensures step == NewtonFn(lib, n)(x)
  {
    var p0, p1 := EvalLegendre(n, x);
    step := StepFrom(lib, n, x, p0, p1);
  }

  // The control flow of the Newton loop below is stated for any pass function;
  // the table instantiates it with NewtonFn.

  /** The p-th iterate from the first guess x0. */
  function Iterate(pass: real -> Step, x0: real, p: nat): real
  {
    if p == 0 then x0 else pass(Iterate(pass, x0, p - 1)).next
  }

  /** Pass p (p >= 1) moved the iterate by at most the tolerance. */
  predicate Converged(pass: real -> Step, x0: real, p: nat)
    requires p >= 1
  {
    Abs(Iterate(pass, x0, p - 1) - Iterate(pass, x0, p)) <= Tolerance
  }

  /** The first converged pass in [from, MaxPasses), if any. */
  function FirstConverged(pass: real -> Step, x0: real, from: nat): Option<nat>
    requires from >= 1
    decreases MaxPasses - from
  {
    if from >= MaxPasses then None
    else if Converged(pass, x0, from) then Some(from)
    else FirstConverged(pass, x0, from + 1)
  }

  /** FirstConverged returns a converged pass with none before it, or reports that none converges. */
  lemma {:induction false} FirstConvergedSpec(pass: real -> Step, x0: real, from: nat)
    requires from >= 1
    ensures FirstConverged(pass, x0, from).Some? ==>
      var p := FirstConverged(pass, x0, from).value;
      from <= p < MaxPasses && Converged(pass, x0, p) && forall q :: from <= q < p ==> !Converged(pass, x0, q)
    ensures FirstConverged(pass, x0, from).None? ==> forall q :: from <= q < MaxPasses ==> !Converged(pass, x0, q)
    decreases MaxPasses - from
  {
    if from < MaxPasses && !Converged(pass, x0, from) {
      FirstConvergedSpec(pass, x0, from + 1);
    }
  }

  /** FirstConverged finds nothing when no pass in [from, 100) converges. */
  lemma {:induction false} FirstConvergedNone(pass: real -> Step, x0: real, from: nat)
    requires from >= 1
    requires forall q :: from <= q < MaxPasses ==> !Converged(pass, x0, q)
    ensures FirstConverged(pass, x0, from).None?
    decreases MaxPasses - from
  {
    if from < MaxPasses {
      FirstConvergedNone(pass, x0, from + 1);
    }
  }

  /** FirstConverged finds p when p is the first converged pass in [from, 100). */
  lemma {:induction false} FirstConvergedAt(pass: real -> Step, x0: real, from: nat, p: nat)
    requires 1 <= from <= p < MaxPasses && Converged(pass, x0, p)
    requires forall q :: from <= q < p ==> !Converged(pass, x0, q)
    ensures FirstConverged(pass, x0, from) == Some(p)
    decreases p - from
  {
    if from < p {
      FirstConvergedAt(pass, x0, from + 1, p);
    }
  }

  /**
   * What the Newton loop delivers from the first guess x0: one more pass after
   * the first converged pass p, provided p comes before pass 100; otherwise the
   * convergence assertion fails.
   */
  function NewtonOutcome(pass: real -> Step, x0: real): Result<Step>
  {
    match FirstConverged(pass, x0, 1)
    case None => Err(NonConvergence)
    case Some(p) => Ok(pass(Iterate(pass, x0, p)))
  }

  /** The loop succeeds exactly when some pass before the 100th converges, and then returns the pass after the first one. */
  lemma NewtonOutcomeRule(pass: real -> Step, x0: real)
    ensures NewtonOutcome(pass, x0).Ok? <==> exists p :: 1 <= p < MaxPasses && Converged(pass, x0, p)
    ensures NewtonOutcome(pass, x0).Ok? ==>
      exists p :: 1 <= p < MaxPasses && Converged(pass, x0, p)
        && (forall q :: 1 <= q < p ==> !Converged(pass, x0, q))
        && NewtonOutcome(pass, x0).value.next == Iterate(pass, x0, p + 1)
  {
    var r := FirstConverged(pass, x0, 1);
    FirstConvergedSpec(pass, x0, 1);
    if r.Some? {
      assert NewtonOutcome(pass, x0).value.next == Iterate(pass, x0, r.value + 1);
    }
  }

  /**
   * The while(1) loop of the table for one root: passes from x0 until the pass
   * after the first small step, failing when 100 passes are used up.
   */
  method SolveRoot(pass: real -> Step, x0: real) returns (r: Result<Step>)
    ensures r == NewtonOutcome(pass, x0)
  {
    var x := x0;
    var dobreak := false;
    var j := 0;
    var dpdx := 0.0;
    while true
      invariant 0 <= j < MaxPasses
      invariant x == Iterate(pass, x0, j)
      invariant dobreak <==> j >= 1 && Converged(pass, x0, j)
      invariant forall q :: 1 <= q < j ==> !Converged(pass, x0, q)
      decreases MaxPasses - j
    {
      var step := pass(x);
      dpdx := step.dpdx;
      var x1 := step.next;
      var dx := x - x1;
      x := x1;
      if dobreak {
        break;
      }
      if Abs(dx) <= Tolerance {
        dobreak := true;
      }
      j := j + 1;
      if !(j < MaxPasses) {
        FirstConvergedNone(pass, x0, 1);
        return Err(NonConvergence);
      }
    }
    FirstConvergedAt(pass, x0, 1, j);
    r := Ok(Step(x, dpdx));
  }

  // ---------------------------------------------------------------------------
  // The mirrored table

  /** Number of roots the table computes: ceil(n/2). */
  function Half(n: int): int
  {
    (n + 1) / 2
  }

  /** First guess for root i (1-based), t0 and t1 as the table computes them. */
  function InitialGuess(lib: Libm, n: int, i: int): real
  {
    var t0 := 1.0 - lib.fdiv(1.0 - lib.fdiv(1.0, n as real), 8.0 * n as real * n as real);
    var t1 := 1.0 / (4.0 * n as real + 2.0);
    lib.cos(Pi * (4 * i - 1) as real * t1) * t0
  }

  /** The first guesses, by root number. */
  function Guesses(lib: Libm, n: int): int -> real
  {
    i => InitialGuess(lib, n, i)
  }

  // The mirrored fill is stated for any Newton pass and any first guesses;
  // gauss_legendre_tbl instantiates it with NewtonFn and Guesses.

  /** Every one of the ceil(n/2) Newton solves converges. */
  predicate AllSolved(pass: real -> Step, guess: int -> real, n: int)
  {
    forall i :: 1 <= i <= Half(n) ==> NewtonOutcome(pass, guess(i)).Ok?
  }

  /** The pass of the table's outer loop whose writes land last on index j. */
  function RootIndex(n: int, j: int): (i: int)
    requires 0 <= j < n
    ensures 1 <= i <= Half(n)
    ensures j == i - 1 || j == n - i
  {
    if 2 * j + 1 < n then j + 1 else n - j
  }

  /** The value stored at index j for the root written there: negated in the lower half. */
  function Signed(n: int, j: int, root: real): real
  {
    if 2 * j + 1 < n then -root else root
  }

  /** The table's node at index j. */
  function Node(pass: real -> Step, guess: int -> real, n: int, j: int): real
    requires 0 <= j < n && NewtonOutcome(pass, guess(RootIndex(n, j))).Ok?
  {
    Signed(n, j, NewtonOutcome(pass, guess(RootIndex(n, j))).value.next)
  }

  /** The weight 2 / ((1 - x^2) P_n'(x)^2) that the table stores for a root. */
  function RootWeight(lib: Libm, s: Step): real
  {
    lib.fdiv(2.0, (1.0 - s.next * s.next) * s.dpdx * s.dpdx)
  }

  function NodeWeight(lib: Libm, pass: real -> Step, guess: int -> real, n: int, j: int): real
    requires 0 <= j < n && NewtonOutcome(pass, guess(RootIndex(n, j))).Ok?
  {
    RootWeight(lib, NewtonOutcome(pass, guess(RootIndex(n, j))).value)
  }

  /**
   * The mirrored fill covers the table: pass i writes indices i-1 and n-i, and it
   * writes index j exactly when i = RootIndex(n, j), so no index is written by two
   * different passes.
   */
  lemma MirrorFillCovers(n: int, j: int, i: int)
    requires 0 <= j < n && 1 <= i <= Half(n)
    ensures (i - 1 == j || n - i == j) <==> i == RootIndex(n, j)
  {
  }

  /**
   * Nodes come in pairs x[j] = -x[n-1-j] with equal weights; the middle node of
   * an odd table is the root itself.
   */
  lemma NodesSymmetric(lib: Libm, pass: real -> Step, guess: int -> real, n: int, j: int)
    requires 0 <= j < n && AllSolved(pass, guess, n)
    ensures RootIndex(n, j) == RootIndex(n, n - 1 - j)
    ensures NodeWeight(lib, pass, guess, n, j) == NodeWeight(lib, pass, guess, n, n - 1 - j)
    ensures 2 * j + 1 != n ==> Node(pass, guess, n, j) == -Node(pass, guess, n, n - 1 - j)
    ensures 2 * j + 1 == n ==> Node(pass, guess, n, j) == NewtonOutcome(pass, guess(Half(n))).value.next
  {
    if 2 * j + 1 == n {
      assert RootIndex(n, j) == n - j == Half(n);
    }
  }

  /** t holds the outcomes of the first |t| solves, root i at position i-1. */
  predicate Tabulates(pass: real -> Step, guess: int -> real, t: seq<Result<Step>>)
  {
    forall i {:trigger NewtonOutcome(pass, guess(i))} :: 1 <= i <= |t| ==> t[i - 1] == NewtonOutcome(pass, guess(i))
  }

  /** The outcomes of the first count solves. */
  lemma {:induction false} OutcomeTable(pass: real -> Step, guess: int -> real, count: nat) returns (t: seq<Result<Step>>)
    ensures |t| == count && Tabulates(pass, guess, t)
  {
    if count == 0 {
      t := [];
    } else {
      var prefix := OutcomeTable(pass, guess, count - 1);
      t := prefix + [NewtonOutcome(pass, guess(count))];
      forall i | 1 <= i <= count
        ensures t[i - 1] == NewtonOutcome(pass, guess(i))
      {
        if i < count {
          assert t[i - 1] == prefix[i - 1];
        }
      }
    }
  }

  /** The solve of the table's outer loop for root i, read off the outcome table. */
  method SolveAt(pass: real -> Step, guess: int -> real, i: int, ghost t: seq<Result<Step>>) returns (root: Result<Step>)
    requires 1 <= i <= |t| && Tabulates(pass, guess, t)
    ensures root == t[i - 1]
  {
    root := SolveRoot(pass, guess(i));
  }

  /** A table whose entries follow the outcome table t at every index. */
  predicate FilledFrom(lib: Libm, t: seq<Result<Step>>, n: int, xs: seq<real>, ws: seq<real>, upto: int)
    requires 0 <= n && |xs| == n && |ws| == n && |t| == Half(n)
  {
    forall j :: 0 <= j < n && RootIndex(n, j) < upto ==>
      t[RootIndex(n, j) - 1].Ok?
      && xs[j] == Signed(n, j, t[RootIndex(n, j) - 1].value.next)
      && ws[j] == RootWeight(lib, t[RootIndex(n, j) - 1].value)
  }

  /** Once every solve is Ok, a table filled from the outcome table holds the nodes and weights. */
  lemma FilledTable(lib: Libm, pass: real -> Step, guess: int -> real, n: int, t: seq<Result<Step>>, xs: seq<real>, ws: seq<real>)
    requires 0 <= n && |xs| == n && |ws| == n && |t| == Half(n)
    requires Tabulates(pass, guess, t)
    requires FilledFrom(lib, t, n, xs, ws, Half(n) + 1)
    ensures forall j :: 0 <= j < n ==>
      (NewtonOutcome(pass, guess(RootIndex(n, j))).Ok?
       && xs[j] == Node(pass, guess, n, j) && ws[j] == NodeWeight(lib, pass, guess, n, j))
  {
    forall j | 0 <= j < n
      ensures NewtonOutcome(pass, guess(RootIndex(n, j))).Ok?
      ensures xs[j] == Node(pass, guess, n, j) && ws[j] == NodeWeight(lib, pass, guess, n, j)
    {
      var i := RootIndex(n, j);
      assert t[i - 1] == NewtonOutcome(pass, guess(i));
    }
  }

  /** Pass i of the outer loop extends a table filled from the outcome table by root i. */
  lemma StoreStep(lib: Libm, t: seq<Result<Step>>, n: int, xs: seq<real>, ws: seq<real>, i: int, s: Step)
    requires 0 <= n && |xs| == n && |ws| == n && |t| == Half(n)
    requires 1 <= i <= Half(n) && t[i - 1] == Ok(s)
    requires FilledFrom(lib, t, n, xs, ws, i)
    ensures FilledFrom(lib, t, n, xs[i - 1 := -s.next][n - i := s.next],
                       ws[i - 1 := RootWeight(lib, s)][n - i := RootWeight(lib, s)], i + 1)
  {
    var xs' := xs[i - 1 := -s.next][n - i := s.next];
    var ws' := ws[i - 1 := RootWeight(lib, s)][n - i := RootWeight(lib, s)];
    forall j | 0 <= j < n && RootIndex(n, j) < i + 1
      ensures t[RootIndex(n, j) - 1].Ok?
      ensures xs'[j] == Signed(n, j, t[RootIndex(n, j) - 1].value.next)
      ensures ws'[j] == RootWeight(lib, t[RootIndex(n, j) - 1].value)
    {
      MirrorFillCovers(n, j, i);
    }
  }

  /**
   * The outer loop of gauss_legendre_tbl: for i = 1 .. ceil(n/2) solve for
   * root i, then store its negative at i-1 and itself at n-i, and the weight
   * at both; stop at the first solve that does not converge.
   */
  method MirrorFill(lib: Libm, pass: real -> Step, guess: int -> real, n: int, x: array<real>, w: array<real>)
    returns (r: Result<()>)
    requires n >= 0 && x.Length == n && w.Length == n && x != w
    modifies x, w
    ensures r.Ok? <==> AllSolved(pass, guess, n)
    ensures r.Err? ==> r.error == NonConvergence
    ensures r.Ok? ==> forall j :: 0 <= j < n ==>
      x[j] == Node(pass, guess, n, j) && w[j] == NodeWeight(lib, pass, guess, n, j)
  {
    var m := Half(n);
    ghost var t := OutcomeTable(pass, guess, m);
    for i := 1 to m + 1
      invariant forall k :: 0 <= k < i - 1 ==> t[k].Ok?
      invariant FilledFrom(lib, t, n, x[..], w[..], i)
    {
      var root := SolveAt(pass, guess, i, t);
      if root.Err? {
        assert t[i - 1] == NewtonOutcome(pass, guess(i));
        return Err(NonConvergence);
      }
      var s := root.value;
      ghost var xs, ws := x[..], w[..];
      x[i - 1] := -s.next;
      x[n - i] := s.next;
      var wt := RootWeight(lib, s);
      w[i - 1] := wt;
      w[n - i] := wt;
      assert x[..] == xs[i - 1 := -s.next][n - i := s.next];
      assert w[..] == ws[i - 1 := wt][n - i := wt];
      StoreStep(lib, t, n, xs, ws, i, s);
    }
    FilledTable(lib, pass, guess, n, t, x[..], w[..]);
    r := Ok(());
  }

  /**
   * gauss_legendre_tbl: the mirrored fill with the Newton pass for P_n and the
   * cosine first guesses.
   */
  method GaussLegendreTable(lib: Libm, n: int, x: array<real>, w: array<real>) returns (r: Result<()>)
    requires n >= 0 && x.Length == n && w.Length == n && x != w
    modifies x, w
    ensures r.Ok? <==> AllSolved(NewtonFn(lib, n), Guesses(lib, n), n)
    ensures r.Err? ==> r.error == NonConvergence
    ensures r.Ok? ==> forall j :: 0 <= j < n ==>
      x[j] == Node(NewtonFn(lib, n), Guesses(lib, n), n, j)
      && w[j] == NodeWeight(lib, NewtonFn(lib, n), Guesses(lib, n), n, j)
  {
    r := MirrorFill(lib, NewtonFn(lib, n), Guesses(lib, n), n, x, w);
  }
}
