/** A model of the trampolined factorial of PracEveLoop.js.

    A JavaScript step function either returns a plain value or returns a
    zero-argument closure (a thunk) that performs the next call; the
    trampoline keeps invoking thunks until a plain value comes back. Here the
    runtime test `typeof result === "function"` becomes a tagged union: a thunk
    is the saved call it will make when invoked. Numbers are mathematical
    integers, so the IEEE rounding and overflow of the original are not modelled.
 */
module PracEveLoop {

  /** The step functions a thunk can call back into. */
  datatype StepFunction = FactoStep | TrampolineFactorialStep

  /** A saved call `fn(n, acc)`: what the closure `() => fn(n, acc)` does when invoked. */
  datatype Call = Call(fn: StepFunction, n: int, acc: int)

  /** What a step function returns: a final (non-function) value, or a thunk. */
  datatype Step = Done(value: int) | Pending(next: Call)

  /** What the driver hands back when it is given something to start from. */
  datatype Outcome = Returned(value: int) | NotAFunction

  /** The direct recursive definition `factorial`; the JavaScript version
      never reaches its base case for a negative argument, hence `nat`. */
  function Factorial(n: nat): (r: nat)
    ensures r >= 1
    ensures n >= 1 ==> r >= n
  {
    if n == 0 then 1 else n * Factorial(n - 1)
  }

  /** `facto(n, a)`: the accumulator-style step of the trampolined factorial. */
  function Facto(n: int, a: int): Step
  {
    if n == 0 then Done(a) else Pending(Call(FactoStep, n - 1, n * a))
  }

  /** The body of `trampolineFactorial(n, accumulator)`, whose base case is `n <= 1`. */
  function TrampolineFactorial(n: int, acc: int): Step
  {
    if n <= 1 then Done(acc) else Pending(Call(TrampolineFactorialStep, n - 1, n * acc))
  }

  /** Performing a saved call: invoking a thunk, or the driver's first call `f(...args)`. */
  function Invoke(c: Call): Step
  {
    match c.fn
    case FactoStep => Facto(c.n, c.acc)
    case TrampolineFactorialStep => TrampolineFactorial(c.n, c.acc)
  }

  /** The calls from which the chain of thunks ends: `facto` only counts down to 0
      from a non-negative `n`; `trampolineFactorial` stops from every `n`. */
  predicate Halts(c: Call)
  {
    c.fn == FactoStep ==> c.n >= 0
  }

  /** Termination measure for a halting call: the distance still to count down. */
  function Measure(c: Call): nat
  {
    if c.n > 0 then c.n else 0
  }

  /** The value the trampoline reaches from the call `c`. */
  function Run(c: Call): int
    requires Halts(c)
    decreases Measure(c)
  {
    match Invoke(c)
    case Done(v) => v
    case Pending(d) => Run(d)
  }

  /** How many thunks the trampoline invokes after the first call `c`. */
  function Bounces(c: Call): nat
    requires Halts(c)
    decreases Measure(c)
  {
    match Invoke(c)
    case Done(_) => 0
    case Pending(d) => 1 + Bounces(d)
  }

  /** The result held by the driver after `k` turns of its loop, starting from `s`;
      once a plain value is reached it stays put. */
  function Iterate(s: Step, k: nat): Step
    decreases k
  {
    if k == 0 || s.Done? then s else Iterate(Invoke(s.next), k - 1)
  }

  /** One more turn of the loop invokes the thunk held after `k` turns. */
  lemma {:induction false} IterateOneMore(s: Step, k: nat)
    requires Iterate(s, k).Pending?
    ensures Iterate(s, k + 1) == Invoke(Iterate(s, k).next)
    decreases k
  {
    if k > 0 {
      IterateOneMore(Invoke(s.next), k - 1);
    }
  }

  /** `facto(0, a)` is the plain value `a`; any other `n` gives a thunk whose
      invocation is exactly `facto(n - 1, n * a)`. */
  lemma FactoShape(n: int, a: int)
    ensures n == 0 <==> Facto(n, a).Done?
    ensures n == 0 ==> Facto(n, a).value == a
    ensures n != 0 ==> Invoke(Facto(n, a).next) == Facto(n - 1, n * a)
  {
  }

  /** `trampolineFactorial(n, acc)` is the plain value `acc` for every `n <= 1`;
      above that it gives a thunk for `trampolineFactorial(n - 1, n * acc)`. */
  lemma TrampolineFactorialShape(n: int, acc: int)
    ensures n <= 1 <==> TrampolineFactorial(n, acc).Done?
    ensures n <= 1 ==> TrampolineFactorial(n, acc).value == acc
    ensures n > 1 ==> Invoke(TrampolineFactorial(n, acc).next) == TrampolineFactorial(n - 1, n * acc)
  {
  }

  /** `trampoline(f, ...args)`: call once, then invoke thunks while the result is
      one. The ghost `bounces` counts the turns of the loop. */
  method Trampoline(c: Call) returns (r: Step, ghost bounces: nat)
    requires Halts(c)
    ensures r.Done?
    ensures r == Iterate(Invoke(c), bounces)
    ensures forall k :: 0 <= k < bounces ==> Iterate(Invoke(c), k).Pending?
    ensures r.value == Run(c) && bounces == Bounces(c)
    ensures Invoke(c).Done? ==> r == Invoke(c) && bounces == 0
  {
    var result := Invoke(c);
    bounces := 0;
    while result.Pending?
      invariant result == Iterate(Invoke(c), bounces)
      invariant forall k :: 0 <= k < bounces ==> Iterate(Invoke(c), k).Pending?
      invariant result.Pending? ==> Halts(result.next)
      invariant result.Pending? ==> Run(result.next) == Run(c)
      invariant result.Pending? ==> bounces + 1 + Bounces(result.next) == Bounces(c)
      invariant result.Done? ==> result.value == Run(c) && bounces == Bounces(c)
      decreases if result.Pending? then 1 + Bounces(result.next) else 0
    {
      IterateOneMore(Invoke(c), bounces);
      result := Invoke(result.next);
      bounces := bounces + 1;
    }
    r := result;
  }

  /** The call shape `trampoline(facto(n))`: the driver is handed what `facto(n)`
      returned and calls it with no arguments. A thunk is run to the end; a
      plain number cannot be called, which JavaScript reports as a TypeError. */
  method TrampolineOf(s: Step) returns (r: Outcome)
    requires s.Pending? ==> Halts(s.next)
    ensures s.Done? <==> r == NotAFunction
    ensures s.Pending? ==> r == Returned(Run(s.next))
  {
    if s.Done? {
      return NotAFunction;
    }
    var v;
    ghost var bounces;
    v, bounces := Trampoline(s.next);
    r := Returned(v.value);
  }

  /** The accumulator scales the result: the trampolined `facto(n, a)` yields `a * n!`. */
  lemma {:induction false} RunFacto(n: nat, a: int)
    ensures Run(Call(FactoStep, n, a)) == a * Factorial(n)
  {
    if n > 0 {
      RunFacto(n - 1, n * a);
      calc {
        Run(Call(FactoStep, n, a));
        Run(Call(FactoStep, n - 1, n * a));
        (n * a) * Factorial(n - 1);
        a * (n * Factorial(n - 1));
      }
    }
  }

  /** With the default accumulator 1, the trampolined `facto` agrees with `factorial`. */
  lemma FactoMatchesFactorial(n: nat)
    ensures Run(Call(FactoStep, n, 1)) == Factorial(n)
  {
    RunFacto(n, 1);
  }

  /** The loop of `trampoline(facto, n, a)` turns exactly `n` times. */
  lemma {:induction false} FactoBounces(n: nat, a: int)
    ensures Bounces(Call(FactoStep, n, a)) == n
  {
    if n > 0 {
      FactoBounces(n - 1, n * a);
    }
  }

  /** `facto` has no base case below 0: from a negative `n` every result the loop
      holds is still a thunk, however many turns it takes. */
  lemma {:induction false} FactoNegativeNeverDone(n: int, a: int, k: nat)
    requires n < 0
    ensures Iterate(Invoke(Call(FactoStep, n, a)), k).Pending?
    decreases k
  {
    if k > 0 {
      FactoNegativeNeverDone(n - 1, n * a, k - 1);
    }
  }

  /** The form used at line 63, `trampoline(facto(n))`, gives `n!` for `n >= 1`,
      the same as `trampoline(facto, n)`; for `n == 0` `facto` already returned a number. */
  lemma CallShapeAgrees(n: int)
    requires n >= 1
    ensures Facto(n, 1).Pending?
    ensures Run(Facto(n, 1).next) == Run(Call(FactoStep, n, 1)) == Factorial(n)
  {
    FactoMatchesFactorial(n);
  }

  /** `trampolineFactorial(n, acc)` driven to completion: `acc` for every `n <= 1`,
      otherwise `acc * n!`. */
  lemma {:induction false} RunTrampolineFactorial(n: int, acc: int)
    ensures Run(Call(TrampolineFactorialStep, n, acc))
         == if n <= 1 then acc else acc * Factorial(n)
  {
    if n > 1 {
      RunTrampolineFactorial(n - 1, n * acc);
      if n - 1 <= 1 {
        assert Factorial(n) == n;
      }
      calc {
        Run(Call(TrampolineFactorialStep, n, acc));
        Run(Call(TrampolineFactorialStep, n - 1, n * acc));
        (n * acc) * Factorial(n - 1);
        acc * (n * Factorial(n - 1));
      }
    }
  }

  /** The loop of `trampoline(trampolineFactorial, n, acc)` turns `n - 1` times, or not at all for `n <= 1`. */
  lemma {:induction false} TrampolineFactorialBounces(n: int, acc: int)
    ensures Bounces(Call(TrampolineFactorialStep, n, acc)) == if n <= 1 then 0 else n - 1
  {
    if n > 1 {
      TrampolineFactorialBounces(n - 1, n * acc);
    }
  }

  /** The two step functions, with their different base cases, reach the same value. */
  lemma TrampolineFactorialAgreesWithFacto(n: nat, acc: int)
    ensures Run(Call(TrampolineFactorialStep, n, acc)) == Run(Call(FactoStep, n, acc))
  {
    RunTrampolineFactorial(n, acc);
    RunFacto(n, acc);
  }

  /** `trampoline(facto, n, a)` end to end: the loop turns `n` times and returns `a * n!`. */
  method TrampolinedFacto(n: nat, a: int) returns (r: int, ghost bounces: nat)
    ensures r == a * Factorial(n)
    ensures bounces == n
  {
    var s;
    s, bounces := Trampoline(Call(FactoStep, n, a));
    r := s.value;
    RunFacto(n, a);
    FactoBounces(n, a);
  }
}
