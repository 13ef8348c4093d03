# Trampolined factorial

This is a Dafny model of the trampolined factorial in `PracEveLoop.js`. The file
has three parts:

- `factorial` is the direct recursive definition.
- `facto(n, a = 1)` is the accumulator-style step. For `n === 0` it returns the
  plain value `a`. Otherwise it returns a zero-argument closure (a thunk) that
  calls `facto(n - 1, n * a)`.
- `trampoline(f, ...args)` calls `f` once. While the result is a function, it
  calls that result with no arguments. It returns the first result that is not
  a function.

A second step function, `trampolineFactorial(n, accumulator = 1)`, has the base
case `n <= 1`.

The model replaces the runtime test `typeof result === "function"` with a
tagged union. `Step = Done(value) | Pending(next)` holds either a final value or
a thunk. A thunk is the call it will make when invoked,
`Call(fn, n, acc)`, where `fn` names the step function. `Invoke` performs a
call. The driver `Trampoline` is a method with a `while` loop. It is proved
against two specification functions: `Run` gives the final value and `Bounces`
gives the number of thunks invoked. Lemmas then prove that `Run` equals
`a * n!` for both step functions, and that the loop runs exactly `n` times for
`facto`. `Halts` is the condition under which the chain of thunks ends. `facto`
has no base case below 0, and `FactoNegativeNeverDone` proves that from a
negative `n` the loop never reaches a plain value.

All numbers are mathematical integers (`int`).

## Model

| member | source | states |
|---|---|---|
| PracEveLoop.Factorial | PracEveLoop.js:9-12 | The reference factorial is defined for `n >= 0` by `0! = 1` and `n! = n * (n-1)!`. It is at least 1, and at least `n` for `n >= 1`. |
| PracEveLoop.FactoShape | PracEveLoop.js:30-33 | `facto(n, a)` is a plain value exactly when `n == 0`, and that value is `a`. Otherwise invoking its thunk is exactly `facto(n - 1, n * a)`. |
| PracEveLoop.TrampolineFactorialShape | PracEveLoop.js:133-135 | `trampolineFactorial(n, acc)` is a plain value exactly when `n <= 1`, and that value is `acc`. Otherwise invoking its thunk is exactly `trampolineFactorial(n - 1, n * acc)`. |
| PracEveLoop.IterateOneMore | PracEveLoop.js:48-49 | If the loop still holds a thunk after `k` turns, turn `k + 1` invokes that thunk. |
| PracEveLoop.Trampoline | PracEveLoop.js:46-52 | The driver ends and returns a non-function. The result is the one held after `bounces` turns. Every earlier result was a thunk, so this is the first non-function. The value is `Run(c)` and there are `Bounces(c)` turns. If the first call already gives a value, the driver returns it with no turns. |
| PracEveLoop.TrampolineOf | PracEveLoop.js:63 | `trampoline(facto(n))` is handed a step result. A plain number cannot be called, so this is a TypeError (`NotAFunction`). A thunk is driven to its final value. |
| PracEveLoop.RunFacto | PracEveLoop.js:30-33 | For `n >= 0`, driving `facto(n, a)` to completion gives `a * n!`. |
| PracEveLoop.FactoMatchesFactorial | PracEveLoop.js:9-12 | With the default `a = 1`, the trampolined `facto(n)` equals `factorial(n)`. |
| PracEveLoop.FactoBounces | PracEveLoop.js:38-40 | For `n >= 0`, `trampoline(facto, n, a)` turns its loop exactly `n` times. The recursion becomes a linear loop. |
| PracEveLoop.FactoNegativeNeverDone | PracEveLoop.js:31 | For `n < 0`, every result the loop holds is a thunk, after any number of turns. The driver never terminates, so `n >= 0` is required. |
| PracEveLoop.CallShapeAgrees | PracEveLoop.js:63 | For `n >= 1`, `facto(n)` is a thunk. Driving it gives the same value as `trampoline(facto, n)`, namely `n!`. |
| PracEveLoop.RunTrampolineFactorial | PracEveLoop.js:133-135 | Driving `trampolineFactorial(n, acc)` to completion gives `acc` for every `n <= 1`, including negative `n`. Otherwise it gives `acc * n!`. |
| PracEveLoop.TrampolineFactorialBounces | PracEveLoop.js:133-135 | The loop turns `n - 1` times for `n > 1` and not at all for `n <= 1`. |
| PracEveLoop.TrampolineFactorialAgreesWithFacto | PracEveLoop.js:133-135 | For `n >= 0`, the two step functions reach the same value despite their different base cases. |
| PracEveLoop.TrampolinedFacto | PracEveLoop.js:46-52 | Running `trampoline(facto, n, a)` for `n >= 0` returns `a * n!` after exactly `n` turns. |

## Left out

- JavaScript Number semantics. The source computes in IEEE doubles, so large factorials lose precision and `facto(10000)` overflows to `Infinity`. The model uses unbounded integers and leaves out rounding and overflow.
- The generic trampoline over arbitrary JavaScript callables. The model's driver works only with the two step functions of the file, named by `StepFunction`. A thunk is represented by the call it makes, not by a closure.
- `measureCallStackSize` and its try/catch (lines 71-93). The measured depth depends on the engine's stack limit. The `console.log` calls are output only.
- The second `trampoline` (lines 115-124). It calls the undefined `fin` and assigns the undefined `results`, so it is not a working driver. `Trampoline` models the first one.
- The second `factorial` (lines 128-130). Its base case is inverted and it never terminates for `n <= 1`. `Factorial` models the first one.
- `safeFact`, `flatterArray` and the call to `tampoline` (lines 137-148). They come after the `return` at line 135, so they never run. `flattenArray` is never defined.
- Duplicate declarations. The file declares `factorial` and `trampoline` twice, and JavaScript would refuse to load the script. The model follows the first declaration of each.
- The timer-driven prime enumeration and its page controls. They are not part of this file.
