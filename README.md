# HPy debug-mode leak detector, modelled in Dafny

This project models the leak detector session of HPy's debug mode
(`hpy/debug/leakdetector.py`) and proves what it promises.

A `LeakDetector` starts idle: its `generation` field is `None`. `start()`
raises `ValueError("LeakDetector already started")` when a generation is
already stored. Otherwise it stores the generation that the native `_debug`
module hands out. `stop()` raises `ValueError("LeakDetector not started yet")`
when no generation is stored. Otherwise it asks `_debug.get_open_handles` for
the handles still open in that generation and raises `HPyLeakError` when there
are any. `__enter__` and `__exit__` wrap the two as a scoped session.
`HPyLeakError` keeps the leaked handles. Its `__str__` renders the report: a
line `"<n> unclosed handle<s>:"`, with the `s` dropped exactly when n is 1,
then each leak's `repr` indented by four spaces, all joined by newlines.

Files:

- `pytext.dfy` (module `PyText`): the Python built-ins the report needs.
  `NatToString` is `str(n)` for a count, and `ParseDecimal` reads a digit
  string back. Both directions are proved: parsing the spelling of n gives n,
  and spelling the value of a digit string without a leading zero gives that
  string. `Join` is `sep.join(parts)`, and `Split` is `s.split(c)` for a
  one-character separator. Joining the pieces of any split gives the string
  back. Splitting a join gives the parts back when there is at least one part
  and no part holds the separator.
- `native_debug.dfy` (module `NativeDebug`): the native `_debug` module, seen
  only at its interface. It records every call in `log`. Its answers come
  from two arbitrary response functions over the earlier calls, fixed when it
  is created.
- `leakdetector.dfy` (module `HPyDebug`): the report text as specification
  functions (`Header`, `LeakLines`, `Message`) and their lemmas. Then the
  `HPyLeakError` class, whose `Str` builds the lines in a loop as the source
  does. Then the `LeakDetector` class with `Start`, `Stop`, `Enter` and `Exit`.
  Their effects are stated by two predicates on snapshots of the detector
  field and the native call log, `StartStep` and `StopStep`. Lemmas about any
  sequence of such steps (`StartedSession`, `NeverStartedSession`) follow.
  Client methods at the end show what a caller can conclude from the
  contracts alone.

Raising is modelled by the result datatype `Raised`: `Ok`,
`ValueError(message)`, or `LeakError(error)` carrying the fresh `HPyLeakError`.
`repr` is a parameter `repr: L -> string`, where `L` is the type of the
records returned by the native module.

## Model

| member | source | states |
|---|---|---|
| `PyText.NatToString` | hpy/debug/leakdetector.py:14-16 | `str(n)` of the handle count: non-empty, all decimal digits, a leading `0` only for n = 0, and `"0"` for 0 |
| `PyText.ParseNatToString` | hpy/debug/leakdetector.py:16 | reading the decimal count back gives n, so the count in the header is exact |
| `PyText.NatToStringParse` | hpy/debug/leakdetector.py:16 | spelling out the value of any digit string without a leading zero gives that string back, so `str` is onto such strings |
| `PyText.NatToStringInjective` | hpy/debug/leakdetector.py:16 | two counts give the same spelling exactly when they are equal |
| `PyText.Join` | hpy/debug/leakdetector.py:19 | `sep.join(parts)`, which `Str` uses for line 19: `""` for no parts, the part itself for one; `SplitJoin` and `JoinSplit` show that `Split` undoes it |
| `PyText.Split` | hpy/debug/leakdetector.py:19 | the source never splits; this reads back line 19's join: splitting on a character gives at least one piece, and no piece holds the separator |
| `PyText.SplitJoin` | hpy/debug/leakdetector.py:19 | for a one-character separator, splitting the join of a non-empty list of parts that do not hold the separator gives the list back (line 19 joins with `"\n"`) |
| `PyText.JoinSplit` | hpy/debug/leakdetector.py:19 | joining the pieces of a split gives the original string back |
| `HPyDebug.HeaderShape` | hpy/debug/leakdetector.py:14-16 | the first line starts with the decimal count, which reads back as n, then is `" unclosed handle:"` for n = 1 and `" unclosed handles:"` otherwise, and holds no newline |
| `HPyDebug.LeakLinesAt` | hpy/debug/leakdetector.py:17-18 | one line per leak, in list order, line i being four spaces then `repr(leaks[i])` |
| `HPyDebug.MessageLines` | hpy/debug/leakdetector.py:12-19 | read line by line the report has n + 1 lines: the header, then line i + 1 is the indented repr of leak i |
| `HPyDebug.EmptyMessage` | hpy/debug/leakdetector.py:14-16 | with no leaks the report is `"0 unclosed handles:"` (plural for zero) |
| `HPyDebug.HPyLeakError.constructor` | hpy/debug/leakdetector.py:7-10 | the error stores the leaks list unchanged |
| `HPyDebug.HPyLeakError.Str` | hpy/debug/leakdetector.py:12-19 | the loop that appends the header and one indented line per leak, then joins with newlines, yields exactly `Message(leaks, repr)` |
| `HPyDebug.LeakDetector.constructor` | hpy/debug/leakdetector.py:24-25 | a new detector is idle: `generation` is `None` |
| `HPyDebug.LeakDetector.Start` | hpy/debug/leakdetector.py:27-31 | when started: raises "LeakDetector already started", leaves `generation` alone and makes no native call; when idle: returns normally, makes exactly one `new_generation` call and stores exactly its answer |
| `HPyDebug.LeakDetector.Stop` | hpy/debug/leakdetector.py:33-39 | never changes `generation`; when idle: raises "LeakDetector not started yet" and makes no native call; when started: makes exactly one `get_open_handles` call with the stored generation, returns normally if it answers an empty list and otherwise raises a fresh `HPyLeakError` carrying exactly that list |
| `HPyDebug.LeakDetector.Enter` | hpy/debug/leakdetector.py:41-43 | has the effect of `start()` and returns the same detector |
| `HPyDebug.LeakDetector.Exit` | hpy/debug/leakdetector.py:45-47 | has the effect of `stop()` whatever exception information it gets, and never suppresses the exception |
| `HPyDebug.StartedSession` | hpy/debug/leakdetector.py:29-39 | once started, over any sequence of start/stop calls: the generation never changes, every start raises "already started", every stop queries that same generation and never raises `ValueError` |
| `HPyDebug.NeverStartedSession` | hpy/debug/leakdetector.py:35-36 | a detector that is only stopped stays idle, raises "not started yet" every time and never queries the native module |
| `HPyDebug.StartTwice` | hpy/debug/leakdetector.py:29-31 | on a new detector the first start succeeds and the second raises "already started" |
| `HPyDebug.StopUnstarted` | hpy/debug/leakdetector.py:35-36 | stopping a new detector raises "not started yet" |
| `HPyDebug.OneLeakSession` | hpy/debug/leakdetector.py:37-47 | a scoped session whose query answers one handle raises `HPyLeakError` listing exactly it, reported as `"1 unclosed handle:\n    "` followed by its repr |
| `HPyDebug.CleanSession` | hpy/debug/leakdetector.py:33-39 | a session whose query answers no handles stops normally twice in a row, and a later start raises "already started" |
| `NativeDebug.DebugModule.NewGeneration` | hpy/debug/leakdetector.py:31 | `_debug.new_generation()`: records exactly one call and returns the answer it records |
| `NativeDebug.DebugModule.GetOpenHandles` | hpy/debug/leakdetector.py:37 | `_debug.get_open_handles(g)`: records exactly one call with argument g and returns the list it records |

## Left out

- The native `_debug` module's internals: the handle table, the generation counter, the queue of open handles, memory protection and stack traces. Their sources (`hpy/debug/src/debug_handles.c`, `hpy/debug/src/dhqueue.c` and others) are not part of this model. Its answers are arbitrary response functions, and no detector contract depends on what they return. So nothing is claimed about generations being increasing or about which handles count as open.
- `repr` of a debug handle is foreign code. It is a parameter of `Str`, taken to be a pure, total function: it always returns, never raises, and gives the same text for the same leak. Nothing else is assumed about it.
- HPyDebug.MessageLines: the line-by-line reading of the report needs every repr to be free of newlines. Without that, only the joined form `Message` is stated, which `Str` meets exactly.
- `HPyDebugError`, the common base class, has no behaviour of its own. `Raised.LeakError` stands for raising its subclass `HPyLeakError`.
- The Python `with` statement itself: not calling `__exit__` when `__enter__` raised, and exception chaining when `__exit__` raises while another exception propagates. This is host-language behaviour. `Enter` and `Exit` are modelled as the methods they are.
- The leaks are taken to be handle objects that are not tuples. For those, `'    %r' % dh` is four spaces followed by `repr(dh)`. A tuple would be unpacked by `%` instead, or raise `TypeError`.
- The native module is passed to each `Start`, `Stop`, `Enter` and `Exit` call. In the source it is the one module `_debug`, imported once. So the model admits a caller that starts against one `DebugModule` and stops against another, which the source cannot do. No proved property depends on this.
- Python truthiness of the returned value: `get_open_handles` is taken to return a list, so `if leaks:` is the test for a non-empty list.
- `setup.py`, the tests, `ctx_call.c` and `ctx_meth.c` are build tooling, test fixtures and foreign-call forwarding, not part of the leak detector.

## Notes on the code

- `start()` and `stop()` signal misuse with `ValueError("LeakDetector already started")` and `ValueError("LeakDetector not started yet")`. There is no dedicated exception class for either.
- `stop()` never resets `generation`. So after a successful `start()`, every later `start()` raises and `stop()` may be repeated (`StartedSession`).
