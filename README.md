# Fabric task registry, modelled in Dafny

This project models `fabric/tasks.py`, the part of Fabric that makes user
functions discoverable as tasks. It has two pieces:

- **The task registry.** `Task` keeps one dictionary from task name to task
  object. `_init_task_registry` creates it lazily. `register` stores a task
  under its name, and a later task of the same name wins. `unregister`
  removes the name if it is there and does nothing otherwise. `all` lists
  the (name, task) pairs. `get_by_name` returns a task or raises `KeyError`.
  Every `Task` registers itself when it is constructed. A subclass that
  keeps the default name `'undefined'` collides with every other such task.
- **The callable adapter.** `WrappedCallableTask` wraps a callable. It takes
  the callable's `__name__` as its name and its `__doc__` as its
  documentation, then registers itself. Calling it, directly or through
  `run`, forwards the arguments to the callable and returns what the
  callable returns. An exception raised by the callable passes through
  unchanged.

Everything is in one module, `Tasks` (`tasks.dfy`). It is generic in `A`,
the arguments of a call, and `R`, the callable's return value.

- `Task` is a class with constant fields `name`, `doc` and `body`.
  `body` is `Unimplemented` for the base class's `run`, or
  `Wraps(callable)` for a wrapper. Tasks are objects, so "the same task"
  means the same object, as in Python.
- A `Callable` value is a Python callable as the adapter sees it: its
  `__name__`, its `__doc__` (`None` when it has no docstring) and a
  function value for what calling it does. Its outcome is a `Result`:
  a value, or an `Error` it raised.
- `Registry` is the class-level dictionary, made one explicit object that
  the task constructors receive. Its field `table` is `None` until
  `_init_task_registry` has run, and then `Some(dictionary)`. A ghost
  `history` records every register and unregister in order. `Valid()`
  ties the dictionary to a replay of that history.
- The registry methods are specified by pure functions on the dictionary:
  `Registered`, `Unregistered`, `Lookup` and `Pairs`. The lemmas about
  those functions state last-write-wins, no-op removal, idempotence and
  one pair per name. `LastWriteWins` and `UntouchedKeepsLookup` state the
  registry's main rule over any history. A lookup of a name finds the task
  of the last event about that name when that event was a registration.
  It raises `KeyError` when the last event was a removal, or when no event
  was about the name. `GetByName` states exactly this about the live
  registry.
- `DefaultNamesCollide`, `WrapThenCall` and `UnregisterTwice` are client
  methods. They show what a caller can conclude from the contracts alone.

## Model

| member | source | states |
|---|---|---|
| `Tasks.Registry.constructor` | fabric/tasks.py:28-31 | before any use no dictionary exists and the registry has no entries |
| `Tasks.Registry.InitTaskRegistry` | fabric/tasks.py:28-31 | afterwards a dictionary exists; an existing one is kept as it was, neither replaced nor cleared, so the entries do not change |
| `Tasks.Registry.Register` | fabric/tasks.py:33-37 | creates the dictionary if needed; afterwards the entries are `Registered(old entries, t)` and the event is appended to the history |
| `Tasks.Registry.Unregister` | fabric/tasks.py:39-44 | afterwards the entries are `Unregistered(old entries, t)`; an absent name leaves the entries exactly as they were |
| `Tasks.Registry.All` | fabric/tasks.py:46-50 | returns a snapshot that is exactly the set of (name, task) pairs of the entries, and never fails; with no registration so far it is empty; the entries do not change |
| `Tasks.Registry.GetByName` | fabric/tasks.py:52-56 | returns the registered task or `KeyError(name)`, leaving the entries unchanged; it finds the task of the last history event about the name when that event registered it, and `KeyError` when the last event removed it or no event was about the name |
| `Tasks.Task.constructor` | fabric/tasks.py:16-22 | a task takes its class's `name` (the default is `'undefined'`) and its `run` is unimplemented; constructing it registers it, so the registry maps its name to this object |
| `Tasks.Task.Wrap` | fabric/tasks.py:68-72 | the wrapper's name and doc are the callable's `__name__` and `__doc__`, it keeps the callable, and it registers itself under that name, replacing any earlier task of that name |
| `Tasks.Task.Run` | fabric/tasks.py:24-25 | the base `run`, called without arguments, ends with `NotImplementedError`; a wrapper's `run` returns exactly what the wrapped callable returns for the same arguments, exceptions included (fabric/tasks.py:77-78) |
| `Tasks.Task.Call` | fabric/tasks.py:74-78 | calling a wrapper returns exactly the wrapped callable's outcome for the same arguments |
| `Tasks.Registered` | fabric/tasks.py:37 | after a registration the task's name maps to that task, and every other name is present or absent and maps as before |
| `Tasks.Unregistered` | fabric/tasks.py:43-44 | after an unregistration the task's name is absent, every other entry is as before, and an absent name leaves the dictionary equal to the old one |
| `Tasks.Lookup` | fabric/tasks.py:56 | the lookup succeeds if and only if the name is a key, it then returns that key's task, and otherwise it fails with `KeyError` for that name |
| `Tasks.Pairs` | fabric/tasks.py:50 | every pair `all()` returns is a name with the task a lookup finds under it, every entry appears as a pair, and an empty registry gives no pairs |
| `Tasks.PairsOnePerName` | fabric/tasks.py:50 | `all()` returns as many pairs as there are registered names, so there is one pair per name |
| `Tasks.RegisteredSize` | fabric/tasks.py:37 | registering keeps the entry count for a name already present and adds one for a new name |
| `Tasks.UnregisteredSize` | fabric/tasks.py:43-44 | unregistering removes one entry for a present name and none for an absent one |
| `Tasks.RegisterThenLookup` | fabric/tasks.py:34-37 | after `register(t)`, a lookup of `t.name` returns `t` and a lookup of any other name returns what it returned before |
| `Tasks.UnregisterThenLookup` | fabric/tasks.py:40-44 | after `unregister(t)`, a lookup of `t.name` fails with `KeyError` and a lookup of any other name returns what it returned before |
| `Tasks.UnregisterIdempotent` | fabric/tasks.py:43-44 | unregistering a name a second time, through the same task or another of that name, changes nothing |
| `Tasks.SameNameLaterWins` | fabric/tasks.py:37 | of two tasks with one name, a lookup finds the later one, and the second registration does not add an entry |
| `Tasks.UntouchedKeepsLookup` | fabric/tasks.py:34-44 | registrations and removals of other names never change what a lookup of a name returns |
| `Tasks.EveryNameDecided` | fabric/tasks.py:53-56 | every name is either untouched by the history or has a last event about it, so the history decides every lookup |
| `Tasks.LastWriteWins` | fabric/tasks.py:34-56 | after any sequence of registrations and removals, a lookup finds the task of the last event about that name when it was a registration, and fails with `KeyError` when it was a removal |
| `Tasks.DefaultNamesCollide` | fabric/tasks.py:16-22 | two tasks that keep the default name are different objects, only the later one is found under `'undefined'`, and the registry holds one entry for that name |
| `Tasks.WrapThenCall` | fabric/tasks.py:68-78 | a wrapped callable can be found under its own name, and calling the task found returns the callable's outcome |
| `Tasks.UnregisterTwice` | fabric/tasks.py:40-44 | unregistering twice is not an error, has the effect of unregistering once, and afterwards the lookup fails with `KeyError` |

## Left out

- `__getattr__` forwarding of attribute lookups to the wrapped callable (fabric/tasks.py:80-81) is Python's dynamic attribute lookup. Dafny has no counterpart. The wrapped callable is available explicitly as `body.callable`.
- Python's `*args` and `**kwargs` are one argument value of type `A`. What the callable does with them is a function value whose behaviour this file does not define.
- `all()` returns the set of pairs. Python 2's `items()` returns a list snapshot in no particular order, so only the order is dropped.
- Where the dictionary lives is not modelled. The source stores it as a class attribute found with `hasattr`, and the model uses one explicit `Registry` object. One consequence: calling a class method through a subclass before `Task` has a dictionary would give that subclass its own, separate dictionary. The model always uses the single registry.
- `use_task_objects` is a constant `true` field and nothing more. The driver that reads it is not part of this model.
- `Tasks.Task.constructor` models only subclasses that do not override `run`. A subclass's own `run` is code outside this file.
- `Tasks.Task.Wrap` accepts only callables that have a `__name__`. A callable without one, such as a `functools.partial` object, makes the source's constructor raise `AttributeError` before it registers anything. That path is not modelled.
- `Tasks.Task.Run` for a base task does not model arity. The source's base `run` takes no arguments, so calling it with arguments raises a Python `TypeError` instead of `NotImplementedError`. The model's single argument value cannot tell an empty call from a non-empty one.
- `Tasks.Task.constructor` and `Tasks.Task.Wrap` make `name` a constant. In Python, `name` is an ordinary attribute, and `register` and `unregister` read its current value. Renaming a task after registration would leave its old entry behind; the model cannot express that.
- The wrapped callable is a pure, total function value. A callable that registers or unregisters tasks, or has any other effect, cannot be expressed; only its returned value or raised error is modelled.
- `Tasks.Task.Call` requires a wrapper. Only `WrappedCallableTask` defines `__call__`, and calling a base `Task` object is a Python `TypeError` outside this file.
- The unused `functools.wraps` import (fabric/tasks.py:1) has no behaviour.
- The script loader, the command-line driver and the remote execution engine that use the registry are not part of this model.
