/**
 * Fabric's task registry and callable-wrapping adapter (fabric/tasks.py).
 *
 * `Task` keeps one dictionary from task name to task object; every task
 * registers itself when it is constructed, a later task with the same name
 * replaces an earlier one, and the command-line driver enumerates the
 * dictionary or looks a task up by name.  `WrappedCallableTask` turns a
 * plain callable into such a task and forwards calls to it.
 *
 * The class-level dictionary of the source is one explicit `Registry`
 * object here, handed to the task constructors.  Arguments of a call are
 * one value of type `A`, the callable's return value one value of type `R`.
 */
module Tasks {

  datatype Option<+T> = None | Some(value: T)

  /** The exceptions an operation of this core can end with. */
  datatype Error =
    | KeyError(key: string)          // get_by_name of a name that is not registered
    | NotImplementedError            // run of a Task that does not override it
    | Raised(description: string)    // whatever a wrapped callable raises, passed on unchanged

  datatype Result<+T> = Ok(value: T) | Err(error: Error)

  /** A Python callable as the adapter sees it: its __name__, its __doc__
      (None when it has no docstring) and what calling it does. */
  datatype Callable<!A, R> = Callable(name: string, doc: Option<string>, fn: A -> Result<R>)

  /** What `run` does: the base class's, or the wrapped callable's. */
  datatype Body<!A, R> = Unimplemented | Wraps(callable: Callable<A, R>)

  /** The class attribute `name` of a Task subclass that does not set its own. */
  const DefaultName: string := "undefined"

  /** A task: a named, invokable unit the driver can find in the registry. */
  class Task<A, R> {
    const name: string
    const doc: Option<string>
    const body: Body<A, R>
    /** Marks the object as a new-style task for the driver; always true. */
    const useTaskObjects: bool := true

    /** Task.__init__ for an instance of a subclass whose class attributes
        are `name` (DefaultName when it leaves the attribute alone) and
        `doc`, and that does not override `run`: the new task registers
        itself. */
    constructor (registry: Registry<A, R>, name: string, doc: Option<string>)
      requires registry.Valid()
      modifies registry
      ensures this.name == name && this.doc == doc && body == Unimplemented
      ensures registry.Valid()
      ensures registry.Entries() == Registered(old(registry.Entries()), this)
      ensures registry.history == old(registry.history) + [Add(this)]
    {
      this.name := name;
      this.doc := doc;
      body := Unimplemented;
      new;
      registry.Register(this);
    }

    /** WrappedCallableTask.__init__: adopt the callable's name and
        documentation, keep the callable, then register. */
    constructor Wrap(registry: Registry<A, R>, f: Callable<A, R>)
      requires registry.Valid()
      modifies registry
      ensures name == f.name && doc == f.doc && body == Wraps(f)
      ensures registry.Valid()
      ensures registry.Entries() == Registered(old(registry.Entries()), this)
      ensures registry.history == old(registry.history) + [Add(this)]
    {
      name := f.name;
      doc := f.doc;
      body := Wraps(f);
      new;
      registry.Register(this);
    }

    /** `run`: the base class raises NotImplementedError; a wrapper passes
        the arguments to the callable and returns (or raises) what it does. */
    method Run(args: A) returns (r: Result<R>)
      ensures body.Unimplemented? ==> r == Err(NotImplementedError)
      ensures body.Wraps? ==> r == body.callable.fn(args)
    {
      match body
      case Unimplemented =>
        r := Err(NotImplementedError);
      case Wraps(f) =>
        r := f.fn(args);
    }

    /** WrappedCallableTask.__call__, which only a wrapper has: calling the
        task is calling the wrapped callable. */
    method Call(args: A) returns (r: Result<R>)
      requires body.Wraps?
      ensures r == body.callable.fn(args)
    {
      r := Run(args);
    }
  }

  /** One change to the registry, as recorded in its history. */
  datatype Event<A, R> = Add(task: Task<A, R>) | Remove(task: Task<A, R>)

  /** The dictionary after `register(t)`: `t.name` now maps to `t`, every
      other entry is as before, and the table grows only for a new name. */
  function Registered<A, R>(m: map<string, Task<A, R>>, t: Task<A, R>): (r: map<string, Task<A, R>>)
    ensures t.name in r && r[t.name] == t
    ensures forall n :: n != t.name ==> (n in r <==> n in m)
    ensures forall n :: n != t.name && n in m ==> r[n] == m[n]
  {
    m[t.name := t]
  }

  /** The dictionary after `unregister(t)`: `t.name` is gone, every other
      entry is as before, and an absent name leaves the table as it was. */
  function Unregistered<A, R>(m: map<string, Task<A, R>>, t: Task<A, R>): (r: map<string, Task<A, R>>)
    ensures t.name !in r
    ensures forall n :: n != t.name ==> (n in r <==> n in m)
    ensures forall n :: n in r ==> r[n] == m[n]
    ensures t.name !in m ==> r == m
  {
    m - {t.name}
  }

  /** `get_by_name(n)` on the dictionary `m`. */
  function Lookup<A, R>(m: map<string, Task<A, R>>, n: string): (r: Result<Task<A, R>>)
    ensures r.Ok? <==> n in m
    ensures r.Ok? ==> r.value == m[n]
    ensures r.Err? ==> r.error == KeyError(n)
  {
    if n in m then Ok(m[n]) else Err(KeyError(n))
  }

  /** The (name, task) pairs that `all()` returns: exactly the entries. */
  function Pairs<A, R>(m: map<string, Task<A, R>>): (r: set<(string, Task<A, R>)>)
    ensures forall p :: p in r ==> Lookup(m, p.0) == Ok(p.1)
    ensures forall n :: n in m ==> (n, m[n]) in r
    ensures m == map[] ==> r == {}
  {
    set n | n in m :: (n, m[n])
  }

  /** `all()` holds one pair per registered name and no other pair. */
  lemma {:induction false} PairsOnePerName<A, R>(m: map<string, Task<A, R>>)
    ensures |Pairs(m)| == |m|
    decreases |m|
  {
    if m != map[] {
      var k :| k in m;
      var rest := m - {k};
      PairsOnePerName(rest);
      var p, q := Pairs(m), Pairs(rest);
      forall x | x in p ensures x in q + {(k, m[k])} {
        if x.0 != k {
          assert x.0 in rest;
        }
      }
      forall x | x in q ensures x in p && x != (k, m[k]) {
      }
      assert p == q + {(k, m[k])};
      assert |m| == |rest| + 1 by {
        assert m.Keys == rest.Keys + {k};
      }
    }
  }

  /** `register` keeps the number of entries for a name already present
      and adds one for a new name. */
  lemma RegisteredSize<A, R>(m: map<string, Task<A, R>>, t: Task<A, R>)
    ensures |Registered(m, t)| == if t.name in m then |m| else |m| + 1
  {
  }

  /** `unregister` drops one entry for a present name and none otherwise. */
  lemma UnregisteredSize<A, R>(m: map<string, Task<A, R>>, t: Task<A, R>)
    ensures |Unregistered(m, t)| == if t.name in m then |m| - 1 else |m|
  {
  }

  /** Looking up after `register(t)` finds `t` under its name and finds
      everything else as before. */
  lemma RegisterThenLookup<A, R>(m: map<string, Task<A, R>>, t: Task<A, R>, n: string)
    ensures Lookup(Registered(m, t), n) == if n == t.name then Ok(t) else Lookup(m, n)
  {
  }

  /** Looking up after `unregister(t)` fails with KeyError under `t.name`
      and finds everything else as before. */
  lemma UnregisterThenLookup<A, R>(m: map<string, Task<A, R>>, t: Task<A, R>, n: string)
    ensures Lookup(Unregistered(m, t), n) == if n == t.name then Err(KeyError(n)) else Lookup(m, n)
  {
  }

  /** Unregistering twice (by the same task or another of the same name) is
      the same as unregistering once. */
  lemma UnregisterIdempotent<A, R>(m: map<string, Task<A, R>>, t: Task<A, R>, u: Task<A, R>)
    requires u.name == t.name
    ensures Unregistered(Unregistered(m, t), u) == Unregistered(m, t)
  {
  }

  /** Two tasks of one name leave only the later in the table, once. */
  lemma SameNameLaterWins<A, R>(m: map<string, Task<A, R>>, a: Task<A, R>, b: Task<A, R>)
    requires a.name == b.name
    ensures Lookup(Registered(Registered(m, a), b), b.name) == Ok(b)
    ensures |Registered(Registered(m, a), b)| == |Registered(m, a)|
  {
    RegisteredSize(Registered(m, a), b);
  }

  /** The dictionary after one recorded change. */
  function Apply<A, R>(m: map<string, Task<A, R>>, e: Event<A, R>): (r: map<string, Task<A, R>>)
  {
    match e
    case Add(t) => Registered(m, t)
    case Remove(t) => Unregistered(m, t)
  }

  /** The dictionary after a sequence of changes, oldest first. */
  ghost function Replay<A, R>(m: map<string, Task<A, R>>, es: seq<Event<A, R>>): (r: map<string, Task<A, R>>)
    decreases |es|
  {
    if es == [] then m else Apply(Replay(m, es[..|es| - 1]), es[|es| - 1])
  }

  /** Event `i` is the last one in `es` about name `n`. */
  ghost predicate LastTouch<A, R>(es: seq<Event<A, R>>, i: int, n: string)
  {
    0 <= i < |es| && es[i].task.name == n &&
    forall j :: i < j < |es| ==> es[j].task.name != n
  }

  /** No event in `es` is about name `n`. */
  ghost predicate Untouched<A, R>(es: seq<Event<A, R>>, n: string)
  {
    forall j :: 0 <= j < |es| ==> es[j].task.name != n
  }

  /** What a lookup of `n` finds right after event `e` about `n`. */
  function Outcome<A, R>(e: Event<A, R>, n: string): (r: Result<Task<A, R>>)
  {
    match e
    case Add(t) => Ok(t)
    case Remove(_) => Err(KeyError(n))
  }

  /** A lookup of `n` is unaffected by events about other names. */
  lemma {:induction false} UntouchedKeepsLookup<A, R>(m: map<string, Task<A, R>>, es: seq<Event<A, R>>, n: string)
    requires Untouched(es, n)
    ensures Lookup(Replay(m, es), n) == Lookup(m, n)
    decreases |es|
  {
    if es != [] {
      var k := |es| - 1;
      var prefix := es[..k];
      forall j | 0 <= j < |prefix| ensures prefix[j].task.name != n {
        assert prefix[j] == es[j];
      }
      UntouchedKeepsLookup(m, prefix, n);
      assert es[k].task.name != n;
      match es[k]
      case Add(t) =>
        RegisterThenLookup(Replay(m, prefix), t, n);
      case Remove(t) =>
        UnregisterThenLookup(Replay(m, prefix), t, n);
    }
  }

  /** Last write wins: after any sequence of registrations and removals, a
      lookup of `n` finds the task of the last event about `n` when that
      event registered it, and fails with KeyError when it removed it. */
  lemma {:induction false} LastWriteWins<A, R>(m: map<string, Task<A, R>>, es: seq<Event<A, R>>, i: int, n: string)
    requires LastTouch(es, i, n)
    ensures Lookup(Replay(m, es), n) == Outcome(es[i], n)
  {
    var prefix, suffix := es[..i + 1], es[i + 1..];
    forall j | 0 <= j < |suffix| ensures suffix[j].task.name != n {
      assert suffix[j] == es[i + 1 + j];
    }
    assert prefix + suffix == es;
    ReplayConcat(m, prefix, suffix);
    UntouchedKeepsLookup(Replay(m, prefix), suffix, n);
    assert prefix[..i] == es[..i] && prefix[i] == es[i];
    assert Replay(m, prefix) == Apply(Replay(m, es[..i]), es[i]);
    match es[i]
    case Add(t) =>
      RegisterThenLookup(Replay(m, es[..i]), t, n);
    case Remove(t) =>
      UnregisterThenLookup(Replay(m, es[..i]), t, n);
  }

  /** Replaying two runs of events one after the other is replaying their
      concatenation. */
  lemma {:induction false} ReplayConcat<A, R>(m: map<string, Task<A, R>>, xs: seq<Event<A, R>>, ys: seq<Event<A, R>>)
    ensures Replay(m, xs + ys) == Replay(Replay(m, xs), ys)
    decreases |ys|
  {
    if ys == [] {
      assert xs + ys == xs;
    } else {
      var k := |ys| - 1;
      var zs := xs + ys;
      ReplayConcat(m, xs, ys[..k]);
      assert zs[..|zs| - 1] == xs + ys[..k] && zs[|zs| - 1] == ys[k];
    }
  }

  /** A name that some event is about has a last such event (used by
      `EveryNameDecided`). */
  lemma {:induction false} SomeLastTouch<A, R>(es: seq<Event<A, R>>, n: string)
    requires !Untouched(es, n)
    ensures exists i :: LastTouch(es, i, n)
    decreases |es|
  {
    var k := |es| - 1;
    if es[k].task.name == n {
      assert LastTouch(es, k, n);
    } else {
      var prefix := es[..k];
      var j :| 0 <= j < |es| && es[j].task.name == n;
      assert j < k && prefix[j] == es[j];
      SomeLastTouch(prefix, n);
      var i :| LastTouch(prefix, i, n);
      assert LastTouch(es, i, n);
    }
  }

  /** Every name is either untouched by a history or has a last event in
      it, so the two history clauses of `Registry.GetByName` together
      decide the lookup of every name. */
  lemma EveryNameDecided<A, R>(es: seq<Event<A, R>>, n: string)
    ensures Untouched(es, n) || exists i :: LastTouch(es, i, n)
  {
    if !Untouched(es, n) {
      SomeLastTouch(es, n);
    }
  }

  /** The task registry: Task._registry and the class methods over it. */
  class Registry<A, R> {
    /** Task._registry: None until _init_task_registry has created it. */
    var table: Option<map<string, Task<A, R>>>
    /** Every register and unregister so far, oldest first. */
    ghost var history: seq<Event<A, R>>

    ghost predicate Valid()
      reads this
    {
      (table.None? ==> history == []) &&
      Entries() == Replay(map[], history)
    }

    /** The registered entries; conceptually empty before the dictionary exists. */
    function Entries(): (r: map<string, Task<A, R>>)
      reads this
    {
      if table.Some? then table.value else map[]
    }

    /** A registry nothing has used yet: no dictionary exists. */
    constructor ()
      ensures Valid() && table == None && history == []
      ensures Entries() == map[]
    {
      table := None;
      history := [];
    }

    /** _init_task_registry: create the dictionary if there is none; an
        existing one is neither replaced nor cleared. */
    method InitTaskRegistry()
      requires Valid()
      modifies this
      ensures Valid() && table.Some?
      ensures old(table).Some? ==> table == old(table)
      ensures Entries() == old(Entries()) && history == old(history)
    {
      if table.None? {
        table := Some(map[]);
      }
    }

    /** register: the entry under `t.name` becomes `t` (last write wins). */
    method Register(t: Task<A, R>)
      requires Valid()
      modifies this
      ensures Valid() && table.Some?
      ensures Entries() == Registered(old(Entries()), t)
      ensures history == old(history) + [Add(t)]
    {
      InitTaskRegistry();
      table := Some(table.value[t.name := t]);
      ghost var h := history + [Add(t)];
      assert h[..|h| - 1] == history;
      history := h;
    }

    /** unregister: remove the entry under `t.name` when there is one;
        nothing happens otherwise. */
    method Unregister(t: Task<A, R>)
      requires Valid()
      modifies this
      ensures Valid() && table.Some?
      ensures Entries() == Unregistered(old(Entries()), t)
      ensures t.name !in old(Entries()) ==> Entries() == old(Entries())
      ensures history == old(history) + [Remove(t)]
    {
      InitTaskRegistry();
      if t.name in table.value {
        table := Some(table.value - {t.name});
      }
      ghost var h := history + [Remove(t)];
      assert h[..|h| - 1] == history;
      history := h;
    }

    /** all: a snapshot of every (name, task) pair; never an error, empty
        before any registration. */
    method All() returns (items: set<(string, Task<A, R>)>)
      requires Valid()
      modifies this
      ensures Valid() && table.Some?
      ensures Entries() == old(Entries()) && history == old(history)
      ensures items == Pairs(Entries())
      ensures history == [] ==> items == {}
    {
      InitTaskRegistry();
      items := Pairs(table.value);
    }

    /** get_by_name: the task last registered under `name`; KeyError when
        the name was never registered or its last registration was undone. */
    method GetByName(name: string) returns (r: Result<Task<A, R>>)
      requires Valid()
      modifies this
      ensures Valid() && table.Some?
      ensures Entries() == old(Entries()) && history == old(history)
      ensures r == Lookup(Entries(), name)
      ensures Untouched(history, name) ==> r == Err(KeyError(name))
      ensures forall i :: LastTouch(history, i, name) ==> r == Outcome(history[i], name)
    {
      InitTaskRegistry();
      if Untouched(history, name) {
        UntouchedKeepsLookup(map[], history, name);
      }
      forall i | LastTouch(history, i, name) ensures Lookup(Entries(), name) == Outcome(history[i], name) {
        LastWriteWins(map[], history, i, name);
      }
      if name in table.value {
        r := Ok(table.value[name]);
      } else {
        r := Err(KeyError(name));
      }
    }
  }

  /** Two tasks that keep the default name collide: only the later one
      can be found, and the table holds one entry for the name. */
  method DefaultNamesCollide<A, R>(registry: Registry<A, R>) returns (first: Task<A, R>, second: Task<A, R>)
    requires registry.Valid()
    modifies registry
    ensures registry.Valid()
    ensures first != second && first.name == DefaultName && second.name == DefaultName
    ensures registry.Entries() == old(registry.Entries())[DefaultName := second]
    ensures Lookup(registry.Entries(), DefaultName) == Ok(second)
  {
    first := new Task(registry, DefaultName, None);
    second := new Task(registry, DefaultName, None);
    var found := registry.GetByName(DefaultName);
    assert found == Ok(second);
  }

  /** Wrapping a callable makes it findable under its own name, and the
      task found behaves as the callable does. */
  method WrapThenCall<A, R>(registry: Registry<A, R>, f: Callable<A, R>, args: A)
    returns (task: Task<A, R>, r: Result<R>)
    requires registry.Valid()
    modifies registry
    ensures registry.Valid()
    ensures task.name == f.name && task.doc == f.doc
    ensures Lookup(registry.Entries(), f.name) == Ok(task)
    ensures r == f.fn(args)
  {
    task := new Task.Wrap(registry, f);
    var found := registry.GetByName(f.name);
    r := found.value.Call(args);
  }

  /** Unregistering twice is no error, and after the first a lookup of the
      name fails with KeyError. */
  method UnregisterTwice<A, R>(registry: Registry<A, R>, t: Task<A, R>) returns (r: Result<Task<A, R>>)
    requires registry.Valid()
    modifies registry
    ensures registry.Valid()
    ensures registry.Entries() == Unregistered(old(registry.Entries()), t)
    ensures r == Err(KeyError(t.name))
  {
    registry.Unregister(t);
    ghost var once := registry.Entries();
    registry.Unregister(t);
    assert registry.Entries() == once;
    r := registry.GetByName(t.name);
  }
}
