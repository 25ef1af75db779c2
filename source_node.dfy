/**
 * The bookkeeping of dollar.internal.runtime.script.SourceNode, the handler
 * behind every node of a script: its listener registry and meta attributes,
 * the re-entrancy guard of $notify, the recursion-depth guard, the sticky
 * constraint fingerprint, and the pushing and popping of captured scopes
 * around an evaluation. The node's deferred function, the reflective method
 * call and the listeners' pipes are callbacks; what they yield is passed in.
 */
module SourceNode {
  import opened Results
  import LinkedMap

  const MAX_STACK_DEPTH: nat := 100
  const FINGERPRINT_KEY: string := "constraintFingerprint"
  const SCOPES_KEY: string := "scopes"

  /** A script value produced by evaluating a node. */
  datatype Value = Value(text: string)

  /** A listener (a Pipeable), told apart by its identity. */
  datatype Pipe = Pipe(id: nat)

  /** A scope, told apart by its identity. */
  datatype Scope = Scope(id: nat)

  /** A meta attribute: a string, or the list of scopes attached under "scopes". */
  datatype MetaValue = Text(s: string) | ScopeList(scopes: seq<Scope>)

  datatype Thrown =
    | LambdaRecursionException(depth: nat)
    | ConstraintViolation(fingerprint: string, constraintSource: string)
    | ClassCastException
    | NullPointerException       // a null key or value in the meta map
    | IndexOutOfBoundsException  // a pop from an empty scope stack
    | Failure(name: string)      // thrown by a callback

  /** How a piece of code ends: with a value, or by throwing. */
  datatype Completion<T> = Normal(value: T) | Threw(thrown: Thrown)

  /** What a node's method call returns. */
  datatype Answer = Proxy | Null | Str(s: string) | Flag(b: bool) | Meta(m: MetaValue) | Result(v: Value)

  /** What the thread observes: a node evaluated, a listener handed a value. */
  datatype Event = Executed(node: Node) | Piped(pipe: Pipe, value: Value)

  /** Which end of a scope push or pop; the log records the argument passed. */
  datatype ScopeEvent = Push(pushed: Scope) | Pop(popped: Scope)

  /** A call that reaches invokeMain, with what its callbacks yield. */
  datatype Call =
    | Unwrap
    | ConstraintFingerprint
    | GetMetaAttribute(key: string)
    | SetMetaAttribute(key: string, value: string)
    | GetMetaObject(objectKey: Option<string>)
    | SetMetaObject(objectKey: Option<string>, metaObject: Option<MetaValue>)
    | Listen(pipe: Pipe, listenKey: Option<string>, freshId: string)
    | Notify(run: Completion<Value>, order: seq<string>, failing: map<string, Thrown>)
    | Remove(removed: Value, matching: Option<string>)
    | HasErrors
    | Copy
    | Dispatch(executed: Completion<Option<Value>>, invoked: Completion<Answer>)

  // ------------------------------------------------------------ specification

  /** list.remove(x): the list without the first element equal to x. */
  function RemoveFirst<T(==)>(s: seq<T>, x: T): (r: seq<T>)
    ensures x !in s ==> r == s
    ensures x in s ==> |r| == |s| - 1
    ensures forall y :: y in r ==> y in s
  {
    if |s| == 0 then []
    else if s[0] == x then s[1..]
    else [s[0]] + RemoveFirst(s[1..], x)
  }

  /** Removing an element pushed onto a list that did not hold it gives the list back. */
  lemma {:induction false} RemovePushed<T>(s: seq<T>, x: T)
    requires x !in s
    ensures RemoveFirst(s + [x], x) == s
  {
    if |s| > 0 {
      assert (s + [x])[1..] == s[1..] + [x];
      RemovePushed(s[1..], x);
    }
  }

  /** The events of handing v to the listeners under the given keys, in that order. */
  function PipedEvents(listeners: map<string, Pipe>, keys: seq<string>, v: Value): (r: seq<Event>)
    requires forall k :: k in keys ==> k in listeners
    ensures |r| == |keys|
    ensures forall i :: 0 <= i < |keys| ==> r[i] == Piped(listeners[keys[i]], v)
  {
    if |keys| == 0 then [] else PipedEvents(listeners, keys[..|keys| - 1], v) + [Piped(listeners[keys[|keys| - 1]], v)]
  }

  /**
   * The position in the order of the first listener whose pipe throws (the
   * keys in `failing`), or the length of the order when none does.
   */
  function FirstFailing(order: seq<string>, failing: map<string, Thrown>): (i: nat)
    ensures i <= |order|
    ensures forall j :: 0 <= j < i ==> order[j] !in failing
    ensures i < |order| ==> order[i] in failing
  {
    if |order| == 0 then 0
    else if order[0] in failing then 0
    else
      var rest := FirstFailing(order[1..], failing);
      assert forall j :: 1 <= j < rest + 1 ==> order[j] == order[1..][j - 1];
      1 + rest
  }

  /** How many listeners of the order are handed the value: all, or up to and including the first that throws. */
  function Reached(order: seq<string>, failing: map<string, Thrown>): (n: nat)
    ensures n <= |order|
  {
    var i := FirstFailing(order, failing);
    if i < |order| then i + 1 else i
  }

  /** An iteration order of the registry: every key exactly once. */
  ghost predicate Enumerates(order: seq<string>, keys: set<string>)
  {
    (forall k :: k in order <==> k in keys)
    && (forall i, j :: 0 <= i < j < |order| ==> order[i] != order[j])
  }

  /** When the order enumerates the registry, every listener is handed the value exactly once. */
  lemma EveryListenerOnce(listeners: map<string, Pipe>, order: seq<string>, v: Value, k: string)
    requires Enumerates(order, listeners.Keys)
    requires k in listeners
    ensures exists i :: 0 <= i < |order| && order[i] == k
              && PipedEvents(listeners, order, v)[i] == Piped(listeners[k], v)
    ensures forall i, j :: 0 <= i < |order| && 0 <= j < |order| && order[i] == k && order[j] == k ==> i == j
  {
    var i :| 0 <= i < |order| && order[i] == k;
    assert PipedEvents(listeners, order, v)[i] == Piped(listeners[k], v);
  }

  /**
   * _constrain on the meta attributes: without a constraint or its source
   * the value passes untouched; the first constraint source is recorded as
   * the fingerprint and the same source passes again; a different one is a
   * violation.
   */
  function Constrain(meta: map<string, MetaValue>, hasConstraint: bool, constraintSource: Option<string>)
    : (r: Result<map<string, MetaValue>, Thrown>)
    ensures !hasConstraint || constraintSource.None? ==> r == Ok(meta)
    ensures r.Ok? ==> forall k :: k != FINGERPRINT_KEY ==> (k in r.value <==> k in meta) && (k in meta ==> r.value[k] == meta[k])
    ensures r.Ok? && hasConstraint && constraintSource.Some? ==>
              FINGERPRINT_KEY in r.value && r.value[FINGERPRINT_KEY] == Text(constraintSource.value)
              && (FINGERPRINT_KEY !in meta || meta[FINGERPRINT_KEY] == Text(constraintSource.value))
    ensures r.Err? ==> hasConstraint && constraintSource.Some? && FINGERPRINT_KEY in meta
    ensures r.Err? && meta[FINGERPRINT_KEY].Text? ==>
              r.error == ConstraintViolation(meta[FINGERPRINT_KEY].s, constraintSource.value)
              && meta[FINGERPRINT_KEY].s != constraintSource.value
  {
    if !hasConstraint || constraintSource.None? then Ok(meta)
    else if FINGERPRINT_KEY !in meta then Ok(meta[FINGERPRINT_KEY := Text(constraintSource.value)])
    else match meta[FINGERPRINT_KEY]
      case ScopeList(_) => Err(ClassCastException)
      case Text(fp) =>
        if constraintSource.value == fp then Ok(meta[FINGERPRINT_KEY := Text(fp)])
        else Err(ConstraintViolation(fp, constraintSource.value))
  }

  /** String.valueOf of a nullable string: null prints as "null". */
  function ValueOf(s: Option<string>): string
  {
    if s.Some? then s.value else "null"
  }

  /** The fingerprint is sticky: once recorded, only the same constraint source passes. */
  lemma FingerprintSticky(meta: map<string, MetaValue>, first: string, second: string)
    requires Constrain(meta, true, Some(first)).Ok?
    ensures var after := Constrain(meta, true, Some(first)).value;
            Constrain(after, true, Some(second)).Ok? <==> second == first
  {
  }

  /** The log of pushing each scope of the list, in order. */
  function Pushes(list: seq<Scope>): (r: seq<ScopeEvent>)
    ensures |r| == |list| && forall i :: 0 <= i < |list| ==> r[i] == Push(list[i])
  {
    if |list| == 0 then [] else [Push(list[0])] + Pushes(list[1..])
  }

  /** How many of n pops find a scope on a stack of the given height. */
  function PopCount(n: nat, height: nat): (k: nat)
    ensures k <= n && k <= height && (k == n || k == height)
  {
    if n <= height then n else height
  }

  /** The log of popping each scope of the list, in order. */
  function Pops(list: seq<Scope>): (r: seq<ScopeEvent>)
    ensures |r| == |list| && forall i :: 0 <= i < |list| ==> r[i] == Pop(list[i])
  {
    if |list| == 0 then [] else [Pop(list[0])] + Pops(list[1..])
  }

  // ------------------------------------------------------------- thread state

  /** The thread-local state the nodes share: the two node stacks, the scope stack and what was observed. */
  class ThreadState {
    var stack: seq<Node>
    var notifyStack: seq<Node>
    var scopes: seq<Scope>
    var scopeLog: seq<ScopeEvent>
    var log: seq<Event>

    /** withInitial(ArrayList::new): both node stacks start empty. */
    constructor(scopes: seq<Scope>)
      ensures stack == [] && notifyStack == [] && this.scopes == scopes && scopeLog == [] && log == []
    {
      stack := [];
      notifyStack := [];
      this.scopes := scopes;
      scopeLog := [];
      log := [];
    }

    /** pushScope of each scope of the list, in order. */
    method PushScopes(list: seq<Scope>)
      modifies this
      ensures scopes == old(scopes) + list
      ensures scopeLog == old(scopeLog) + Pushes(list)
      ensures stack == old(stack) && notifyStack == old(notifyStack) && log == old(log)
    {
      var i := 0;
      while i < |list|
        invariant 0 <= i <= |list|
        invariant scopes == old(scopes) + list[..i]
        invariant scopeLog == old(scopeLog) + Pushes(list[..i])
        invariant stack == old(stack) && notifyStack == old(notifyStack) && log == old(log)
      {
        assert list[..i + 1] == list[..i] + [list[i]];
        assert Pushes(list[..i + 1]) == Pushes(list[..i]) + [Push(list[i])];
        scopes := scopes + [list[i]];
        scopeLog := scopeLog + [Push(list[i])];
        i := i + 1;
      }
      assert list[..i] == list;
    }

    /**
     * popScope of each scope of the list, in order. Each pop removes the top
     * of the scope stack, whichever scope that is; once the stack is empty
     * the next pop throws and no more are made. `removed` is what the pops
     * took off, in order (see PopsFindTheirOwn).
     */
    method PopScopes(list: seq<Scope>) returns (removed: seq<Scope>)
      modifies this
      ensures |removed| == PopCount(|list|, |old(scopes)|)
      ensures scopes == old(scopes)[..|old(scopes)| - |removed|]
      ensures removed == LinkedMap.Reverse(old(scopes)[|old(scopes)| - |removed|..])
      ensures scopeLog == old(scopeLog) + Pops(list[..|removed|])
      ensures stack == old(stack) && notifyStack == old(notifyStack) && log == old(log)
    {
      ghost var start := scopes;
      ghost var n := |start|;
      removed := [];
      var i := 0;
      while i < |list| && |scopes| > 0
        invariant 0 <= i <= |list| && i <= n
        invariant |removed| == i
        invariant scopes == start[..n - i]
        invariant removed == LinkedMap.Reverse(start[n - i..])
        invariant scopeLog == old(scopeLog) + Pops(list[..i])
        invariant stack == old(stack) && notifyStack == old(notifyStack) && log == old(log)
      {
        PopStep(start, i);
        PopsSnoc(list, i);
        removed := removed + [scopes[|scopes| - 1]];
        scopes := scopes[..|scopes| - 1];
        scopeLog := scopeLog + [Pop(list[i])];
        i := i + 1;
      }
    }

    /**
     * Push the list, run the body on the resulting stack, and in `finally`
     * pop the list in reverse: the shape every evaluation that attaches
     * scopes shares. `body` maps the scope stack it starts with to how it
     * ends and the stack it leaves. A pop from an empty stack throws
     * IndexOutOfBoundsException, which replaces the body's completion. A
     * body that leaves the stack as it found it has it restored; any other
     * has the top entries popped, whichever scopes they are.
     */
    method Enclose<V>(list: seq<Scope>, body: seq<Scope> -> (Completion<V>, seq<Scope>)) returns (out: Completion<V>)
      modifies this
      ensures var (done, left) := body(old(scopes) + list);
              var popped := PopCount(|list|, |left|);
              scopes == left[..|left| - popped]
              && out == (if popped < |list| then Threw(IndexOutOfBoundsException) else done)
              && scopeLog == old(scopeLog) + Pushes(list) + Pops(LinkedMap.Reverse(list)[..popped])
      ensures var (done, left) := body(old(scopes) + list);
              left == old(scopes) + list ==> scopes == old(scopes) && out == done
      ensures stack == old(stack) && notifyStack == old(notifyStack) && log == old(log)
    {
      PushScopes(list);
      var (done, left) := body(scopes);
      scopes := left;
      var removed := PopScopes(LinkedMap.Reverse(list));
      out := if |removed| < |list| then Threw(IndexOutOfBoundsException) else done;
      if left == old(scopes) + list {
        assert scopes == (old(scopes) + list)[..|old(scopes)|];
      }
    }
  }

  /**
   * When the stack ends with the reverse of the list, every pop of the list
   * finds its own scope on top: what PopScopes removes is the list itself.
   */
  lemma PopsFindTheirOwn(stack: seq<Scope>, list: seq<Scope>)
    requires |stack| >= |list| && stack[|stack| - |list|..] == LinkedMap.Reverse(list)
    ensures PopCount(|list|, |stack|) == |list|
    ensures LinkedMap.Reverse(stack[|stack| - |list|..]) == list
  {
    LinkedMap.ReverseTwice(list);
  }

  /**
   * One more pop takes the next scope down: the stack loses it, and the
   * removed scopes stay the top of the original stack read backwards.
   */
  lemma PopStep(stack: seq<Scope>, i: nat)
    requires i < |stack|
    ensures var rest := stack[..|stack| - i];
            rest[|rest| - 1] == stack[|stack| - i - 1] && rest[..|rest| - 1] == stack[..|stack| - (i + 1)]
    ensures LinkedMap.Reverse(stack[|stack| - (i + 1)..])
            == LinkedMap.Reverse(stack[|stack| - i..]) + [stack[|stack| - i - 1]]
  {
    var top := stack[|stack| - i - 1..];
    assert top[1..] == stack[|stack| - i..];
  }

  lemma PopsSnoc(list: seq<Scope>, i: nat)
    requires i < |list|
    ensures Pops(list[..i + 1]) == Pops(list[..i]) + [Pop(list[i])]
  {
    assert list[..i + 1] == list[..i] + [list[i]];
  }

  // ------------------------------------------------------------- the closure

  /**
   * The scope-closure wrapper: the scopes current when the node's function
   * was piped, captured in a list that every evaluation of the wrapping node
   * pushes in order before the function and pops, reversed, afterwards. The
   * list is reversed in place.
   */
  class ScopeClosure {
    var attached: seq<Scope>

    constructor(captured: seq<Scope>)
      ensures attached == captured
    {
      attached := captured;
    }

    /**
     * One evaluation as written: push the list, run the function (`body`,
     * over the scope stack), then in `finally` reverse the list in place and
     * pop it in its new order. The next evaluation finds the list reversed.
     */
    method RunAsWritten(t: ThreadState, body: seq<Scope> -> (Completion<Value>, seq<Scope>))
      returns (out: Completion<Value>)
      modifies this, t
      ensures attached == LinkedMap.Reverse(old(attached))
      ensures var (done, left) := body(old(t.scopes) + old(attached));
              var popped := PopCount(|attached|, |left|);
              t.scopes == left[..|left| - popped]
              && out == (if popped < |attached| then Threw(IndexOutOfBoundsException) else done)
              && t.scopeLog == old(t.scopeLog) + Pushes(old(attached)) + Pops(attached[..popped])
      ensures var (done, left) := body(old(t.scopes) + old(attached));
              left == old(t.scopes) + old(attached) ==> t.scopes == old(t.scopes) && out == done
      ensures t.stack == old(t.stack) && t.notifyStack == old(t.notifyStack) && t.log == old(t.log)
    {
      out := t.Enclose(attached, body);
      attached := LinkedMap.Reverse(attached);
    }

    /**
     * One evaluation as intended: the same pushes and pops, the pops walking
     * the list backwards instead of reversing it, so every evaluation pushes
     * the scopes in the order they were captured.
     */
    method Run(t: ThreadState, body: seq<Scope> -> (Completion<Value>, seq<Scope>)) returns (out: Completion<Value>)
      modifies t
      ensures var (done, left) := body(old(t.scopes) + attached);
              var popped := PopCount(|attached|, |left|);
              t.scopes == left[..|left| - popped]
              && out == (if popped < |attached| then Threw(IndexOutOfBoundsException) else done)
              && t.scopeLog == old(t.scopeLog) + Pushes(attached) + Pops(LinkedMap.Reverse(attached)[..popped])
      ensures var (done, left) := body(old(t.scopes) + attached);
              left == old(t.scopes) + attached ==> t.scopes == old(t.scopes) && out == done
      ensures t.stack == old(t.stack) && t.notifyStack == old(t.notifyStack) && t.log == old(t.log)
    {
      out := t.Enclose(attached, body);
    }
  }

  /** A body that ends as `done` and leaves the scope stack as it found it. */
  function Balanced(done: Completion<Value>): seq<Scope> -> (Completion<Value>, seq<Scope>)
  {
    (st: seq<Scope>) => (done, st)
  }

  /**
   * Evaluating a closure over two scopes twice as written: the second
   * evaluation pushes them in the opposite order, so during the function the
   * innermost scope is the one captured first.
   */
  method SecondRunAsWritten(t: ThreadState, a: Scope, b: Scope, done: Completion<Value>)
    returns (secondPushes: seq<ScopeEvent>)
    requires a != b
    modifies t
    ensures secondPushes == [Push(b), Push(a)]
    ensures secondPushes != Pushes([a, b])
  {
    var c := new ScopeClosure([a, b]);
    var _ := c.RunAsWritten(t, Balanced(done));
    var log := t.scopeLog;
    var _ := c.RunAsWritten(t, Balanced(done));
    assert LinkedMap.Reverse([a, b]) == [b, a];
    secondPushes := t.scopeLog[|log|..|log| + 2];
    assert t.scopeLog == log + Pushes([b, a]) + Pops(LinkedMap.Reverse([b, a])[..2]);
  }

  /** The intended closure pushes the same order on every evaluation. */
  method SecondRun(t: ThreadState, a: Scope, b: Scope, done: Completion<Value>)
    returns (secondPushes: seq<ScopeEvent>)
    modifies t
    ensures secondPushes == [Push(a), Push(b)]
    ensures secondPushes == Pushes([a, b])
  {
    var c := new ScopeClosure([a, b]);
    var _ := c.Run(t, Balanced(done));
    var log := t.scopeLog;
    var _ := c.Run(t, Balanced(done));
    secondPushes := t.scopeLog[|log|..|log| + 2];
    assert t.scopeLog == log + Pushes([a, b]) + Pops(LinkedMap.Reverse([a, b])[..2]);
  }

  /**
   * The pops do not check what they remove: a function that leaves one
   * scope of its own on the stack has that scope and the last captured one
   * popped, and the first captured scope stays behind.
   */
  method UnbalancedClosure(t: ThreadState, a: Scope, b: Scope, extra: Scope, done: Completion<Value>)
    returns (out: Completion<Value>)
    modifies t
    ensures out == done
    ensures t.scopes == old(t.scopes) + [a]
    ensures t.scopeLog == old(t.scopeLog) + [Push(a), Push(b), Pop(b), Pop(a)]
  {
    var c := new ScopeClosure([a, b]);
    var leavesOne := (st: seq<Scope>) => (done, st + [extra]);
    out := c.Run(t, leavesOne);
    assert (old(t.scopes) + [a, b] + [extra])[..|old(t.scopes)| + 1] == old(t.scopes) + [a];
    assert LinkedMap.Reverse([a, b]) == [b, a];
  }

  /**
   * A function that pops one scope more than it pushed empties a stack that
   * held only the captured scope, and the closure's own pop then throws.
   */
  method OverPoppingClosure(t: ThreadState, a: Scope, done: Completion<Value>)
    returns (out: Completion<Value>)
    requires t.scopes == []
    modifies t
    ensures out == Threw(IndexOutOfBoundsException)
    ensures t.scopes == []
  {
    var c := new ScopeClosure([a]);
    var popsOne := (st: seq<Scope>) => (done, if |st| == 0 then st else st[..|st| - 1]);
    out := c.Run(t, popsOne);
  }

  // ------------------------------------------------------------------- the node

  class Node {
    var listeners: map<string, Pipe>
    var meta: map<string, MetaValue>
    const operation: string
    const id: string

    /** The constructor records the operation and the id as meta attributes; no listeners yet. */
    constructor(operation: string, id: string)
      ensures this.operation == operation && this.id == id
      ensures listeners == map[]
      ensures meta == map["operation" := Text(operation), "id" := Text(id)]
    {
      this.operation := operation;
      this.id := id;
      listeners := map[];
      meta := map["operation" := Text(operation), "id" := Text(id)];
    }

    /** $listen: stores the pipe under the given key, or under a fresh id, and returns that key. */
    method Listen(pipe: Pipe, key: Option<string>, freshId: string) returns (r: string)
      modifies this
      ensures r == (if key.Some? then key.value else freshId)
      ensures listeners == old(listeners)[r := pipe]
      ensures meta == old(meta)
    {
      r := freshId;
      if key.Some? {
        r := key.value;
      }
      listeners := listeners[r := pipe];
    }

    /**
     * $remove: the registry is asked to remove the var it is given; the key
     * that var equals, if any, is `matching`. That listener alone is
     * dropped, and the var is returned.
     */
    method RemoveListener(removed: Value, matching: Option<string>) returns (r: Answer)
      modifies this
      ensures r == Result(removed)
      ensures matching.Some? ==> listeners == old(listeners) - {matching.value}
      ensures matching.None? ==> listeners == old(listeners)
      ensures meta == old(meta)
    {
      if matching.Some? {
        listeners := listeners - {matching.value};
      }
      r := Result(removed);
    }

    /**
     * $notify as written. A node already being notified on this thread
     * returns at once. Otherwise it goes on the notify stack, is evaluated
     * once (to `run`), its value is handed to each listener in the
     * registry's iteration order, and it comes off the stack. When the
     * evaluation throws, or a listener's pipe throws (skipping the listeners
     * after it), the exception escapes and the node stays on the stack.
     */
    method NotifyAsWritten(t: ThreadState, run: Completion<Value>, order: seq<string>, failing: map<string, Thrown>)
      returns (out: Completion<Answer>)
      requires Enumerates(order, listeners.Keys)
      modifies t
      ensures this in old(t.notifyStack) ==>
                out == Normal(Proxy) && t.notifyStack == old(t.notifyStack) && t.log == old(t.log)
      ensures this !in old(t.notifyStack) && run.Normal? ==>
                t.log == old(t.log) + [Executed(this)] + PipedEvents(listeners, order[..Reached(order, failing)], run.value)
      ensures this !in old(t.notifyStack) && run.Normal? && FirstFailing(order, failing) == |order| ==>
                out == Normal(Proxy) && t.notifyStack == old(t.notifyStack)
      ensures this !in old(t.notifyStack) && run.Normal? && FirstFailing(order, failing) < |order| ==>
                out == Threw(failing[order[FirstFailing(order, failing)]]) && t.notifyStack == old(t.notifyStack) + [this]
      ensures this !in old(t.notifyStack) && run.Threw? ==>
                out == Threw(run.thrown) && t.notifyStack == old(t.notifyStack) + [this]
                && t.log == old(t.log) + [Executed(this)]
      ensures t.stack == old(t.stack) && t.scopes == old(t.scopes) && t.scopeLog == old(t.scopeLog)
    {
      if this in t.notifyStack {
        return Normal(Proxy);
      }
      t.notifyStack := t.notifyStack + [this];
      t.log := t.log + [Executed(this)];
      if run.Threw? {
        return Threw(run.thrown);
      }
      var failed := PipeToListeners(t, order, run.value, failing);
      if failed.Some? {
        return Threw(failed.value);
      }
      RemovePushed(old(t.notifyStack), this);
      t.notifyStack := RemoveFirst(t.notifyStack, this);
      out := Normal(Proxy);
    }

    /**
     * $notify as intended: the node comes off the notify stack whether the
     * evaluation and the listeners return or throw.
     */
    method Notify(t: ThreadState, run: Completion<Value>, order: seq<string>, failing: map<string, Thrown>)
      returns (out: Completion<Answer>)
      requires Enumerates(order, listeners.Keys)
      modifies t
      ensures t.notifyStack == old(t.notifyStack)
      ensures this in old(t.notifyStack) ==> out == Normal(Proxy) && t.log == old(t.log)
      ensures this !in old(t.notifyStack) && run.Normal? ==>
                t.log == old(t.log) + [Executed(this)] + PipedEvents(listeners, order[..Reached(order, failing)], run.value)
      ensures this !in old(t.notifyStack) && run.Normal? ==>
                out == (if FirstFailing(order, failing) < |order|
                        then Threw(failing[order[FirstFailing(order, failing)]]) else Normal(Proxy))
      ensures this !in old(t.notifyStack) && run.Threw? ==>
                out == Threw(run.thrown) && t.log == old(t.log) + [Executed(this)]
      ensures t.stack == old(t.stack) && t.scopes == old(t.scopes) && t.scopeLog == old(t.scopeLog)
    {
      if this in t.notifyStack {
        return Normal(Proxy);
      }
      t.notifyStack := t.notifyStack + [this];
      t.log := t.log + [Executed(this)];
      if run.Threw? {
        out := Threw(run.thrown);
      } else {
        var failed := PipeToListeners(t, order, run.value, failing);
        out := if failed.Some? then Threw(failed.value) else Normal(Proxy);
      }
      RemovePushed(old(t.notifyStack), this);
      t.notifyStack := RemoveFirst(t.notifyStack, this);
    }

    /**
     * The listener loop: each listener of the order is handed v, until one
     * whose pipe throws; that exception is returned and the rest are skipped.
     */
    method PipeToListeners(t: ThreadState, order: seq<string>, v: Value, failing: map<string, Thrown>)
      returns (failed: Option<Thrown>)
      requires forall k :: k in order ==> k in listeners
      modifies t
      ensures t.log == old(t.log) + PipedEvents(listeners, order[..Reached(order, failing)], v)
      ensures failed == (if FirstFailing(order, failing) < |order|
                         then Some(failing[order[FirstFailing(order, failing)]]) else None)
      ensures t.notifyStack == old(t.notifyStack) && t.stack == old(t.stack)
      ensures t.scopes == old(t.scopes) && t.scopeLog == old(t.scopeLog)
    {
      var i := 0;
      failed := None;
      while i < |order| && order[i] !in failing
        invariant 0 <= i <= |order|
        invariant forall j :: 0 <= j < i ==> order[j] !in failing
        invariant t.log == old(t.log) + PipedEvents(listeners, order[..i], v)
        invariant t.notifyStack == old(t.notifyStack) && t.stack == old(t.stack)
        invariant t.scopes == old(t.scopes) && t.scopeLog == old(t.scopeLog)
      {
        assert order[..i + 1][..i] == order[..i];
        t.log := t.log + [Piped(listeners[order[i]], v)];
        i := i + 1;
      }
      assert i == FirstFailing(order, failing);
      if i < |order| {
        assert order[..i + 1][..i] == order[..i];
        t.log := t.log + [Piped(listeners[order[i]], v)];
        failed := Some(failing[order[i]]);
      }
    }

    /** _constrain: the sticky fingerprint check of Constrain, applied to this node's meta attributes. */
    method Constrain_(value: Value, hasConstraint: bool, constraintSource: Option<string>) returns (out: Completion<Value>)
      modifies this
      ensures var c := Constrain(old(meta), hasConstraint, constraintSource);
              (c.Ok? ==> out == Normal(value) && meta == c.value)
              && (c.Err? ==> out == Threw(c.error) && meta == old(meta))
      ensures listeners == old(listeners)
    {
      var c := Constrain(meta, hasConstraint, constraintSource);
      if c.Ok? {
        meta := c.value;
        out := Normal(value);
      } else {
        out := Threw(c.error);
      }
    }

    /**
     * The generic branch: evaluate the node; unless that yields null, push
     * this node on the dispatch stack for the reflective call (whose
     * completion is `invoked`) and pop one entry afterwards.
     */
    method GenericDispatch(t: ThreadState, executed: Completion<Option<Value>>, invoked: Completion<Answer>)
      returns (out: Completion<Answer>)
      modifies t
      ensures t.stack == old(t.stack)
      ensures t.log == old(t.log) + [Executed(this)]
      ensures out == (match executed
                      case Threw(e) => Threw(e)
                      case Normal(None) => Normal(Null)
                      case Normal(Some(_)) => invoked)
      ensures t.notifyStack == old(t.notifyStack) && t.scopes == old(t.scopes) && t.scopeLog == old(t.scopeLog)
    {
      t.log := t.log + [Executed(this)];
      if executed.Threw? {
        return Threw(executed.thrown);
      }
      if executed.value.None? {
        return Normal(Null);
      }
      t.stack := t.stack + [this];
      out := invoked;
      t.stack := t.stack[..|t.stack| - 1];
    }

    /**
     * invoke's `_constrain` branch: the proxy passes the constraint source
     * through String.valueOf, so a null source is checked as the text "null".
     */
    method ConstrainCall(value: Value, hasConstraint: bool, constraintSource: Option<string>)
      returns (out: Completion<Value>)
      modifies this
      ensures var c := Constrain(old(meta), hasConstraint, Some(ValueOf(constraintSource)));
              (c.Ok? ==> out == Normal(value) && meta == c.value)
              && (c.Err? ==> out == Threw(c.error) && meta == old(meta))
      ensures hasConstraint && constraintSource.None? && FINGERPRINT_KEY !in old(meta) ==>
                out == Normal(value) && meta == old(meta)[FINGERPRINT_KEY := Text("null")]
      ensures listeners == old(listeners)
    {
      out := Constrain_(value, hasConstraint, Some(ValueOf(constraintSource)));
    }

    /**
     * invokeMain: a dispatch stack deeper than MAX_STACK_DEPTH fails with
     * LambdaRecursionException before anything else happens; otherwise the
     * call goes to its branch.
     */
    method InvokeMain(t: ThreadState, call: Call) returns (out: Completion<Answer>)
      requires call.Notify? ==> Enumerates(call.order, listeners.Keys)
      modifies this, t
      ensures |old(t.stack)| > MAX_STACK_DEPTH ==>
                out == Threw(LambdaRecursionException(|old(t.stack)|))
                && t.stack == old(t.stack) && t.log == old(t.log) && t.notifyStack == old(t.notifyStack)
                && listeners == old(listeners) && meta == old(meta)
      ensures t.stack == old(t.stack) && t.scopes == old(t.scopes) && t.scopeLog == old(t.scopeLog)
      ensures |old(t.stack)| <= MAX_STACK_DEPTH && call.Listen? ==>
                var k := if call.listenKey.Some? then call.listenKey.value else call.freshId;
                out == Normal(Str(k)) && listeners == old(listeners)[k := call.pipe]
      ensures |old(t.stack)| <= MAX_STACK_DEPTH && call.Remove? ==>
                out == Normal(Result(call.removed))
                && listeners == (if call.matching.Some? then old(listeners) - {call.matching.value} else old(listeners))
      ensures |old(t.stack)| <= MAX_STACK_DEPTH && call.SetMetaAttribute? ==>
                out == Normal(Null) && meta == old(meta)[call.key := Text(call.value)]
      ensures |old(t.stack)| <= MAX_STACK_DEPTH && call.GetMetaAttribute? ==>
                out == Normal(if call.key in meta then Meta(meta[call.key]) else Null)
      ensures |old(t.stack)| <= MAX_STACK_DEPTH && call.GetMetaObject? ==>
                out == (if call.objectKey.None? then Threw(NullPointerException)
                        else Normal(if call.objectKey.value in meta then Meta(meta[call.objectKey.value]) else Null))
      ensures |old(t.stack)| <= MAX_STACK_DEPTH && call.SetMetaObject? ==>
                if call.objectKey.None? || call.metaObject.None? then out == Threw(NullPointerException) && meta == old(meta)
                else out == Normal(Null) && meta == old(meta)[call.objectKey.value := call.metaObject.value]
      ensures |old(t.stack)| <= MAX_STACK_DEPTH && call.ConstraintFingerprint? ==>
                out == Normal(if FINGERPRINT_KEY in meta then Meta(meta[FINGERPRINT_KEY]) else Null)
      ensures |old(t.stack)| <= MAX_STACK_DEPTH && (call.Unwrap? || call.Copy?) ==> out == Normal(Proxy)
      ensures |old(t.stack)| <= MAX_STACK_DEPTH && call.HasErrors? ==> out == Normal(Flag(false))
      ensures |old(t.stack)| <= MAX_STACK_DEPTH && call.Notify? && this in old(t.notifyStack) ==>
                out == Normal(Proxy) && t.log == old(t.log) && t.notifyStack == old(t.notifyStack)
      ensures |old(t.stack)| <= MAX_STACK_DEPTH && call.Notify? && this !in old(t.notifyStack) && call.run.Threw? ==>
                out == Threw(call.run.thrown) && t.notifyStack == old(t.notifyStack) + [this]
                && t.log == old(t.log) + [Executed(this)]
      ensures |old(t.stack)| <= MAX_STACK_DEPTH && call.Notify? && this !in old(t.notifyStack) && call.run.Normal? ==>
                var i := FirstFailing(call.order, call.failing);
                t.log == old(t.log) + [Executed(this)]
                         + PipedEvents(old(listeners), call.order[..Reached(call.order, call.failing)], call.run.value)
                && (i == |call.order| ==> out == Normal(Proxy) && t.notifyStack == old(t.notifyStack))
                && (i < |call.order| ==> out == Threw(call.failing[call.order[i]])
                                         && t.notifyStack == old(t.notifyStack) + [this])
      ensures |old(t.stack)| <= MAX_STACK_DEPTH && call.Dispatch? ==>
                t.log == old(t.log) + [Executed(this)] && t.notifyStack == old(t.notifyStack)
                && out == (match call.executed
                           case Threw(e) => Threw(e)
                           case Normal(None) => Normal(Null)
                           case Normal(Some(_)) => call.invoked)
      ensures !call.Notify? && !call.Dispatch? ==> t.log == old(t.log) && t.notifyStack == old(t.notifyStack)
      ensures !call.Listen? && !call.Remove? ==> listeners == old(listeners)
      ensures !call.SetMetaAttribute? && !call.SetMetaObject? ==> meta == old(meta)
    {
      if |t.stack| > MAX_STACK_DEPTH {
        return Threw(LambdaRecursionException(|t.stack|));
      }
      match call
      case Unwrap => out := Normal(Proxy);
      case ConstraintFingerprint =>
        out := Normal(if FINGERPRINT_KEY in meta then Meta(meta[FINGERPRINT_KEY]) else Null);
      case GetMetaAttribute(k) => out := Normal(if k in meta then Meta(meta[k]) else Null);
      case SetMetaAttribute(k, v) =>
        meta := meta[k := Text(v)];
        out := Normal(Null);
      case GetMetaObject(k) =>
        if k.None? {
          out := Threw(NullPointerException);
        } else {
          out := Normal(if k.value in meta then Meta(meta[k.value]) else Null);
        }
      case SetMetaObject(k, v) =>
        if k.None? || v.None? {
          out := Threw(NullPointerException);
        } else {
          meta := meta[k.value := v.value];
          out := Normal(Null);
        }
      case Listen(pipe, key, freshId) =>
        var k := Listen(pipe, key, freshId);
        out := Normal(Str(k));
      case Notify(run, order, failing) => out := NotifyAsWritten(t, run, order, failing);
      case Remove(removed, matching) =>
        var r := RemoveListener(removed, matching);
        out := Normal(r);
      case HasErrors => out := Normal(Flag(false));
      case Copy => out := Normal(Proxy);
      case Dispatch(executed, invoked) => out := GenericDispatch(t, executed, invoked);
    }

    /**
     * The scope-requiring path of invoke: the value under meta "scopes" is
     * cast to a list, which fails for a string before anything is pushed;
     * the scopes of the list are pushed in order, the call runs (`body`,
     * over the scope stack), and in `finally` they are popped in reverse
     * order. Without attached scopes the call just runs.
     */
    method WithAttachedScopes(t: ThreadState, body: seq<Scope> -> (Completion<Answer>, seq<Scope>))
      returns (out: Completion<Answer>)
      modifies t
      ensures SCOPES_KEY in meta && meta[SCOPES_KEY].Text? ==>
                out == Threw(ClassCastException) && t.scopes == old(t.scopes) && t.scopeLog == old(t.scopeLog)
      ensures SCOPES_KEY !in meta ==>
                (out, t.scopes) == body(old(t.scopes)) && t.scopeLog == old(t.scopeLog)
      ensures SCOPES_KEY in meta && meta[SCOPES_KEY].ScopeList? ==>
                var list := meta[SCOPES_KEY].scopes;
                var (done, left) := body(old(t.scopes) + list);
                var popped := PopCount(|list|, |left|);
                t.scopes == left[..|left| - popped]
                && out == (if popped < |list| then Threw(IndexOutOfBoundsException) else done)
                && t.scopeLog == old(t.scopeLog) + Pushes(list) + Pops(LinkedMap.Reverse(list)[..popped])
      ensures SCOPES_KEY in meta && meta[SCOPES_KEY].ScopeList? ==>
                var list := meta[SCOPES_KEY].scopes;
                body(old(t.scopes) + list).1 == old(t.scopes) + list ==>
                  t.scopes == old(t.scopes) && out == body(old(t.scopes) + list).0
      ensures t.stack == old(t.stack) && t.notifyStack == old(t.notifyStack) && t.log == old(t.log)
    {
      if SCOPES_KEY !in meta {
        var (done, left) := body(t.scopes);
        t.scopes := left;
        out := done;
      } else if meta[SCOPES_KEY].Text? {
        out := Threw(ClassCastException);
      } else {
        out := t.Enclose(meta[SCOPES_KEY].scopes, body);
      }
    }
  }

  /**
   * A notify whose evaluation or one of whose listeners throws leaves the
   * node on the notify stack as written, so the next notify of it on the
   * same thread neither evaluates it nor reaches any listener.
   */
  method NotifyAfterFailureAsWritten(t: ThreadState, n: Node, run: Completion<Value>, failing: map<string, Thrown>,
                                     v: Value, order: seq<string>)
    returns (second: Completion<Answer>)
    requires Enumerates(order, n.listeners.Keys)
    requires n !in t.notifyStack
    requires run.Threw? || FirstFailing(order, failing) < |order|
    modifies t
    ensures second == Normal(Proxy)
    ensures n in t.notifyStack
    ensures t.log == old(t.log) + [Executed(n)]
                     + (if run.Threw? then [] else PipedEvents(n.listeners, order[..Reached(order, failing)], run.value))
  {
    var first := n.NotifyAsWritten(t, run, order, failing);
    second := n.NotifyAsWritten(t, Normal(v), order, map[]);
  }

  /** As intended, the notify after a failed one evaluates the node again and reaches every listener. */
  method NotifyAfterFailure(t: ThreadState, n: Node, run: Completion<Value>, failing: map<string, Thrown>,
                            v: Value, order: seq<string>)
    returns (second: Completion<Answer>)
    requires Enumerates(order, n.listeners.Keys)
    requires n !in t.notifyStack
    requires run.Threw? || FirstFailing(order, failing) < |order|
    modifies t
    ensures second == Normal(Proxy)
    ensures t.notifyStack == old(t.notifyStack)
    ensures t.log == old(t.log) + [Executed(n)]
                     + (if run.Threw? then [] else PipedEvents(n.listeners, order[..Reached(order, failing)], run.value))
                     + [Executed(n)] + PipedEvents(n.listeners, order, v)
  {
    var first := n.Notify(t, run, order, failing);
    second := n.Notify(t, Normal(v), order, map[]);
    NoneFailing(order);
  }

  lemma NoneFailing(order: seq<string>)
    ensures Reached(order, map[]) == |order| && order[..|order|] == order
  {
  }
}
