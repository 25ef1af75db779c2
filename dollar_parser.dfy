/**
 * The runtime side of me.neilellis.dollar.script.DollarParser: the
 * per-thread stack of script scopes, with last-in first-out checked in
 * inScope and not in parse, the error window printed for a parse failure, the
 * source excerpt an operator reports, and the `?` and `else` operators.
 */
module DollarParser {
  import opened Results
  import JavaStrings

  /** A ScriptScope; scopes are told apart by identity, as the source compares them with `!=`. */
  class ScriptScope {
    const name: string
    const source: Option<string>
    const parent: ScriptScope?

    /** new ScriptScope(name): a top-level scope without source. */
    constructor Named(name: string)
      ensures this.name == name && source.None? && parent == null
    {
      this.name := name;
      this.source := None;
      this.parent := null;
    }

    /** new ScriptScope(parent, source): a child scope over the given source. */
    constructor Child(parent: ScriptScope?, source: Option<string>)
      ensures this.parent == parent && this.source == source && name == ""
    {
      this.name := "";
      this.source := source;
      this.parent := parent;
    }
  }

  datatype Thrown =
    | IllegalStateException(message: string)
    | IndexOutOfBoundsException
    | NullPointerException
    | ParserException(errorIndex: Option<int>)
    | OtherThrowable(name: string)

  /** How a piece of code ends: with a value, or by throwing. */
  datatype Completion<T> = Normal(value: T) | Threw(thrown: Thrown)

  const WRONG_SCOPE: string := "Popped wrong scope"

  class Parser {
    /** This thread's scope stack; the current scope is the last one. */
    var scopes: seq<ScriptScope>

    /** A thread's first look at the stack finds one top-level scope. */
    constructor()
      ensures |scopes| == 1 && fresh(scopes[0])
      ensures scopes[0].name == "ThreadTopLevel" && scopes[0].parent == null
    {
      var top := new ScriptScope.Named("ThreadTopLevel");
      scopes := [top];
    }

    /** addScope: pushes s. */
    method AddScope(s: ScriptScope)
      modifies this
      ensures scopes == old(scopes) + [s]
    {
      scopes := scopes + [s];
    }

    /** currentScope: the last scope; an empty stack throws. */
    function CurrentScope(): (r: Result<ScriptScope, Thrown>)
      reads this
      ensures r.Ok? <==> |scopes| > 0
      ensures r.Ok? ==> r.value == scopes[|scopes| - 1]
      ensures r.Err? ==> r.error == IndexOutOfBoundsException
    {
      if |scopes| == 0 then Err(IndexOutOfBoundsException) else Ok(scopes[|scopes| - 1])
    }

    /** endScope: pops and returns the last scope; an empty stack throws and stays empty. */
    method EndScope() returns (r: Result<ScriptScope, Thrown>)
      modifies this
      ensures r == old(CurrentScope())
      ensures |old(scopes)| > 0 ==> scopes == old(scopes)[..|old(scopes)| - 1]
      ensures |old(scopes)| == 0 ==> scopes == []
    {
      r := CurrentScope();
      if |scopes| > 0 {
        scopes := scopes[..|scopes| - 1];
      }
    }

    /** addScope then endScope gives back the scope pushed and the stack as it was. */
    method PushThenPop(s: ScriptScope) returns (popped: Result<ScriptScope, Thrown>)
      modifies this
      ensures popped == Ok(s)
      ensures scopes == old(scopes)
    {
      AddScope(s);
      popped := EndScope();
      assert scopes == (old(scopes) + [s])[..|old(scopes)|];
    }

    /**
     * inScope: runs r in a fresh child of current, pushed for the duration.
     * `r` maps the new scope and the stack it starts with to how it ends and
     * the stack it leaves. Whatever r did, one scope is popped afterwards;
     * when that is not the scope pushed, IllegalStateException replaces r's
     * result or exception.
     */
    method InScope<T>(current: ScriptScope, r: (ScriptScope, seq<ScriptScope>) -> (Completion<T>, seq<ScriptScope>))
      returns (out: Completion<T>, newScope: ScriptScope)
      modifies this
      ensures fresh(newScope) && newScope.parent == current && newScope.source == current.source
      ensures var (done, left) := r(newScope, old(scopes) + [newScope]);
              if |left| == 0 then scopes == [] && out == Threw(IndexOutOfBoundsException)
              else scopes == left[..|left| - 1]
                   && out == (if left[|left| - 1] == newScope then done else Threw(IllegalStateException(WRONG_SCOPE)))
    ensures var (done, left) := r(newScope, old(scopes) + [newScope]);
            left == old(scopes) + [newScope] ==> scopes == old(scopes) && out == done
    {
      newScope := new ScriptScope.Child(current, current.source);
      AddScope(newScope);
      var (done, left) := r(newScope, scopes);
      scopes := left;
      var popped := EndScope();
      if popped.Err? {
        out := Threw(popped.error);
      } else if popped.value != newScope {
        out := Threw(IllegalStateException(WRONG_SCOPE));
      } else {
        out := done;
      }
      if left == old(scopes) + [newScope] {
        assert scopes == (old(scopes) + [newScope])[..|old(scopes)|];
      }
    }

    /**
     * parse(scope, source): pushes a child scope over the source and runs
     * the parser and the script. `body` maps the pushed scope and the stack
     * it starts with to how the run ends and the stack it leaves. A
     * ParserException prints its error window (when it has an error index)
     * and is reported to the scope's handler, whose own exception, if it
     * throws one (`handlerThrows`), replaces it. In `finally` one scope is
     * popped without any check of which; popping an empty stack throws
     * IndexOutOfBoundsException, which replaces everything else.
     */
    method Parse<V>(scope: ScriptScope, source: string,
                    body: (ScriptScope, seq<ScriptScope>) -> (Completion<V>, seq<ScriptScope>),
                    handlerThrows: Option<Thrown>)
      returns (out: Completion<V>, printed: Option<string>, handled: bool, pushed: ScriptScope)
      modifies this
      ensures fresh(pushed) && pushed.parent == scope && pushed.source == Some(source)
      ensures var (done, left) := body(pushed, old(scopes) + [pushed]);
              (handled <==> done.Threw? && done.thrown.ParserException?)
              && printed == (if handled && done.thrown.errorIndex.Some?
                             then ErrorWindow(source, done.thrown.errorIndex.value) else None)
              && (|left| == 0 ==> scopes == [] && out == Threw(IndexOutOfBoundsException))
              && (|left| > 0 ==> scopes == left[..|left| - 1]
                                 && out == (if handled && handlerThrows.Some? then Threw(handlerThrows.value) else done))
      ensures var (done, left) := body(pushed, old(scopes) + [pushed]);
              left == old(scopes) + [pushed] ==> scopes == old(scopes)
    {
      pushed := new ScriptScope.Child(scope, Some(source));
      AddScope(pushed);
      var (done, left) := body(pushed, scopes);
      scopes := left;
      out := done;
      printed := None;
      handled := false;
      if done.Threw? && done.thrown.ParserException? {
        if done.thrown.errorIndex.Some? {
          printed := ErrorWindow(source, done.thrown.errorIndex.value);
        }
        handled := true;
        if handlerThrows.Some? {
          out := Threw(handlerThrows.value);
        }
      }
      var popped := EndScope();
      if popped.Err? {
        out := Threw(popped.error);
      }
      if left == old(scopes) + [pushed] {
        assert scopes == (old(scopes) + [pushed])[..|old(scopes)|];
      }
    }

    /**
     * The excerpt an operator built by op() reports: it reads the current
     * scope's source at the time it is asked.
     */
    function OperatorSource(index: int, length: int): (r: Result<string, Thrown>)
      reads this
      ensures CurrentScope().Err? ==> r == Err(IndexOutOfBoundsException)
      ensures CurrentScope().Ok? && CurrentScope().value.source.None? ==> r == Err(NullPointerException)
      ensures CurrentScope().Ok? && CurrentScope().value.source.Some? ==>
                r == OperatorExcerpt(CurrentScope().value.source.value, index, length)
    {
      match CurrentScope()
      case Err(e) => Err(e)
      case Ok(s) => if s.source.None? then Err(NullPointerException) else OperatorExcerpt(s.source.value, index, length)
    }
  }

  /**
   * Where inScope checks, parse does not: a run that leaves one scope more
   * on the stack than it found makes inScope throw IllegalStateException,
   * while parse returns the run's value as if nothing were wrong. Either
   * way the scope each of them pushed stays on the stack.
   */
  method UnbalancedRun(p: Parser, current: ScriptScope, extra: ScriptScope, source: string, v: int)
    returns (viaInScope: Completion<int>, viaParse: Completion<int>, leftInScope: ScriptScope, leftParse: ScriptScope)
    modifies p
    ensures viaInScope == Threw(IllegalStateException(WRONG_SCOPE))
    ensures viaParse == Normal(v)
    ensures p.scopes == old(p.scopes) + [leftInScope, leftParse]
    ensures leftInScope.parent == current && leftParse.parent == current && leftParse.source == Some(source)
  {
    var pushesOne := (s: ScriptScope, st: seq<ScriptScope>) => (Normal(v), st + [extra]);
    var newScope;
    viaInScope, newScope := p.InScope(current, pushesOne);
    assert p.scopes == old(p.scopes) + [newScope];
    var start := p.scopes;
    var printed, handled, pushed;
    viaParse, printed, handled, pushed := p.Parse(current, source, pushesOne, None);
    assert p.scopes == (start + [pushed] + [extra])[..|start| + 1];
    leftInScope, leftParse := newScope, pushed;
  }

  /**
   * The text printed for a parse error at index: up to 20 characters from
   * index, cut one short of the end of the source; nothing when the source is
   * empty, index is 0, or the window would be empty.
   */
  function ErrorWindow(source: string, index: int): (r: Option<string>)
    ensures r.Some? <==> |source| > 0 && 0 < index &&
                         index < (if index < |source| - 20 then index + 20 else |source| - 1)
    ensures r.Some? ==> 0 < |r.value| <= 20 && index + |r.value| < |source|
                        && r.value == source[index..index + |r.value|]
    ensures r.Some? && index < |source| - 20 ==> |r.value| == 20
  {
    var endIndex := if index < |source| - 20 then index + 20 else |source| - 1;
    if |source| > 0 && index > 0 && index < endIndex then Some(source[index..endIndex]) else None
  }

  /** Each newline written as the two characters backslash and n. */
  function Escape(s: string): (r: string)
    ensures '\n' !in r
  {
    JavaStrings.ReplaceChar(s, '\n', "\\n")
  }

  /**
   * The operator excerpt: up to ten characters before the token, the token
   * between pointing hands, and the rest of its line, with every newline
   * escaped. The rest of the line is cut at the next newline, so with none
   * after the token the substring throws.
   */
  function OperatorExcerpt(source: string, index: int, length: int): (r: Result<string, Thrown>)
    ensures r.Ok? <==> 0 <= index && 0 <= length && index + length <= |source|
                       && '\n' in source[index + length..]
    ensures r.Err? ==> r.error == IndexOutOfBoundsException
    ensures r.Ok? ==> '\n' !in r.value
    ensures r.Ok? ==>
              var start := if index > 10 then index - 10 else 0;
              var end := JavaStrings.IndexOf(source, '\n', index + length);
              index + length <= end < |source|
              && '\n' !in source[index + length..end]
              && r.value == "... " + Escape(source[start..index]) + " ☞ " + Escape(source[index..index + length])
                            + " ☜ " + source[index + length..end] + " ..."
  {
    if !(0 <= index && 0 <= length && index + length <= |source|) then Err(IndexOutOfBoundsException)
    else
      var end := JavaStrings.IndexOf(source, '\n', index + length);
      NewlineAfter(source, index + length);
      if end < index + length then Err(IndexOutOfBoundsException)
      else
        var start := if index > 10 then index - 10 else 0;
        var before, token, after := source[start..index], source[index..index + length], source[index + length..end];
        var text := "... " + before + " ☞ " + token + " ☜ " + after + " ...";
        EscapeParts(before, token, after);
        Ok(Escape(text))
  }

  lemma NewlineAfter(source: string, from: int)
    requires 0 <= from <= |source|
    ensures var e := JavaStrings.IndexOf(source, '\n', from);
            (e >= from <==> '\n' in source[from..])
            && (e >= from ==> e < |source| && '\n' !in source[from..e])
  {
    var e := JavaStrings.IndexOf(source, '\n', from);
    if e == -1 {
      assert forall j :: 0 <= j < |source[from..]| ==> source[from..][j] == source[from + j];
    } else {
      assert source[from..][e - from] == '\n';
      assert forall j :: 0 <= j < |source[from..e]| ==> source[from..e][j] == source[from + j];
    }
  }

  lemma EscapeParts(before: string, token: string, after: string)
    requires '\n' !in after
    ensures Escape("... " + before + " ☞ " + token + " ☜ " + after + " ...")
            == "... " + Escape(before) + " ☞ " + Escape(token) + " ☜ " + after + " ..."
  {
    var rep := "\\n";
    JavaStrings.ReplaceCharAppend("... ", before, '\n', rep);
    JavaStrings.ReplaceCharAppend("... " + before, " ☞ ", '\n', rep);
    JavaStrings.ReplaceCharAppend("... " + before + " ☞ ", token, '\n', rep);
    JavaStrings.ReplaceCharAppend("... " + before + " ☞ " + token, " ☜ ", '\n', rep);
    JavaStrings.ReplaceCharAppend("... " + before + " ☞ " + token + " ☜ ", after, '\n', rep);
    JavaStrings.ReplaceCharAppend("... " + before + " ☞ " + token + " ☜ " + after, " ...", '\n', rep);
  }

  /** The `?` operator: the right-hand side when the left is true, else the left. */
  function Question<V>(lhs: V, rhs: V, isTrue: V -> bool): (r: V)
    ensures r == rhs || r == lhs
    ensures r != lhs ==> isTrue(lhs)
    ensures isTrue(lhs) ==> r == rhs
  {
    if isTrue(lhs) then rhs else lhs
  }

  /** The `else` operator: the right-hand side only when the left is the boolean false. */
  function Else<V>(lhs: V, rhs: V, isBoolean: V -> bool, isFalse: V -> bool): (r: V)
    ensures r == rhs || r == lhs
    ensures r != lhs ==> isBoolean(lhs) && isFalse(lhs)
    ensures isBoolean(lhs) && isFalse(lhs) ==> r == rhs
  {
    if isBoolean(lhs) && isFalse(lhs) then rhs else lhs
  }

  /**
   * On a boolean that is either true or false, `c ? x` and `c else y` take
   * opposite sides: exactly one of them yields its right-hand side.
   */
  lemma QuestionElseComplementary<V>(c: V, x: V, y: V, isTrue: V -> bool, isBoolean: V -> bool, isFalse: V -> bool)
    requires isBoolean(c) && isTrue(c) != isFalse(c)
    requires x != c && y != c
    ensures (Question(c, x, isTrue) == x) != (Else(c, y, isBoolean, isFalse) == y)
  {
  }
}
