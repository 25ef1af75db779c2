# Dollar runtime core, modelled in Dafny

Dollar is a JVM scripting language. Its values (`var`) are reactive: a script
expression becomes a node that re-evaluates lazily and notifies listeners.
This project models the runtime logic that sits under the parser, file by
file. It covers:

- the insertion-ordered map value (`DollarMap`) and the integer branch of the
  number value (`DollarNumber`, Java `long` arithmetic);
- the bookkeeping of the reactive node handler (`SourceNode`): its listener
  registry, the `$notify` re-entrancy guard, the dispatch depth guard, the
  sticky constraint fingerprint, and the scopes pushed around an evaluation;
- the parser's per-thread scope stack and its operator source excerpt
  (`DollarParser`), and source-location rendering (`SourceSegmentValue`);
- the decisions of the assignment operator and of the unary operator classes;
- the two generations of parser error handler.

Each Java class is modelled in its own form:

- Code that builds a new value is a function.
- Code that loops is a method with loop invariants, proved against a
  specification function.
- State that the source updates in place is a class whose methods name what
  they modify:
  - the node's listeners and meta attributes;
  - the thread's node stacks;
  - the parser's scope stack;
  - the unary operators' source field.
- Callbacks appear as parameters:
  - the node's deferred function and its listeners' pipes;
  - scope error handlers;
  - the reflective method call;
  - UUID generation.
  Their outcomes are passed in as `Completion` values. A callback that runs
  with scopes pushed around it is a function from the scope stack it starts
  with to its completion and the stack it leaves.
- A unary operator's node holds the operator and reads its source when it
  runs, as the Java lambda reads the field.

Files:

- `results.dfy`: `Option` and `Result`.
- `java_strings.dfy`: the Java string operations the rendering code relies on.
  These are `split` with its trailing-empty-string rule, `indexOf`,
  `replaceAll` of newlines, and decimal printing.
- `linked_map.dfy`: `java.util.LinkedHashMap` as a sequence of pairs with
  unique keys. `put` on an existing key keeps its position. It also holds
  `Collections.reverse`, which the node's scope handling uses as well.
- `dollar_map.dfy`, `dollar_number.dfy`, `source_node.dfy`, `source_segment.dfy`, `dollar_parser.dfy`.
- `assignment_operator.dfy`.
- `op_def.dfy`, `unary_op.dfy`, `dollar_unary_operator.dfy`.
- `parser_error_handler.dfy`, `parser_error_handler_impl.dfy`.

Some of the source is evidently wrong (see "## Findings"). For each such
case, the code as written is modelled next to a corrected version:

- a member named `...AsWritten` models the code as written;
- a lemma exhibits the input on which it goes wrong;
- the rest of the model uses the corrected member.

## Model

| member | source | states |
|---|---|---|
| DollarMap.DeepClone | dollar-core/src/main/java/dollar/api/types/DollarMap.java:494-500 | the clone built by the loop holds the same entries in the same order |
| DollarMap.Plus | dollar-core/src/main/java/dollar/api/types/DollarMap.java:118-131 | map + map: the keys are the union; a shared key takes the right-hand value at its left-hand position; new right-hand keys follow in their own order. Map + string: the two human strings concatenated. Map + anything else: the value added under `"_" + size` (a new entry at the end when that key is new) |
| DollarMap.Minus | dollar-core/src/main/java/dollar/api/types/DollarMap.java:101-114 | corrected `$minus`: removes exactly the right-hand map's keys, or the key equal to the scalar's string form; every other entry keeps its value and order |
| DollarMap.MinusAsWritten | dollar-core/src/main/java/dollar/api/types/DollarMap.java:109-113 | as written, subtracting a scalar returns the map unchanged (a Java String is removed from a map keyed by values) |
| DollarMap.MinusScalarKeepsKey | dollar-core/src/main/java/dollar/api/types/DollarMap.java:111 | on {"a": 1} minus "a", the key survives as written while the corrected result is empty |
| DollarMap.RemoveStringKey | dollar-core/src/main/java/dollar/api/types/DollarMap.java:111 | `remove` of a Java String from a map keyed by values leaves it unchanged |
| DollarMap.Negate | dollar-core/src/main/java/dollar/api/types/DollarMap.java:135-143 | the same entries in reverse order; reversing again gives the receiver |
| DollarMap.Fix | dollar-core/src/main/java/dollar/api/types/DollarMap.java:391-407 | depth ≤ 1 returns the receiver; otherwise the same keys in the same order, each value forced at depth − 1 |
| DollarMap.Prepend | dollar-core/src/main/java/dollar/api/types/DollarMap.java:232-237 | the pair's key comes first, with the receiver's value if it already had that key; the rest is the receiver without that key, in order |
| DollarMap.PutAllAfterPair | dollar-core/src/main/java/dollar/api/types/DollarMap.java:234-235 | putting all of the receiver after a single pair gives the pair's key first and then the receiver's other entries in order |
| DollarMap.Append | dollar-core/src/main/java/dollar/api/types/DollarMap.java:178-182 | the pair's key maps to its value, every other key is unchanged, a new key goes last, an existing key keeps its position |
| DollarMap.Set | dollar-core/src/main/java/dollar/api/types/DollarMap.java:257-261 | the copy differs from the receiver only at the key, which maps to the value; a new key goes last |
| DollarMap.Remove | dollar-core/src/main/java/dollar/api/types/DollarMap.java:241-245 | the copy lacks exactly that key; every other key keeps its value and order |
| DollarMap.RemoveByKeyAsWritten | dollar-core/src/main/java/dollar/api/types/DollarMap.java:249-253 | as written, removing by a String key returns an unchanged copy |
| DollarMap.RemoveByKey | dollar-core/src/main/java/dollar/api/types/DollarMap.java:249-253 | corrected: the copy lacks exactly the entry keyed by that string |
| DollarMap.RemoveByKeyKeepsEntry | dollar-core/src/main/java/dollar/api/types/DollarMap.java:251 | on {"a": 1}, removing "a" keeps the entry as written and empties the map as corrected |
| DollarMap.InsertAsWritten | dollar-core/src/main/java/dollar/api/types/DollarMap.java:216-228 | as written, `$insert` returns a copy of the receiver: its loop walks the new, empty map |
| DollarMap.Insert | dollar-core/src/main/java/dollar/api/types/DollarMap.java:216-228 | corrected: a new key lands at `position` (or nowhere when out of range); an existing key keeps the receiver's value |
| DollarMap.InsertNeverInserts | dollar-core/src/main/java/dollar/api/types/DollarMap.java:219 | inserting a new pair at position 0 of {"b": 2} should change the map, which the code as written never does |
| DollarMap.Get | dollar-core/src/main/java/dollar/api/types/DollarMap.java:198-206 | an integer key selects by its `toInteger()` (low 32 bits, signed): it succeeds iff that position is in range, giving the one-entry map there; other keys always succeed, void when absent |
| DollarMap.GetPositionWraps | dollar-core/src/main/java/dollar/api/types/DollarMap.java:199-200 | the position wraps at 2^32: key 2^32 + i selects the entry key i does |
| DollarMap.GetByPositionAndKey | dollar-core/src/main/java/dollar/api/types/DollarMap.java:198-206 | position i gives the one-entry map of the i-th entry; its key gives its value |
| DollarMap.ContainsKeyIffFound | dollar-core/src/main/java/dollar/api/types/DollarMap.java:186-212 | `$containsKey`/`$has` hold iff lookup finds the key, and a missing non-integer key reads as void |
| DollarMap.ContainsAfterAppend | dollar-core/src/main/java/dollar/api/types/DollarMap.java:178-194 | after appending a pair, the map contains its key and its value |
| DollarMap.Size | dollar-core/src/main/java/dollar/api/types/DollarMap.java:265-273 | the size is the number of distinct keys |
| DollarMap.KeyCount | dollar-core/src/main/java/dollar/api/types/DollarMap.java:271-273 | with unique keys, the number of distinct keys is the number of entries |
| DollarMap.ToVarList | dollar-core/src/main/java/dollar/api/types/DollarMap.java:295-302 | one pair (a one-entry map) per entry, in order |
| DollarMap.As | dollar-core/src/main/java/dollar/api/types/DollarMap.java:277-291 | MAP gives the receiver, LIST the pairs in order, BOOLEAN "non-empty", STRING its human string, VOID void; exactly the other targets fail with INVALID_CAST |
| DollarMap.Is | dollar-core/src/main/java/dollar/api/types/DollarMap.java:340-347 | true iff MAP is among the types |
| DollarMap.TruthOfMaps | dollar-core/src/main/java/dollar/api/types/DollarMap.java:503-525 | a map is never boolean, true or false, always neither; truthy iff its boolean cast is true |
| DollarMap.ArithmeticOn | dollar-core/src/main/java/dollar/api/types/DollarMap.java:147-168 | multiply, divide, modulus and toInteger always fail with INVALID_MAP_OPERATION |
| DollarNumber.Wrap | dollar-core/src/main/java/me/neilellis/dollar/types/DollarNumber.java:96-104 | 64-bit wrap-around: identity in the long range, and always congruent modulo 2^64 |
| DollarNumber.IntValue | dollar-core/src/main/java/me/neilellis/dollar/types/DollarNumber.java:68-70 | `intValue` is a 32-bit signed value that is zero iff the long is a multiple of 2^32 |
| DollarNumber.IntValueOfInt | dollar-core/src/main/java/me/neilellis/dollar/types/DollarNumber.java:68-70 | `intValue` is the identity on the int range |
| DollarNumber.IntValuePeriodic | dollar-core/src/main/java/me/neilellis/dollar/types/DollarNumber.java:68-70 | `intValue` repeats every 2^32 |
| DollarNumber.TruncDiv | dollar-core/src/main/java/me/neilellis/dollar/types/DollarNumber.java:128-134 | Java `/`: the magnitude is the quotient of the magnitudes, positive only when the signs agree |
| DollarNumber.TruncRem | dollar-core/src/main/java/me/neilellis/dollar/types/DollarNumber.java:138-144 | Java `%`: smaller than the divisor and the dividend in magnitude, with the dividend's sign |
| DollarNumber.Inc | dollar-core/src/main/java/me/neilellis/dollar/types/DollarNumber.java:102-104 | value + amount modulo 2^64, keeping the receiver's errors |
| DollarNumber.Dec | dollar-core/src/main/java/me/neilellis/dollar/types/DollarNumber.java:96-98 | value − amount modulo 2^64, keeping the receiver's errors |
| DollarNumber.WrapNear | dollar-core/src/main/java/me/neilellis/dollar/types/DollarNumber.java:96-104 | a sum of two longs wraps by at most one 2^64 |
| DollarNumber.DecUndoesInc | dollar-core/src/main/java/me/neilellis/dollar/types/DollarNumber.java:96-104 | decrementing undoes incrementing, overflow included |
| DollarNumber.IncUndoesDec | dollar-core/src/main/java/me/neilellis/dollar/types/DollarNumber.java:96-104 | incrementing undoes decrementing, overflow included |
| DollarNumber.Negate | dollar-core/src/main/java/me/neilellis/dollar/types/DollarNumber.java:108-114 | −value, except that Long.MIN_VALUE negates to itself |
| DollarNumber.NegateTwice | dollar-core/src/main/java/me/neilellis/dollar/types/DollarNumber.java:108-114 | negating twice gives the value back |
| DollarNumber.AbsOf | dollar-core/src/main/java/me/neilellis/dollar/types/DollarNumber.java:148-154 | the value or its negation; non-negative iff the value is not Long.MIN_VALUE, which maps to itself |
| DollarNumber.Multiply | dollar-core/src/main/java/me/neilellis/dollar/types/DollarNumber.java:118-124 | the product modulo 2^64, exact when it fits |
| DollarNumber.Divide | dollar-core/src/main/java/me/neilellis/dollar/types/DollarNumber.java:128-134 | fails with ArithmeticException iff the divisor is zero |
| DollarNumber.Modulus | dollar-core/src/main/java/me/neilellis/dollar/types/DollarNumber.java:138-144 | fails iff the divisor is zero; otherwise smaller than the divisor in magnitude and signed like the dividend |
| DollarNumber.DivRemExact | dollar-core/src/main/java/me/neilellis/dollar/types/DollarNumber.java:128-144 | truncating quotient times divisor plus remainder is the dividend, and the quotient never exceeds the dividend in magnitude |
| DollarNumber.DivideModulusIdentity | dollar-core/src/main/java/me/neilellis/dollar/types/DollarNumber.java:128-144 | (a / b) * b + a % b == a in long arithmetic, including Long.MIN_VALUE / −1 |
| DollarNumber.DivideTruncates | dollar-core/src/main/java/me/neilellis/dollar/types/DollarNumber.java:128-134 | without overflow, division truncates toward zero and never overshoots |
| DollarNumber.Plus | dollar-core/src/main/java/me/neilellis/dollar/types/DollarNumber.java:158-168 | any `var` right-hand side adds its long modulo 2^64, keeping the errors; anything else falls through to the generic `$plus` |
| DollarNumber.Minus | dollar-core/src/main/java/me/neilellis/dollar/types/DollarNumber.java:172-183 | as written: an integer `var` subtracts modulo 2^64; a decimal one takes the decimal branch; anything else falls through to the generic `$plus` |
| DollarNumber.MinusFallsToPlus | dollar-core/src/main/java/me/neilellis/dollar/types/DollarNumber.java:181 | as written, minus of a non-numeric argument goes to `$plus`, the same place plus sends a non-`var` |
| DollarNumber.MinusIntended | dollar-core/src/main/java/me/neilellis/dollar/types/DollarNumber.java:172-183 | corrected: the same integer and decimal branches; anything else goes to the generic `$minus`, never to `$plus` |
| DollarNumber.MinusIntendedAgrees | dollar-core/src/main/java/me/neilellis/dollar/types/DollarNumber.java:172-183 | the two differ exactly where the code as written hands over to `$plus` |
| DollarNumber.MinusUndoesPlus | dollar-core/src/main/java/me/neilellis/dollar/types/DollarNumber.java:158-183 | subtracting an integer after adding it gives the number back |
| DollarNumber.TruthyLow32 | dollar-core/src/main/java/me/neilellis/dollar/types/DollarNumber.java:250-252 | truthy iff the low 32 bits are not all zero, so 2^32 is not truthy |
| DollarNumber.EqualsIffZeroDifference | dollar-core/src/main/java/me/neilellis/dollar/types/DollarNumber.java:211-217 | `$equals` holds iff the difference is zero, and is symmetric |
| DollarNumber.CompareToAsWritten | dollar-core/src/main/java/me/neilellis/dollar/types/DollarNumber.java:235-237 | as written: the 32-bit `intValue` of the wrapped difference |
| DollarNumber.CompareToTruncates | dollar-core/src/main/java/me/neilellis/dollar/types/DollarNumber.java:235-237 | as written, 2^32 compares equal to 0 and 2^31 compares below 0 |
| DollarNumber.CompareToRightOnSmallGaps | dollar-core/src/main/java/me/neilellis/dollar/types/DollarNumber.java:235-237 | as written, the comparison is right whenever the difference fits in an int |
| DollarNumber.CompareTo | dollar-core/src/main/java/me/neilellis/dollar/types/DollarNumber.java:235-237 | corrected: negative, zero or positive exactly as the receiver is below, equal to or above the other |
| DollarNumber.CompareToAntisymmetric | dollar-core/src/main/java/me/neilellis/dollar/types/DollarNumber.java:211-237 | swapping the operands flips the sign, and zero means `$equals` |
| DollarNumber.As | dollar-core/src/main/java/me/neilellis/dollar/types/DollarNumber.java:47-64 | BOOLEAN is truthiness, STRING the decimal digits (with "-" when negative), LIST a singleton, MAP {"value": this}, NUMBER itself, VOID void; exactly the other targets throw UnsupportedOperationException |
| DollarNumber.AsStringReadsBack | dollar-core/src/main/java/me/neilellis/dollar/types/DollarNumber.java:47-64 | the STRING cast of a non-negative number parses back to it |
| DollarNumber.AsStringReadsBackNegative | dollar-core/src/main/java/me/neilellis/dollar/types/DollarNumber.java:47-64 | a negative number's STRING cast is "-" then digits that read back as its magnitude |
| DollarNumber.Is | dollar-core/src/main/java/me/neilellis/dollar/types/DollarNumber.java:79-86 | true iff NUMBER is among the types |
| SourceNode.RemoveFirst | dollar-script/src/main/java/dollar/internal/runtime/script/SourceNode.java:321 | `List.remove(Object)`: one element shorter when present, unchanged when absent |
| SourceNode.RemovePushed | dollar-script/src/main/java/dollar/internal/runtime/script/SourceNode.java:316-321 | removing a node that was pushed onto a stack not holding it restores the stack |
| SourceNode.EveryListenerOnce | dollar-script/src/main/java/dollar/internal/runtime/script/SourceNode.java:318-320 | over an enumeration of the registry, every listener is handed the value exactly once |
| SourceNode.FirstFailing | dollar-script/src/main/java/dollar/internal/runtime/script/SourceNode.java:318-320 | the position of the first listener whose pipe throws: none before it throws, it does, or the end of the order when none does |
| SourceNode.Constrain | dollar-script/src/main/java/dollar/internal/runtime/script/SourceNode.java:351-362 | no constraint or no source passes untouched; the first source becomes the fingerprint; the same source passes; a different one is a ConstraintViolation |
| SourceNode.FingerprintSticky | dollar-script/src/main/java/dollar/internal/runtime/script/SourceNode.java:351-362 | once recorded, a later constraint passes iff its source is the recorded one |
| SourceNode.PopsFindTheirOwn | dollar-script/src/main/java/dollar/internal/runtime/script/SourceNode.java:218-223 | when the stack ends with the reversed list, the pops of the list remove exactly the list |
| SourceNode.ThreadState.PushScopes | dollar-script/src/main/java/dollar/internal/runtime/script/SourceNode.java:193-196 | pushes each scope in order and logs each push |
| SourceNode.ThreadState.PopScopes | dollar-script/src/main/java/dollar/internal/runtime/script/SourceNode.java:218-223 | each pop removes the top, whichever scope it is: the removed scopes are the top of the stack read backwards, as many as the list has or the stack holds, and each completed pop is logged |
| SourceNode.ThreadState.Enclose | dollar-script/src/main/java/dollar/internal/runtime/script/SourceNode.java:191-226 | pushes the list, runs the body on that stack, pops the list in reverse; the stack left is the body's minus the popped top, a pop from an empty stack throws IndexOutOfBounds, and a body that leaves the stack as it found it has the stack restored and its own completion returned |
| SourceNode.ScopeClosure.RunAsWritten | dollar-script/src/main/java/dollar/internal/runtime/script/SourceNode.java:114-134 | as written: pushes the captured scopes, runs the function over the scope stack, pops the list in reverse, and leaves the captured list reversed in place; a balanced function has the stack restored |
| SourceNode.ScopeClosure.Run | dollar-script/src/main/java/dollar/internal/runtime/script/SourceNode.java:114-134 | corrected: the same pushes and pops with the captured list kept; a balanced function has the stack restored, an unbalanced one has the top entries popped |
| SourceNode.UnbalancedClosure | dollar-script/src/main/java/dollar/internal/runtime/script/SourceNode.java:119-130 | a function that leaves a scope of its own on the stack has it and the last captured scope popped, and the first captured scope stays behind |
| SourceNode.OverPoppingClosure | dollar-script/src/main/java/dollar/internal/runtime/script/SourceNode.java:119-130 | a function that pops one scope too many makes the closure's own pop throw IndexOutOfBounds |
| SourceNode.SecondRunAsWritten | dollar-script/src/main/java/dollar/internal/runtime/script/SourceNode.java:126 | as written, the second run of a closure over [a, b] pushes b before a |
| SourceNode.SecondRun | dollar-script/src/main/java/dollar/internal/runtime/script/SourceNode.java:114-134 | corrected, every run pushes a before b |
| SourceNode.Node.constructor | dollar-script/src/main/java/dollar/internal/runtime/script/SourceNode.java:145-146 | a new node has no listeners and meta holding its operation and id |
| SourceNode.Node.Listen | dollar-script/src/main/java/dollar/internal/runtime/script/SourceNode.java:304-310 | stores the pipe under the given key (replacing any) or under a fresh id, and returns that key |
| SourceNode.Node.RemoveListener | dollar-script/src/main/java/dollar/internal/runtime/script/SourceNode.java:323-326 | drops the listener the argument matches and no other (none matched: a no-op), leaves meta alone, and returns the argument |
| SourceNode.Node.NotifyAsWritten | dollar-script/src/main/java/dollar/internal/runtime/script/SourceNode.java:311-322 | a node already notifying returns the proxy at once; otherwise it executes once and pipes the value to the listeners in order up to and including the first whose pipe throws; it leaves the notify stack only when all of that returns, and a throw from the execution or a pipe escapes with the node still on it |
| SourceNode.Node.Notify | dollar-script/src/main/java/dollar/internal/runtime/script/SourceNode.java:311-322 | corrected: the same events and the same result, with the notify stack restored however the execution and the pipes end |
| SourceNode.NotifyAfterFailureAsWritten | dollar-script/src/main/java/dollar/internal/runtime/script/SourceNode.java:316-321 | as written, after a notify whose execution or a listener throws, the next notify of that node is silently skipped and the node stays on the stack |
| SourceNode.NotifyAfterFailure | dollar-script/src/main/java/dollar/internal/runtime/script/SourceNode.java:311-322 | corrected, the next notify executes the node and reaches every listener, and the notify stack is restored |
| SourceNode.Node.PipeToListeners | dollar-script/src/main/java/dollar/internal/runtime/script/SourceNode.java:318-320 | hands the value to the listeners in the iteration order up to and including the first whose pipe throws, and returns that exception (none when every pipe returns) |
| SourceNode.Node.Constrain_ | dollar-script/src/main/java/dollar/internal/runtime/script/SourceNode.java:351-362 | `_constrain` on the node: the result and meta update of the fingerprint check, listeners untouched |
| SourceNode.Node.ConstrainCall | dollar-script/src/main/java/dollar/internal/runtime/script/SourceNode.java:161-163 | invoke's `_constrain` passes the source through String.valueOf, so a null source is fingerprinted as the text "null"; otherwise the check of Constrain |
| SourceNode.Node.GenericDispatch | dollar-script/src/main/java/dollar/internal/runtime/script/SourceNode.java:331-343 | executes once; a null result answers null; otherwise pushes the node, invokes, and pops exactly one entry, so the stack depth is restored |
| SourceNode.Node.InvokeMain | dollar-script/src/main/java/dollar/internal/runtime/script/SourceNode.java:248-348 | more than 100 nested dispatches throw LambdaRecursionException and change nothing; otherwise: listen stores the pipe, `$remove` drops the matched listener, the meta attributes are read and written by string, getMetaObject/setMetaObject throw NullPointerException on a null key or value, unwrap and copy give the proxy, hasErrors false, `$notify` as written (listeners may throw), and the generic dispatch; each branch changes only what it names |
| SourceNode.Node.WithAttachedScopes | dollar-script/src/main/java/dollar/internal/runtime/script/SourceNode.java:191-226 | a string under "scopes" throws ClassCastException before anything is pushed or run; no attached scopes runs the call on the stack as it is; otherwise the pushes, call and reverse pops of Enclose, restoring the stack when the call is balanced |
| SourceSegment.Create | dollar-script/src/main/java/dollar/internal/runtime/script/SourceSegmentValue.java:39-49 | fails with DollarParserError iff the scope has no source |
| SourceSegment.LineAsWritten | dollar-script/src/main/java/dollar/internal/runtime/script/SourceSegmentValue.java:83-84 | the line as written, the number of strings `split("\n")` gives for the text before the token: 1 at index 0, never above the true line |
| SourceSegment.Line | dollar-script/src/main/java/dollar/internal/runtime/script/SourceSegmentValue.java:83-84 | corrected line: one more than the newlines before the token (at least 1) |
| SourceSegment.LineAsWrittenExample | dollar-script/src/main/java/dollar/internal/runtime/script/SourceSegmentValue.java:83-84 | as written, a token at the start of line 2 of "x\ny\n" is reported on line 1 |
| SourceSegment.LineAsWrittenLineZero | dollar-script/src/main/java/dollar/internal/runtime/script/SourceSegmentValue.java:83-84 | as written, a token at the start of line 2 of "\nab\n" is reported on line 0 |
| SourceSegment.LineAsWrittenAtLineStart | dollar-script/src/main/java/dollar/internal/runtime/script/SourceSegmentValue.java:83-84 | as written, every token that starts a line after the first gets a line number below the true one |
| SourceSegment.LineAsWrittenMidLine | dollar-script/src/main/java/dollar/internal/runtime/script/SourceSegmentValue.java:83-85 | as written, the line is right for tokens not at a line start |
| SourceSegment.FirstLine | dollar-script/src/main/java/dollar/internal/runtime/script/SourceSegmentValue.java:83-85 | with no newline before the token, line 1 and column = index |
| SourceSegment.Column | dollar-script/src/main/java/dollar/internal/runtime/script/SourceSegmentValue.java:85 | the length of the prefix's last line, between 0 and the index |
| SourceSegment.ColumnFindsLineStart | dollar-script/src/main/java/dollar/internal/runtime/script/SourceSegmentValue.java:85-87 | index − column is the start of the token's line |
| SourceSegment.EndValid | dollar-script/src/main/java/dollar/internal/runtime/script/SourceSegmentValue.java:86 | the computed end lies past the token iff a newline follows it, and is then that newline |
| SourceSegment.Excerpt | dollar-script/src/main/java/dollar/internal/runtime/script/SourceSegmentValue.java:74-95 | negative index or length: unknown location; past the end: AssertionError; no newline after the token: StringIndexOutOfBounds; otherwise the cut of the token, placed on the line as written |
| SourceSegment.IntendedExcerpt | dollar-script/src/main/java/dollar/internal/runtime/script/SourceSegmentValue.java:74-95 | corrected: the same failures and unknown location, the same pieces and column, on the token's true line |
| SourceSegment.ExcerptLineFallsShort | dollar-script/src/main/java/dollar/internal/runtime/script/SourceSegmentValue.java:83-84 | as written, a token that starts a line is placed on an earlier line than its own |
| SourceSegment.ExcerptsAgreeMidLine | dollar-script/src/main/java/dollar/internal/runtime/script/SourceSegmentValue.java:83-85 | where the token does not start a line, the two excerpts are equal |
| SourceSegment.CutAt | dollar-script/src/main/java/dollar/internal/runtime/script/SourceSegmentValue.java:83-93 | the cut carries exactly the token's characters, the line as written and the column |
| SourceSegment.CutShape | dollar-script/src/main/java/dollar/internal/runtime/script/SourceSegmentValue.java:86-93 | `before` runs from the start of the token's line to the token, `after` from the token's end to the next newline; neither holds a newline |
| SourceSegment.SourceMessage | dollar-script/src/main/java/dollar/internal/runtime/script/SourceSegmentValue.java:73-98 | fails exactly as the excerpt does; otherwise the line around the token with the arrows, then `see file(line:column)` with the line as written (null file printed as "null") |
| SourceSegment.ShortSourceMessage | dollar-script/src/main/java/dollar/internal/runtime/script/SourceSegmentValue.java:102-125 | fails exactly as the excerpt does; otherwise the one-line form, newline runs collapsed, ending in `file(line:column)` with the line as written |
| SourceSegment.IntendedSourceMessage | dollar-script/src/main/java/dollar/internal/runtime/script/SourceSegmentValue.java:73-98 | corrected: fails exactly where the long message does; otherwise the same text with the token's true line |
| SourceSegment.IntendedShortSourceMessage | dollar-script/src/main/java/dollar/internal/runtime/script/SourceSegmentValue.java:102-125 | corrected: fails exactly where the short message does; otherwise the same text with the token's true line |
| SourceSegment.MessagesAgreeMidLine | dollar-script/src/main/java/dollar/internal/runtime/script/SourceSegmentValue.java:83-85 | where the token does not start a line, both messages equal their corrected forms |
| SourceSegment.MessageExampleSecondLine | dollar-script/src/main/java/dollar/internal/runtime/script/SourceSegmentValue.java:112-123 | the short message for "y" in "x\ny\n" ends `null(1:0)` as written and `null(2:0)` as intended |
| SourceSegment.MessageExampleLineZero | dollar-script/src/main/java/dollar/internal/runtime/script/SourceSegmentValue.java:112-123 | the short message for "a" in "\nab\n" ends `null(0:0)` as written and `null(2:0)` as intended |
| SourceSegment.ShortMessageOneLine | dollar-script/src/main/java/dollar/internal/runtime/script/SourceSegmentValue.java:117-123 | the short message holds no newline when the token and file name hold none |
| SourceSegment.SourceSegment | dollar-script/src/main/java/dollar/internal/runtime/script/SourceSegmentValue.java:129-131 | exactly `source[start .. start + length)`, or StringIndexOutOfBounds when out of range |
| SourceSegment.ExcerptTokenIsSegment | dollar-script/src/main/java/dollar/internal/runtime/script/SourceSegmentValue.java:93 | the highlighted token is the source segment |
| DollarParser.Parser.constructor | dollar-script/src/main/java/me/neilellis/dollar/script/DollarParser.java:61-68 | a fresh thread's stack holds exactly one top-level scope |
| DollarParser.Parser.AddScope | dollar-script/src/main/java/me/neilellis/dollar/script/DollarParser.java:84-86 | pushes the scope |
| DollarParser.Parser.CurrentScope | dollar-script/src/main/java/me/neilellis/dollar/script/DollarParser.java:88-90 | the last scope, or IndexOutOfBounds on an empty stack |
| DollarParser.Parser.EndScope | dollar-script/src/main/java/me/neilellis/dollar/script/DollarParser.java:92-94 | returns the current scope and removes it |
| DollarParser.Parser.PushThenPop | dollar-script/src/main/java/me/neilellis/dollar/script/DollarParser.java:84-94 | addScope then endScope returns the scope and restores the stack |
| DollarParser.Parser.InScope | dollar-script/src/main/java/me/neilellis/dollar/script/DollarParser.java:104-115 | pushes a child scope, runs the body, pops once; a wrong pop throws "Popped wrong scope"; a balanced body leaves the stack as it was, whether it returns or throws |
| DollarParser.Parser.Parse | dollar-script/src/main/java/me/neilellis/dollar/script/DollarParser.java:146-168 | pushes a child scope holding the source, runs the body, pops once in `finally`; a ParserException has its error window printed and goes to the handler, whose own throw replaces it; an empty stack at the pop throws IndexOutOfBounds; a balanced body leaves the stack as it was |
| DollarParser.UnbalancedRun | dollar-script/src/main/java/me/neilellis/dollar/script/DollarParser.java:104-168 | a body that leaves one scope too many makes inScope throw "Popped wrong scope" while parse returns its value; both leave their scope on the stack |
| DollarParser.ErrorWindow | dollar-script/src/main/java/me/neilellis/dollar/script/DollarParser.java:156-161 | printed iff the source is non-empty and 0 < index < end; 20 characters when they fit, never reaching the last character |
| DollarParser.Escape | dollar-script/src/main/java/me/neilellis/dollar/script/DollarParser.java:247 | no newline survives escaping |
| DollarParser.OperatorExcerpt | dollar-script/src/main/java/me/neilellis/dollar/script/DollarParser.java:233-247 | up to ten characters before the token, the token between pointing hands, and the rest of its line, with newlines escaped; fails unless a newline follows the token |
| DollarParser.Parser.OperatorSource | dollar-script/src/main/java/me/neilellis/dollar/script/DollarParser.java:232-236 | the excerpt of the current scope's source, failing when there is no scope or no source |
| DollarParser.Question | dollar-script/src/main/java/me/neilellis/dollar/script/DollarParser.java:354 | `?` yields the right-hand side exactly when the left is true, otherwise the left |
| DollarParser.Else | dollar-script/src/main/java/me/neilellis/dollar/script/DollarParser.java:386-388 | `else` yields the right-hand side exactly when the left is a boolean false, otherwise the left |
| DollarParser.QuestionElseComplementary | dollar-script/src/main/java/me/neilellis/dollar/script/DollarParser.java:354-388 | on a boolean condition, exactly one of `?` and `else` takes its right-hand side |
| AssignmentOperator.Flags | dollar-script/src/main/java/dollar/internal/runtime/script/operators/AssignmentOperator.java:141-146 | declared iff a mutability word is present; const iff it is "const"; volatile iff "volatile"; never both |
| AssignmentOperator.Upper | dollar-script/src/main/java/dollar/internal/runtime/script/operators/AssignmentOperator.java:130 | `toUpperCase` of the type name: the same length, each letter upper-cased |
| AssignmentOperator.Apply | dollar-script/src/main/java/dollar/internal/runtime/script/operators/AssignmentOperator.java:117-154 | a builtin target is refused with its message before anything is built; an unknown type name throws; a type builds the type constraint, otherwise the written constraint is used; the flags and the constraint source are carried |
| AssignmentOperator.TruncateToInt | dollar-script/src/main/java/dollar/internal/runtime/script/operators/AssignmentOperator.java:163 | the `(int)` cast of the percentage truncates toward zero |
| AssignmentOperator.Warn | dollar-script/src/main/java/dollar/internal/runtime/script/operators/AssignmentOperator.java:157-167 | fires iff there is a type and a non-empty prediction giving it less than 0.5; then it fails with DollarParserError without a scope source, fails exactly when the source message does, and otherwise carries the expected type, the probable type, its truncated percentage and the message |
| AssignmentOperator.OnRhs | dollar-script/src/main/java/dollar/internal/runtime/script/operators/AssignmentOperator.java:155-217 | the warning is built first, and its failure ends the call before anything is bound or built; otherwise the warning and the dispatch's effects and node |
| AssignmentOperator.UntypedNeverWarns | dollar-script/src/main/java/dollar/internal/runtime/script/operators/AssignmentOperator.java:158 | without a declared type nothing is logged and nothing throws before the dispatch |
| AssignmentOperator.WarningOnLastLineThrows | dollar-script/src/main/java/dollar/internal/runtime/script/operators/AssignmentOperator.java:160-164 | a warned assignment whose token has no newline after it throws StringIndexOutOfBounds before anything is bound |
| AssignmentOperator.Dispatch | dollar-script/src/main/java/dollar/internal/runtime/script/operators/AssignmentOperator.java:169-217 | `?=` sets the variable to the right-hand side (volatile as declared, not fixed) and its listener sets it to each event fixed deeply; `*=` sets it to void as volatile and fixed and its subscriber sets it to each event fixed once; both take the written constraint or else the scope's stored one and its source; any other op builds the assignment |
| AssignmentOperator.ChooseConstraint | dollar-script/src/main/java/dollar/internal/runtime/script/operators/AssignmentOperator.java:79-85 | the written constraint and source when there is a constraint or no scope holds the variable; otherwise the stored ones |
| AssignmentOperator.AssignBody | dollar-script/src/main/java/dollar/internal/runtime/script/operators/AssignmentOperator.java:86-108 | "Constraint failed for variable <name>" goes to the scope's handler iff the chosen constraint is false; a handler that throws ends the assignment there, nothing exported or set; otherwise the fixed value is exported iff the assignment is exported, the variable is set to it last with the written constraint and the chosen source, and void is returned; no export precedes the report |
| AssignmentOperator.TypeCheckFailsExactly | dollar-script/src/main/java/dollar/internal/runtime/script/operators/AssignmentOperator.java:131-135 | with a type constraint the failure is reported iff the value is not of the type or the written constraint beside it is not true |
| AssignmentOperator.NeitherPassesOnlyWithoutType | dollar-script/src/main/java/dollar/internal/runtime/script/operators/AssignmentOperator.java:95 | a written constraint that is neither true nor false passes alone but fails beside a type |
| AssignmentOperator.ConstraintSticky | dollar-script/src/main/java/dollar/internal/runtime/script/operators/AssignmentOperator.java:79-101 | a plain assignment to a variable whose scope stores a constraint checks that stored constraint, and a false one is reported |
| UnaryOp.Validate | dollar-script/src/main/java/dollar/internal/runtime/script/UnaryOp.java:64-78 | passes iff immediacy is opposite to reactivity, the entry is prefix or postfix, and a pure operator has an entry marked pure; an unstated purity throws NullPointerException |
| UnaryOp.UnaryOp.Map | dollar-script/src/main/java/dollar/internal/runtime/script/UnaryOp.java:82-97 | an immediate operator builds an eager node over [operand], otherwise a reactive node on it; both carry the operation's name and evaluate the function on the operand |
| UnaryOp.UnaryOp.SetSource | dollar-script/src/main/java/dollar/internal/runtime/script/UnaryOp.java:101-103 | only the source changes |
| UnaryOp.NewLazy | dollar-script/src/main/java/dollar/internal/runtime/script/UnaryOp.java:43-50 | never immediate; fails exactly as validate does, otherwise a valid operator |
| UnaryOp.New | dollar-script/src/main/java/dollar/internal/runtime/script/UnaryOp.java:52-62 | fails exactly as validate does, otherwise a valid operator with the given immediacy |
| UnaryOp.LazyNeedsReactiveEntry | dollar-script/src/main/java/dollar/internal/runtime/script/UnaryOp.java:43-50 | the four-argument constructor succeeds only on a reactive entry |
| DollarUnaryOperator.Validate | dollar-script/src/main/java/dollar/internal/runtime/script/DollarUnaryOperator.java:87-101 | the same checks, except that only an entry explicitly marked impure fails the purity check |
| DollarUnaryOperator.ValidatorsAgreeOnStatedPurity | dollar-script/src/main/java/dollar/internal/runtime/script/DollarUnaryOperator.java:98-100 | both validators agree when purity is stated or the operator is impure; on unstated purity this one passes where UnaryOp throws |
| DollarUnaryOperator.DollarUnaryOperator.Apply | dollar-script/src/main/java/dollar/internal/runtime/script/DollarUnaryOperator.java:67-80 | eager node over [operand] iff immediate, else reactive; the node carries the current source, the operand and the operator, and run at once it evaluates the function on the operand and that source |
| DollarUnaryOperator.Run | dollar-script/src/main/java/dollar/internal/runtime/script/DollarUnaryOperator.java:73-78 | a node evaluates the function on its operand and the operator's source when it runs, which is the node's own source only while the operator's has not changed |
| DollarUnaryOperator.SourceReadWhenRun | dollar-script/src/main/java/dollar/internal/runtime/script/DollarUnaryOperator.java:69-85 | a node built before a later setSource keeps the earlier source but calls the function with the later one |
| DollarUnaryOperator.DollarUnaryOperator.SetSource | dollar-script/src/main/java/dollar/internal/runtime/script/DollarUnaryOperator.java:82-85 | only the source changes, and with it the source every node the operator built runs with |
| DollarUnaryOperator.NewLazy | dollar-script/src/main/java/dollar/internal/runtime/script/DollarUnaryOperator.java:43-53 | never immediate; fails exactly as validate does |
| DollarUnaryOperator.New | dollar-script/src/main/java/dollar/internal/runtime/script/DollarUnaryOperator.java:55-65 | fails exactly as validate does, otherwise a valid operator with the given immediacy |
| ParserErrorHandlerImpl.Default | dollar-script/src/main/java/dollar/internal/runtime/script/ParserErrorHandlerImpl.java:52-56 | missing variables count, fail fast, not fault tolerant |
| ParserErrorHandlerImpl.HandleAssertion | dollar-script/src/main/java/dollar/internal/runtime/script/ParserErrorHandlerImpl.java:61-68 | to the scope's handler iff not fault tolerant, otherwise a failure value |
| ParserErrorHandlerImpl.HandleDollar | dollar-script/src/main/java/dollar/internal/runtime/script/ParserErrorHandlerImpl.java:72-86 | with a source whose message throws, that exception escapes whatever the flags; otherwise wrapped as "<msg> at <source message>" when there is a source, to the scope's handler iff (missing variable and missing variables count) or fail fast, else a failure value |
| ParserErrorHandlerImpl.LastLineErrorEscapes | dollar-script/src/main/java/dollar/internal/runtime/script/ParserErrorHandlerImpl.java:75-76 | an error located at a token with no newline after it escapes the handler as StringIndexOutOfBoundsException |
| ParserErrorHandlerImpl.Unravel | dollar-script/src/main/java/dollar/internal/runtime/script/ParserErrorHandlerImpl.java:110-117 | an InvocationTargetException gives its cause, anything else itself |
| ParserErrorHandlerImpl.UnravelOneLayer | dollar-script/src/main/java/dollar/internal/runtime/script/ParserErrorHandlerImpl.java:110-117 | exactly one wrapper is stripped |
| ParserErrorHandlerImpl.HandleException | dollar-script/src/main/java/dollar/internal/runtime/script/ParserErrorHandlerImpl.java:88-108 | recursion is thrown as DollarParserError whatever the flags; a sourced Dollar exception gets the source added and is rethrown; anything else is an EXCEPTION failure of the unravelled exception, with the source when present |
| ParserErrorHandlerImpl.RecursionAlwaysThrown | dollar-script/src/main/java/dollar/internal/runtime/script/ParserErrorHandlerImpl.java:91-97 | both generations throw on recursion, with the same message, whatever their flags |
| ParserErrorHandlerImpl.MissingVariableWithoutFailfast | dollar-script/src/main/java/dollar/internal/runtime/script/ParserErrorHandlerImpl.java:80-85 | without fail fast, a missing variable reaches the scope's handler iff missing variables count and the source message does not throw |
| ParserErrorHandler.Default | dollar-script/src/main/java/me/neilellis/dollar/script/ParserErrorHandler.java:37-41 | missing variables count, fail fast, not fault tolerant |
| ParserErrorHandler.HandleAssertion | dollar-script/src/main/java/me/neilellis/dollar/script/ParserErrorHandler.java:44-52 | rewrapped with " at " + source; thrown iff not fault tolerant, otherwise a failure value |
| ParserErrorHandler.HandleScript | dollar-script/src/main/java/me/neilellis/dollar/script/ParserErrorHandler.java:54-62 | thrown as DollarParserException iff (missing variable and missing variables count) or fail fast, otherwise a failure value |
| ParserErrorHandler.Unravel | dollar-script/src/main/java/me/neilellis/dollar/script/ParserErrorHandler.java:64-70 | an InvocationTargetException gives its cause (possibly none), anything else itself |
| ParserErrorHandler.HandleException | dollar-script/src/main/java/me/neilellis/dollar/script/ParserErrorHandler.java:72-88 | recursion always throws; otherwise fail fast throws, fault tolerant returns void, else a failure value; a wrapper without a cause throws NullPointerException |
| ParserErrorHandler.GenericOrder | dollar-script/src/main/java/me/neilellis/dollar/script/ParserErrorHandler.java:79-87 | throw iff fail fast; void iff not fail fast and fault tolerant; failure iff neither |
| ParserErrorHandler.DefaultsThrowEverything | dollar-script/src/main/java/me/neilellis/dollar/script/ParserErrorHandler.java:37-88 | with the defaults, every handle call throws |
| ParserErrorHandler.HandleTopLevel | dollar-script/src/main/java/me/neilellis/dollar/script/ParserErrorHandler.java:94-104 | rethrows exactly what is not a script exception, unchanged; prints the message of an assertion, a parser or a script exception, and nothing else |
| ParserErrorHandler.TopLevelRethrows | dollar-script/src/main/java/me/neilellis/dollar/script/ParserErrorHandler.java:94-104 | nothing is lost at the top level: each throwable is printed or rethrown; assertions and parser exceptions are both; script exceptions are printed and stop there |
| JavaStrings.SplitKeepsAllFields | dollar-script/src/main/java/dollar/internal/runtime/script/SourceSegmentValue.java:83 | when the prefix does not end in a newline, `split` keeps every field and its last field is the text after the last newline |
| JavaStrings.Split | dollar-script/src/main/java/dollar/internal/runtime/script/SourceSegmentValue.java:83 | `split("\n")`: the string itself when it holds no newline; otherwise its fields without the empty ones at the end, the last kept one non-empty; no piece holds a newline |
| JavaStrings.Fields | dollar-script/src/main/java/dollar/internal/runtime/script/SourceSegmentValue.java:83 | one more field than separators, none holding the separator |
| JavaStrings.FieldsJoin | dollar-script/src/main/java/dollar/internal/runtime/script/SourceSegmentValue.java:83 | joining the fields with the separator gives the string back |
| JavaStrings.DropTrailingEmpty | dollar-script/src/main/java/dollar/internal/runtime/script/SourceSegmentValue.java:83 | a prefix of the list, not ending in an empty string, and everything dropped is empty |
| JavaStrings.IndexOf | dollar-script/src/main/java/dollar/internal/runtime/script/SourceSegmentValue.java:86 | `indexOf('\n', from)`: -1, or a position at or after from holding the character with none between |
| JavaStrings.ReplaceChar | dollar-script/src/main/java/dollar/internal/runtime/script/SourceSegmentValue.java:91 | `replaceAll("\n", rep)`: no newline survives when rep holds none; a string without newlines is unchanged |
| JavaStrings.CollapseRuns | dollar-script/src/main/java/dollar/internal/runtime/script/SourceSegmentValue.java:120-122 | `replaceAll("\n+", " ")`: no newline survives, never longer, a string without newlines unchanged |
| JavaStrings.NatToStringRoundTrip | dollar-core/src/main/java/dollar/api/types/DollarMap.java:128 | the decimal form of a size parses back to it, so `"_" + n` keys differ for different sizes |

## Left out

- `$fix` with `parallel` (the `$fork` branch of DollarMap), and `_fix`/`_fixDeep` in SourceNode: concurrency and value forcing outside the core.
  DollarMap's `$fix` is modelled with the forcing of each value as a callback.
- The decimal branches of DollarNumber. They are IEEE double arithmetic; `Minus` only reports that the decimal branch is taken.
- DollarNumber.Plus: a right-hand side that is not a `var` is only reported as handed to the generic `$plus`, which is not modelled.
- DollarNumber.Minus: a right-hand side that is neither an integer nor a decimal `var` is only reported as handed to the generic `$plus` (as written) or `$minus` (MinusIntended); neither is modelled.
- DollarNumber.Plus: the receiver is taken to be an integer; its decimal branch is IEEE double arithmetic.
- toYaml, toHumanString, toJsonObject and toDollarScript of DollarMap: they depend on YAML and JSON libraries.
  Human strings are a callback.
- The `Object` methods (`equals`, `hashCode`, `toString`) and the `proxy == null` branch of SourceNode.invokeMain.
  So are `_predictType` and the TypeLearner, the executor thread hop, and logging.
- SourceNode listener order: the registry is a concurrent hash map, so the iteration order is a parameter that enumerates the keys.
  The model claims no particular order.
- SourceNode.Node.InvokeMain: its `$notify` branch is the code as written (`NotifyAsWritten`).
- SourceNode.Node.RemoveListener: which registered key the removed `var` equals is decided by its `equals`/`hashCode`, which are not modelled; it is passed in as `matching`.
- SourceNode.Node.InvokeMain: getMetaObject and setMetaObject are modelled on string keys; other key objects are not.
- SourceNode listener pipes: whether each pipe throws, and what, is a parameter (`failing`); their effects are not modelled.
- The per-thread stacks (`ThreadLocal`): one thread is modelled, as one `ThreadState` object.
- DollarScriptSupport is not part of this model. Its `pushScope`/`popScope` are taken to push onto and remove from the top of the thread's scope list.
  A pop is taken not to check which scope it removes, and to throw IndexOutOfBoundsException on an empty list.
  The scope stack is therefore a sequence with a log of the pushes and of the pops that completed.
- The FNV short hash of SourceSegmentValue: an external utility.
- SourceSegment.Excerpt: when no newline follows the token, the code as written throws StringIndexOutOfBoundsException.
  This is modelled as that error result rather than excluded by a precondition.
- Scope.set, setVariable, export and the scope's error handler of AssignmentOperator are not part of this model.
  Their calls are returned as effects, in order.
  Type prediction is a parameter, and the type constraint's evaluation and `isFalse()` of a constraint are inputs.
- AssignmentOperator.Apply: Java `assert` statements are treated as enabled, so a written constraint without a source segment is an AssertionError.
  `toUpperCase` is modelled on ASCII letters only.
- AssignmentOperator.AssignBody: `setVariable` is passed the written constraint but the chosen source (lines 105-106), and the model keeps that.
- AssignmentOperator.AssignBody: the `previous` lookup and its assertion inside the constraint scope are not modelled; whether the scope's handler throws is a parameter.
- AssignmentOperator.Warn: the unboxing of a null probability (a NullPointerException) is not modelled; probabilities are reals.
- The messages of AssertionError and StringIndexOutOfBoundsException raised by the source rendering are not modelled, only their kinds.
- The printing of both handlers' `handleTopLevel` (console output, `System.exit`).
  ParserErrorHandler.handleTopLevel is modelled as the lines it prints and what it rethrows; ParserErrorHandlerImpl.handleTopLevel is left out.
- The log output of the error handlers (`printStackTrace`).
- DollarParser grammar construction, the jparsec combinators, markdown parsing and file and stream reading: a third-party parser library and I/O.
- OpDef, the operator table entry type, is not part of this model. Its accessors are fields of a datatype, with its purity a nullable Boolean (an `Option<bool>`).
  This follows DollarUnaryOperator's null check. UnaryOp's unchecked unboxing then throws NullPointerException.

## Findings

| source | as written | input that shows it | evidently intended | confidence | as-written member | corrected member |
|---|---|---|---|---|---|---|
| dollar-core/src/main/java/dollar/api/types/DollarMap.java:111 | `$minus` with a scalar removes the scalar's Java String from a map keyed by values, which removes nothing | {"a": 1} minus "a" | the entry keyed by the scalar's string form is removed | high, not executed | DollarMap.MinusAsWritten, DollarMap.MinusScalarKeepsKey | DollarMap.Minus |
| dollar-core/src/main/java/dollar/api/types/DollarMap.java:251 | `$removeByKey` removes a Java String from a map keyed by values, which removes nothing | {"a": 1} with key "a" | the entry keyed by that string is removed | high, not executed | DollarMap.RemoveByKeyAsWritten, DollarMap.RemoveByKeyKeepsEntry | DollarMap.RemoveByKey |
| dollar-core/src/main/java/dollar/api/types/DollarMap.java:219 | `$insert` walks the new, empty map instead of the receiver, so the pair is never inserted; its `count` is never incremented either, so even a corrected walk would only ever match position 0 | {"b": 2}, pair ("a", 1), position 0 | the pair lands at the position | high, not executed | DollarMap.InsertAsWritten, DollarMap.InsertNeverInserts | DollarMap.Insert |
| dollar-core/src/main/java/me/neilellis/dollar/types/DollarNumber.java:236 | `compareTo` returns the 32-bit `intValue` of the 64-bit difference, which drops the high bits | 2^32 compared with 0 gives 0; 2^31 compared with 0 is negative | the sign of the comparison of the two longs | high, not executed | DollarNumber.CompareToAsWritten, DollarNumber.CompareToTruncates | DollarNumber.CompareTo |
| dollar-script/src/main/java/dollar/internal/runtime/script/SourceSegmentValue.java:83-84 | the line is the length of `split("\n")` of the prefix, and split drops the trailing empty fields when the token starts a line, so both messages report a line too low | source "x\ny\n", index 2: `(1:0)`; source "\nab\n", index 1: `(0:0)` | one more than the newlines before the token: `(2:0)` in both | high, not executed | SourceSegment.LineAsWritten, SourceSegment.SourceMessage, SourceSegment.ShortSourceMessage, SourceSegment.MessageExampleSecondLine, SourceSegment.MessageExampleLineZero | SourceSegment.Line, SourceSegment.IntendedSourceMessage, SourceSegment.IntendedShortSourceMessage, SourceSegment.MessagesAgreeMidLine |
| dollar-script/src/main/java/dollar/internal/runtime/script/SourceNode.java:316-321 | `$notify` removes the node from the notify stack only after normal completion; an execution or a listener's pipe that throws leaves it there | a notify whose execution or first listener throws, then a second notify of the same node | the node is removed in `finally`, so the next notify runs | medium, not executed | SourceNode.Node.NotifyAsWritten, SourceNode.NotifyAfterFailureAsWritten | SourceNode.Node.Notify, SourceNode.NotifyAfterFailure |
| dollar-script/src/main/java/dollar/internal/runtime/script/SourceNode.java:126 | the scope-closure wrapper reverses its captured list in place, so every other run pushes the scopes in reverse order | a closure over scopes [a, b], run twice: the second run pushes b before a | reverse a copy, as lines 219-220 do | high, not executed | SourceNode.ScopeClosure.RunAsWritten, SourceNode.SecondRunAsWritten | SourceNode.ScopeClosure.Run, SourceNode.SecondRun |
| dollar-core/src/main/java/me/neilellis/dollar/types/DollarNumber.java:181 | `$minus` hands an argument it cannot subtract to `super.$plus` | a number minus a non-numeric value: the result is the sum | `super.$minus` | medium, not executed | DollarNumber.Minus, DollarNumber.MinusFallsToPlus | DollarNumber.MinusIntended, DollarNumber.MinusIntendedAgrees, DollarNumber.MinusUndoesPlus |
