/**
 * SourceSegmentValue: the location of a token, `length` characters at
 * `index` in the source of a scope, rendered as a 1-based line, a 0-based
 * column and an excerpt of the token's line with the token marked.
 */
module SourceSegment {
  import opened Results
  import JavaStrings

  datatype Failure =
    | AssertionError            // the token runs past the end of the source
    | StringIndexOutOfBounds    // substring with bounds out of order
    | DollarParserError         // the scope has no source

  /** The fields fixed at construction. */
  datatype Segment = Segment(file: Option<string>, source: string, start: int, length: int)

  const UNKNOWN_LOCATION: string := "<unknown location>"

  /** The constructor: a scope without source is refused. */
  function Create(scopeSource: Option<string>, file: Option<string>, t_index: int, t_length: int): (r: Result<Segment, Failure>)
    ensures r.Err? <==> scopeSource.None?
    ensures r.Err? ==> r.error == DollarParserError
    ensures r.Ok? ==> r.value.source == scopeSource.value && r.value.start == t_index && r.value.length == t_length
    ensures r.Ok? ==> r.value.file == file
  {
    if scopeSource.None? then Err(DollarParserError) else Ok(Segment(file, scopeSource.value, t_index, t_length))
  }

  /** A null file name prints as "null" in a string concatenation. */
  function FileName(s: Segment): string
  {
    if s.file.Some? then s.file.value else "null"
  }

  // ---------------------------------------------------------- line and column

  /**
   * The line as written: the number of strings `source[0..index).split("\n")`
   * yields. It never exceeds the true line (see LineAsWrittenMidLine and
   * LineAsWrittenAtLineStart for when it falls short).
   */
  function LineAsWritten(source: string, index: int): (line: int)
    requires 0 <= index <= |source|
    ensures 0 <= line <= Line(source, index)
    ensures index == 0 ==> line == 1
  {
    |JavaStrings.Split(source[..index], '\n')|
  }

  /** The 1-based line of position index: one more than the newlines before it. */
  function Line(source: string, index: int): (line: int)
    requires 0 <= index <= |source|
    ensures line >= 1
    ensures line == |JavaStrings.Fields(source[..index], '\n')|
  {
    JavaStrings.Count(source[..index], '\n') + 1
  }

  /**
   * The column: 0 at the start of the source or just after a newline,
   * otherwise the length of the last string of the split.
   */
  function Column(source: string, index: int): (column: int)
    requires 0 <= index <= |source|
    ensures 0 <= column <= index
    ensures column == |JavaStrings.AfterLast(source[..index], '\n')|
  {
    if index == 0 then 0
    else if source[index - 1] == '\n' then 0
    else
      var lines := JavaStrings.Split(source[..index], '\n');
      JavaStrings.SplitKeepsAllFields(source[..index], '\n');
      |lines[|lines| - 1]|
  }

  /** index - column is where the token's line begins: no newline between it and the token. */
  lemma ColumnFindsLineStart(source: string, index: int)
    requires 0 <= index <= |source|
    ensures var st := index - Column(source, index);
            (st == 0 || source[st - 1] == '\n') && '\n' !in source[st..index]
  {
    var p := source[..index];
    var a := JavaStrings.AfterLast(p, '\n');
    var st := index - |a|;
    assert a == p[st..] && p[st..] == source[st..index];
    if st > 0 {
      assert p[st - 1] == source[st - 1];
    }
  }

  /** Without a newline before the token, it is on line 1 and its column is its index. */
  lemma FirstLine(source: string, index: int)
    requires 0 <= index <= |source|
    requires '\n' !in source[..index]
    ensures LineAsWritten(source, index) == Line(source, index) == 1
    ensures Column(source, index) == index
  {
    JavaStrings.AfterLastWithout(source[..index], '\n');
  }

  /** When the token does not start a line, the line as written is the true line. */
  lemma LineAsWrittenMidLine(source: string, index: int)
    requires 0 <= index <= |source|
    requires index == 0 || source[index - 1] != '\n'
    ensures LineAsWritten(source, index) == Line(source, index)
  {
    var p := source[..index];
    if index > 0 {
      assert p[|p| - 1] == source[index - 1];
    }
    JavaStrings.SplitKeepsAllFields(p, '\n');
  }

  /**
   * When the token starts a line, split drops the empty strings after the
   * trailing newlines, so the line as written falls short of the true line.
   */
  lemma LineAsWrittenAtLineStart(source: string, index: int)
    requires 0 < index <= |source| && source[index - 1] == '\n'
    ensures LineAsWritten(source, index) < Line(source, index)
  {
    var p := source[..index];
    assert p[|p| - 1] == '\n';
    assert '\n' in p;
    var f := JavaStrings.Fields(p, '\n');
    JavaStrings.LastFieldIsAfterLast(p, '\n');
    assert f[|f| - 1] == "";
    var d := JavaStrings.DropTrailingEmpty(f);
    assert forall i | 0 <= i < |d| :: d[i] == f[i];
    assert |d| == 0 || d[|d| - 1] != "";
  }

  /** "x\ny\n" with the token "y": as written it is reported on line 1, though it is on line 2. */
  lemma LineAsWrittenExample()
    ensures LineAsWritten("x\ny\n", 2) == 1
    ensures Line("x\ny\n", 2) == 2
  {
    var p := "x\ny\n"[..2];
    assert p == "x\n";
    assert p[..1] == "x" && "x"[..0] == "";
    assert JavaStrings.Fields("", '\n') == [""];
    assert JavaStrings.Fields("x", '\n') == [""][..0] + [[""][0] + ['x']];
    assert [""][0] + ['x'] == "x" && [""][..0] == [];
    assert JavaStrings.Fields(p, '\n') == ["x", ""];
    assert JavaStrings.DropTrailingEmpty(["x"]) == ["x"];
    assert JavaStrings.DropTrailingEmpty(["x", ""]) == ["x"];
  }

  /** "\nab\n" with the token "a": as written it is reported on line 0, though it is on line 2. */
  lemma LineAsWrittenLineZero()
    ensures LineAsWritten("\nab\n", 1) == 0
    ensures Line("\nab\n", 1) == 2
  {
    var q := "\nab\n"[..1];
    assert q == "\n" && q[..0] == "";
    assert JavaStrings.Fields(q, '\n') == [""] + [""];
    assert JavaStrings.DropTrailingEmpty([""]) == [];
    assert JavaStrings.Count(q, '\n') == 1;
  }

  // -------------------------------------------------------------- the excerpt

  /**
   * Where the excerpt ends: the last index of the source when the token
   * reaches the end, otherwise the first newline at or after the token's
   * end (-1 when there is none).
   */
  function End(source: string, index: int, length: int): int
  {
    if index + length >= |source| then |source| - 1 else JavaStrings.IndexOf(source, '\n', index + length)
  }

  /** The excerpt can be cut only when a newline follows the token. */
  lemma EndValid(source: string, index: int, length: int)
    requires 0 <= index && 0 <= length && index + length <= |source|
    ensures End(source, index, length) >= index + length <==> '\n' in source[index + length..]
    ensures End(source, index, length) >= index + length ==>
              End(source, index, length) < |source| && source[End(source, index, length)] == '\n'
              && '\n' !in source[index + length..End(source, index, length)]
  {
    var from := index + length;
    if from < |source| {
      var e := JavaStrings.IndexOf(source, '\n', from);
      if e == -1 {
        assert forall j :: 0 <= j < |source[from..]| ==> source[from..][j] == source[from + j];
      } else {
        assert source[from..][e - from] == '\n';
        assert forall j :: 0 <= j < |source[from..e]| ==> source[from..e][j] == source[from + j];
      }
    }
  }

  /** What both message methods share: the unknown location, the assertion and the excerpt's bounds. */
  datatype Cut = Unknown | Cut(before: string, token: string, after: string, line: int, column: int)

  function Excerpt(s: Segment): (r: Result<Cut, Failure>)
    ensures s.start < 0 || s.length < 0 ==> r == Ok(Unknown)
    ensures r == Err(AssertionError) <==> 0 <= s.start && 0 <= s.length && s.start + s.length > |s.source|
    ensures r == Err(StringIndexOutOfBounds) <==>
              0 <= s.start && 0 <= s.length && s.start + s.length <= |s.source|
              && '\n' !in s.source[s.start + s.length..]
    ensures r.Ok? && r.value.Cut? ==>
              0 <= s.start && 0 <= s.length && s.start + s.length <= |s.source|
              && End(s.source, s.start, s.length) >= s.start + s.length
              && r.value == CutAt(s.source, s.start, s.length)
  {
    var index, length := s.start, s.length;
    if index < 0 || length < 0 then Ok(Unknown)
    else if index + length > |s.source| then Err(AssertionError)
    else
      EndValid(s.source, index, length);
      if End(s.source, index, length) < index + length then Err(StringIndexOutOfBounds)
      else Ok(CutAt(s.source, index, length))
  }

  /** The excerpt of a token followed by a newline: its line up to the token, the token, and the rest of the line. */
  function CutAt(source: string, index: int, length: int): (c: Cut)
    requires 0 <= index && 0 <= length && index + length <= |source|
    requires End(source, index, length) >= index + length
    ensures c.Cut?
    ensures c.token == source[index..index + length]
    ensures c.line == LineAsWritten(source, index) && c.column == Column(source, index)
    ensures c.before == source[index - c.column..index]
    ensures c.after == source[index + length..End(source, index, length)]
  {
    var column := Column(source, index);
    Cut(source[index - column..index], source[index..index + length], source[index + length..End(source, index, length)],
        LineAsWritten(source, index), column)
  }

  /** The excerpt as intended: the same cut, with the token's true line. */
  function IntendedExcerpt(s: Segment): (r: Result<Cut, Failure>)
    ensures r.Err? <==> Excerpt(s).Err?
    ensures r.Err? ==> r.error == Excerpt(s).error
    ensures r.Ok? && r.value.Unknown? <==> Excerpt(s).Ok? && Excerpt(s).value.Unknown?
    ensures r.Ok? && r.value.Cut? ==>
              var c := Excerpt(s).value;
              r.value.before == c.before && r.value.token == c.token && r.value.after == c.after
              && r.value.column == c.column && r.value.line == Line(s.source, s.start)
  {
    match Excerpt(s)
    case Ok(Cut(before, token, after, _, column)) => Ok(Cut(before, token, after, Line(s.source, s.start), column))
    case other => other
  }

  /** As written, a token that starts a line is reported on an earlier line than the one it is on. */
  lemma ExcerptLineFallsShort(s: Segment)
    requires Excerpt(s).Ok? && Excerpt(s).value.Cut?
    requires s.start > 0 && s.source[s.start - 1] == '\n'
    ensures Excerpt(s).value.line < IntendedExcerpt(s).value.line
  {
    LineAsWrittenAtLineStart(s.source, s.start);
  }

  /** Elsewhere the two excerpts are the same. */
  lemma ExcerptsAgreeMidLine(s: Segment)
    requires s.start <= 0 || (s.start <= |s.source| && s.source[s.start - 1] != '\n')
    ensures Excerpt(s) == IntendedExcerpt(s)
  {
    if Excerpt(s).Ok? && Excerpt(s).value.Cut? {
      LineAsWrittenMidLine(s.source, s.start);
    }
  }

  /**
   * The pieces around the token: `before` runs from the start of the
   * token's line to the token, `after` from the token to the newline that
   * ends its line, and neither holds a newline.
   */
  lemma CutShape(source: string, index: int, length: int)
    requires 0 <= index && 0 <= length && index + length <= |source|
    requires End(source, index, length) >= index + length
    ensures var c := CutAt(source, index, length);
            source[index - c.column..index] == c.before
            && (c.column == index || source[index - c.column - 1] == '\n')
            && '\n' !in c.before && '\n' !in c.after
            && index + length + |c.after| < |source|
            && c.after == source[index + length..index + length + |c.after|]
            && source[index + length + |c.after|] == '\n'
  {
    BeforeShape(source, index, length);
    AfterShape(source, index, length);
  }

  lemma BeforeShape(source: string, index: int, length: int)
    requires 0 <= index && 0 <= length && index + length <= |source|
    requires End(source, index, length) >= index + length
    ensures var c := CutAt(source, index, length);
            source[index - c.column..index] == c.before
            && (c.column == index || source[index - c.column - 1] == '\n')
            && '\n' !in c.before
  {
    var c := CutAt(source, index, length);
    var column := Column(source, index);
    assert c.before == source[index - column..index];
    ColumnFindsLineStart(source, index);
  }

  lemma AfterShape(source: string, index: int, length: int)
    requires 0 <= index && 0 <= length && index + length <= |source|
    requires End(source, index, length) >= index + length
    ensures var c := CutAt(source, index, length);
            '\n' !in c.after
            && index + length + |c.after| < |source|
            && c.after == source[index + length..index + length + |c.after|]
            && source[index + length + |c.after|] == '\n'
  {
    var c := CutAt(source, index, length);
    var end := End(source, index, length);
    assert c.after == source[index + length..end];
    AfterFacts(source, index, length);
    assert index + length + |c.after| == end;
  }

  /** The rest of the token's line: no newline in it, and the newline right after it. */
  lemma AfterFacts(source: string, index: int, length: int)
    requires 0 <= index && 0 <= length && index + length <= |source|
    requires End(source, index, length) >= index + length
    ensures var end := End(source, index, length);
            end < |source| && '\n' !in source[index + length..end] && source[end] == '\n'
  {
    EndValid(source, index, length);
  }

  /** "(line:column)"; as written the line is LineAsWritten (see CutAt). */
  function Position(c: Cut): string
    requires c.Cut?
  {
    "(" + JavaStrings.IntToString(c.line) + ":" + JavaStrings.IntToString(c.column) + ")"
  }

  /** The long form of a cut: its line, re-indented, with the token between arrows, then the file and position. */
  function Render(file: string, c: Cut): string
    requires c.Cut?
  {
    "\n    " + JavaStrings.ReplaceChar(c.before, '\n', "\n    ") + " → " + c.token + " ← "
    + JavaStrings.ReplaceChar(c.after, '\n', "\n    ") + "\n\nsee " + file + Position(c) + "\n"
  }

  /** The short form of a cut: each run of newlines collapsed to a space, then the file and position. */
  function RenderShort(file: string, c: Cut): string
    requires c.Cut?
  {
    " " + JavaStrings.CollapseRuns(c.before, '\n', ' ') + " → " + c.token + " ← "
    + JavaStrings.CollapseRuns(c.after, '\n', ' ') + " " + file + Position(c)
  }

  /**
   * getSourceMessage: the token's line with the token between arrows, then
   * the file and position. Re-indenting the newlines of the two pieces is a
   * no-op, because neither holds a newline.
   */
  function SourceMessage(s: Segment): (r: Result<string, Failure>)
    ensures s.start < 0 || s.length < 0 ==> r == Ok(UNKNOWN_LOCATION)
    ensures r.Err? <==> Excerpt(s).Err?
    ensures r.Err? ==> r.error == Excerpt(s).error
    ensures r.Ok? && Excerpt(s).value.Cut? ==>
              var c := Excerpt(s).value;
              r.value == "\n    " + c.before + " → " + c.token + " ← " + c.after
                         + "\n\nsee " + FileName(s) + Position(c) + "\n"
  {
    match Excerpt(s)
    case Err(e) => Err(e)
    case Ok(Unknown) => Ok(UNKNOWN_LOCATION)
    case Ok(c) =>
      CutShape(s.source, s.start, s.length);
      Ok(Render(FileName(s), c))
  }

  /** getSourceMessage as intended: the same message, giving the token's true line. */
  function IntendedSourceMessage(s: Segment): (r: Result<string, Failure>)
    ensures r.Err? <==> SourceMessage(s).Err?
    ensures r.Err? ==> r.error == SourceMessage(s).error
    ensures r.Ok? && Excerpt(s).value.Unknown? ==> r.value == UNKNOWN_LOCATION
    ensures r.Ok? && Excerpt(s).value.Cut? ==>
              var c := Excerpt(s).value;
              r.value == "\n    " + c.before + " → " + c.token + " ← " + c.after
                         + "\n\nsee " + FileName(s) + Position(c.(line := Line(s.source, s.start))) + "\n"
  {
    match IntendedExcerpt(s)
    case Err(e) => Err(e)
    case Ok(Unknown) => Ok(UNKNOWN_LOCATION)
    case Ok(c) =>
      CutShape(s.source, s.start, s.length);
      Ok(Render(FileName(s), c))
  }

  /**
   * getShortSourceMessage: the same excerpt on one line, each run of
   * newlines collapsed to a space, which again changes nothing.
   */
  function ShortSourceMessage(s: Segment): (r: Result<string, Failure>)
    ensures s.start < 0 || s.length < 0 ==> r == Ok(UNKNOWN_LOCATION)
    ensures r.Err? <==> Excerpt(s).Err?
    ensures r.Err? ==> r.error == Excerpt(s).error
    ensures r.Ok? && Excerpt(s).value.Cut? ==>
              var c := Excerpt(s).value;
              r.value == " " + c.before + " → " + c.token + " ← " + c.after + " " + FileName(s)
                         + Position(c)
  {
    match Excerpt(s)
    case Err(e) => Err(e)
    case Ok(Unknown) => Ok(UNKNOWN_LOCATION)
    case Ok(c) =>
      CutShape(s.source, s.start, s.length);
      Ok(RenderShort(FileName(s), c))
  }

  /** getShortSourceMessage as intended, giving the token's true line. */
  function IntendedShortSourceMessage(s: Segment): (r: Result<string, Failure>)
    ensures r.Err? <==> ShortSourceMessage(s).Err?
    ensures r.Err? ==> r.error == ShortSourceMessage(s).error
    ensures r.Ok? && Excerpt(s).value.Unknown? ==> r.value == UNKNOWN_LOCATION
    ensures r.Ok? && Excerpt(s).value.Cut? ==>
              var c := Excerpt(s).value;
              r.value == " " + c.before + " → " + c.token + " ← " + c.after + " " + FileName(s)
                         + Position(c.(line := Line(s.source, s.start)))
  {
    match IntendedExcerpt(s)
    case Err(e) => Err(e)
    case Ok(Unknown) => Ok(UNKNOWN_LOCATION)
    case Ok(c) =>
      CutShape(s.source, s.start, s.length);
      Ok(RenderShort(FileName(s), c))
  }

  /** Where the token does not start a line, the as-written and the intended messages are the same. */
  lemma MessagesAgreeMidLine(s: Segment)
    requires s.start <= 0 || (s.start <= |s.source| && s.source[s.start - 1] != '\n')
    ensures SourceMessage(s) == IntendedSourceMessage(s)
    ensures ShortSourceMessage(s) == IntendedShortSourceMessage(s)
  {
    ExcerptsAgreeMidLine(s);
  }

  /** The first input that shows the line as written: "y" of "x\ny\n" is reported on line 1. */
  lemma MessageExampleSecondLine(s: Segment)
    requires s == Segment(None, "x\ny\n", 2, 1)
    ensures ShortSourceMessage(s) == Ok("  → y ←  null(1:0)")
    ensures IntendedShortSourceMessage(s) == Ok("  → y ←  null(2:0)")
  {
    ExcerptExampleSecondLine(s);
    Positions(Excerpt(s).value);
    ShortMessageIs(s, " " + "" + " → " + "y" + " ← " + "" + " " + "null" + "(1:0)");
    IntendedShortMessageIs(s, " " + "" + " → " + "y" + " ← " + "" + " " + "null" + "(2:0)");
    TextsSecondLine();
  }

  /** The second input: "a" of "\nab\n" is reported on line 0. */
  lemma MessageExampleLineZero(s: Segment)
    requires s == Segment(None, "\nab\n", 1, 1)
    ensures ShortSourceMessage(s) == Ok("  → a ← b null(0:0)")
    ensures IntendedShortSourceMessage(s) == Ok("  → a ← b null(2:0)")
  {
    ExcerptExampleLineZero(s);
    Positions(Excerpt(s).value);
    ShortMessageIs(s, " " + "" + " → " + "a" + " ← " + "b" + " " + "null" + "(0:0)");
    IntendedShortMessageIs(s, " " + "" + " → " + "a" + " ← " + "b" + " " + "null" + "(2:0)");
    TextsLineZero();
  }

  lemma ShortMessageIs(s: Segment, expected: string)
    requires Excerpt(s).Ok? && Excerpt(s).value.Cut?
    requires var c := Excerpt(s).value;
             expected == " " + c.before + " → " + c.token + " ← " + c.after + " " + FileName(s) + Position(c)
    ensures ShortSourceMessage(s) == Ok(expected)
  {
  }

  lemma IntendedShortMessageIs(s: Segment, expected: string)
    requires Excerpt(s).Ok? && Excerpt(s).value.Cut?
    requires var c := Excerpt(s).value;
             expected == " " + c.before + " → " + c.token + " ← " + c.after + " " + FileName(s)
                         + Position(c.(line := Line(s.source, s.start)))
    ensures IntendedShortSourceMessage(s) == Ok(expected)
  {
  }

  /** The texts the examples print, assembled as the messages assemble them. */
  lemma TextsSecondLine()
    ensures " " + "" + " → " + "y" + " ← " + "" + " " + "null" + "(1:0)" == "  → y ←  null(1:0)"
    ensures " " + "" + " → " + "y" + " ← " + "" + " " + "null" + "(2:0)" == "  → y ←  null(2:0)"
  {
  }

  lemma TextsLineZero()
    ensures " " + "" + " → " + "a" + " ← " + "b" + " " + "null" + "(0:0)" == "  → a ← b null(0:0)"
    ensures " " + "" + " → " + "a" + " ← " + "b" + " " + "null" + "(2:0)" == "  → a ← b null(2:0)"
  {
  }

  /** The positions the two examples print. */
  lemma Positions(c: Cut)
    requires c.Cut? && c.column == 0 && 0 <= c.line <= 2
    ensures Position(c) == "(" + JavaStrings.IntToString(c.line) + ":0)"
    ensures Position(c.(line := 2)) == "(2:0)"
    ensures c.line == 0 ==> Position(c) == "(0:0)"
    ensures c.line == 1 ==> Position(c) == "(1:0)"
  {
    Digits();
  }

  lemma ExcerptExampleSecondLine(s: Segment)
    requires s == Segment(None, "x\ny\n", 2, 1)
    ensures Excerpt(s) == Ok(Cut("", "y", "", 1, 0))
    ensures Line(s.source, s.start) == 2
  {
    var src := s.source;
    LineAsWrittenExample();
    assert JavaStrings.IndexOf(src, '\n', 3) == 3;
    assert src[2..3] == "y" && src[2..2] == "" && src[3..3] == "";
    assert CutAt(src, 2, 1) == Cut("", "y", "", 1, 0);
  }

  lemma ExcerptExampleLineZero(s: Segment)
    requires s == Segment(None, "\nab\n", 1, 1)
    ensures Excerpt(s) == Ok(Cut("", "a", "b", 0, 0))
    ensures Line(s.source, s.start) == 2
  {
    var src := s.source;
    LineAsWrittenLineZero();
    assert JavaStrings.IndexOf(src, '\n', 2) == 3;
    assert src[1..2] == "a" && src[1..1] == "" && src[2..3] == "b";
    assert CutAt(src, 1, 1) == Cut("", "a", "b", 0, 0);
  }

  lemma Digits()
    ensures JavaStrings.IntToString(0) == "0" && JavaStrings.IntToString(1) == "1"
    ensures JavaStrings.IntToString(2) == "2"
  {
  }

  /** Both messages agree on which segments they refuse, and the short one never holds a newline when the token does not. */
  lemma ShortMessageOneLine(s: Segment)
    requires ShortSourceMessage(s).Ok? && Excerpt(s).value.Cut?
    requires '\n' !in Excerpt(s).value.token && '\n' !in FileName(s)
    ensures '\n' !in ShortSourceMessage(s).value
    ensures SourceMessage(s).Ok?
  {
    var c := Excerpt(s).value;
    CutShape(s.source, s.start, s.length);
    var pos := Position(c);
    DigitsOnly(c.line);
    DigitsOnly(c.column);
    NoNewlineJoin("(" + JavaStrings.IntToString(c.line), ":");
    NoNewlineJoin("(" + JavaStrings.IntToString(c.line) + ":", JavaStrings.IntToString(c.column));
    NoNewlineJoin("(" + JavaStrings.IntToString(c.line) + ":" + JavaStrings.IntToString(c.column), ")");
    var m1 := " " + c.before;
    var m2 := m1 + " → ";
    var m3 := m2 + c.token;
    var m4 := m3 + " ← ";
    var m5 := m4 + c.after;
    var m6 := m5 + " ";
    var m7 := m6 + FileName(s);
    NoNewlineJoin(" ", c.before);
    NoNewlineJoin(m1, " → ");
    NoNewlineJoin(m2, c.token);
    NoNewlineJoin(m3, " ← ");
    NoNewlineJoin(m4, c.after);
    NoNewlineJoin(m5, " ");
    NoNewlineJoin(m6, FileName(s));
    NoNewlineJoin(m7, pos);
  }

  lemma NoNewlineJoin(a: string, b: string)
    requires '\n' !in a && '\n' !in b
    ensures '\n' !in a + b
  {
  }

  lemma DigitsOnly(i: int)
    ensures '\n' !in JavaStrings.IntToString(i)
  {
    var d := if i < 0 then JavaStrings.NatToString(-i) else JavaStrings.NatToString(i);
    assert forall k :: 0 <= k < |d| ==> d[k] != '\n';
  }

  /** getSourceSegment: exactly the token's characters; out-of-order bounds throw. */
  function SourceSegment(s: Segment): (r: Result<string, Failure>)
    ensures r.Ok? <==> 0 <= s.start && 0 <= s.length && s.start + s.length <= |s.source|
    ensures r.Ok? ==> (|r.value| == s.length
                       && forall i :: 0 <= i < s.length ==> r.value[i] == s.source[s.start + i])
    ensures r.Err? ==> r.error == StringIndexOutOfBounds
  {
    if 0 <= s.start && 0 <= s.length && s.start + s.length <= |s.source|
    then Ok(s.source[s.start..s.start + s.length])
    else Err(StringIndexOutOfBounds)
  }

  /** Whenever a message has an excerpt, its token is the source segment. */
  lemma ExcerptTokenIsSegment(s: Segment)
    requires Excerpt(s).Ok? && Excerpt(s).value.Cut?
    ensures SourceSegment(s) == Ok(Excerpt(s).value.token)
  {
    var token := s.source[s.start..s.start + s.length];
    assert Excerpt(s).value.token == token;
    assert SourceSegment(s) == Ok(token);
  }
}
