/**
 * The few java.lang.String operations the runtime leans on, with the
 * semantics the JDK gives them: String.split with limit 0 (trailing empty
 * strings are dropped, an input without a match comes back whole),
 * indexOf from a position, replaceAll of a newline or of a run of newlines,
 * and the decimal rendering of an int inside a string concatenation.
 */
module JavaStrings {

  /** Number of occurrences of c in s. */
  function Count(s: string, c: char): (n: nat)
    ensures n <= |s|
    ensures n == 0 <==> c !in s
  {
    if |s| == 0 then 0
    else Count(s[..|s| - 1], c) + (if s[|s| - 1] == c then 1 else 0)
  }

  /** s.indexOf(c, from): the first position at or after from holding c, or -1. */
  function IndexOf(s: string, c: char, from: int): (r: int)
    ensures r == -1 || (0 <= from <= r < |s| && s[r] == c) || (from < 0 && 0 <= r < |s| && s[r] == c)
    ensures forall j :: 0 <= j < |s| && from <= j && (r == -1 || j < r) ==> s[j] != c
    decreases |s| - from
  {
    if from < 0 then IndexOf(s, c, 0)
    else if from >= |s| then -1
    else if s[from] == c then from
    else IndexOf(s, c, from + 1)
  }

  /** The text after the last c in s (all of s when it holds no c). */
  function AfterLast(s: string, c: char): (r: string)
    ensures |r| <= |s| && r == s[|s| - |r|..]
    ensures c !in r
    ensures |r| < |s| ==> s[|s| - |r| - 1] == c
  {
    if |s| == 0 then ""
    else if s[|s| - 1] == c then ""
    else
      var init := s[..|s| - 1];
      assert s == init + [s[|s| - 1]];
      AfterLast(init, c) + [s[|s| - 1]]
  }

  /** Every piece of s between occurrences of c, empty pieces included. */
  function Fields(s: string, c: char): (r: seq<string>)
    ensures |r| == Count(s, c) + 1
    ensures forall i :: 0 <= i < |r| ==> c !in r[i]
  {
    if |s| == 0 then [""]
    else
      var f := Fields(s[..|s| - 1], c);
      if s[|s| - 1] == c then f + [""]
      else f[..|f| - 1] + [f[|f| - 1] + [s[|s| - 1]]]
  }

  /** Drops the empty strings at the end of xs. */
  function DropTrailingEmpty(xs: seq<string>): (r: seq<string>)
    ensures |r| <= |xs| && r == xs[..|r|]
    ensures |r| > 0 ==> r[|r| - 1] != ""
    ensures forall i :: |r| <= i < |xs| ==> xs[i] == ""
  {
    if |xs| == 0 then []
    else if xs[|xs| - 1] == "" then DropTrailingEmpty(xs[..|xs| - 1])
    else xs
  }

  /**
   * s.split(c) for a one-character pattern and limit 0: the fields of s
   * without the empty ones at the end; s itself when it holds no c.
   */
  function Split(s: string, c: char): (r: seq<string>)
    ensures c !in s ==> r == [s]
    ensures |r| <= Count(s, c) + 1
    ensures forall i :: 0 <= i < |r| ==> c !in r[i]
    ensures c in s ==> r == Fields(s, c)[..|r|] && (|r| > 0 ==> r[|r| - 1] != "")
                       && forall i :: |r| <= i < |Fields(s, c)| ==> Fields(s, c)[i] == ""
  {
    if c !in s then [s] else DropTrailingEmpty(Fields(s, c))
  }

  /** The pieces joined back with c between them. */
  function Join(xs: seq<string>, c: char): string
  {
    if |xs| == 0 then ""
    else if |xs| == 1 then xs[0]
    else Join(xs[..|xs| - 1], c) + [c] + xs[|xs| - 1]
  }

  /** Joining the fields of s with c gives s back. */
  lemma {:induction false} FieldsJoin(s: string, c: char)
    ensures Join(Fields(s, c), c) == s
  {
    if |s| > 0 {
      var init := s[..|s| - 1];
      var f := Fields(init, c);
      FieldsJoin(init, c);
      assert s == init + [s[|s| - 1]];
      if s[|s| - 1] == c {
        assert (f + [""])[..|f|] == f;
      } else {
        JoinExtendLast(f, c, s[|s| - 1]);
      }
    }
  }

  /** Appending a character to the last piece appends it to the joined string. */
  lemma JoinExtendLast(xs: seq<string>, c: char, ch: char)
    requires |xs| >= 1
    ensures Join(xs[..|xs| - 1] + [xs[|xs| - 1] + [ch]], c) == Join(xs, c) + [ch]
  {
    var ys := xs[..|xs| - 1] + [xs[|xs| - 1] + [ch]];
    if |xs| > 1 {
      assert ys[..|ys| - 1] == xs[..|xs| - 1];
    }
  }

  /** s.replaceAll(c, rep) for a one-character pattern: every c becomes rep. */
  function ReplaceChar(s: string, c: char, rep: string): (r: string)
    ensures c !in rep ==> c !in r
    ensures c !in s ==> r == s
  {
    if |s| == 0 then ""
    else
      var init := s[..|s| - 1];
      assert s == init + [s[|s| - 1]];
      ReplaceChar(init, c, rep) + (if s[|s| - 1] == c then rep else [s[|s| - 1]])
  }

  /** s.replaceAll(c + "+", [sep]): every maximal run of c becomes one sep. */
  function CollapseRuns(s: string, c: char, sep: char): (r: string)
    ensures sep != c ==> c !in r
    ensures c !in s ==> r == s
    ensures |r| <= |s|
  {
    if |s| == 0 then ""
    else
      var init := s[..|s| - 1];
      assert s == init + [s[|s| - 1]];
      if s[|s| - 1] != c then CollapseRuns(init, c, sep) + [s[|s| - 1]]
      else if |init| > 0 && init[|init| - 1] == c then CollapseRuns(init, c, sep)
      else CollapseRuns(init, c, sep) + [sep]
  }

  function Digit(d: nat): (ch: char)
    requires d < 10
    ensures '0' <= ch <= '9'
  {
    ['0', '1', '2', '3', '4', '5', '6', '7', '8', '9'][d]
  }

  function DigitValue(ch: char): nat
  {
    if '0' <= ch <= '9' then (ch as int - '0' as int) else 0
  }

  /** Decimal rendering of a non-negative int, as string concatenation does it. */
  function NatToString(n: nat): (r: string)
    ensures |r| >= 1
    ensures forall i :: 0 <= i < |r| ==> '0' <= r[i] <= '9'
  {
    if n < 10 then [Digit(n)] else NatToString(n / 10) + [Digit(n % 10)]
  }

  /** Decimal rendering of any int, with a leading '-' when negative. */
  function IntToString(i: int): string
  {
    if i < 0 then "-" + NatToString(-i) else NatToString(i)
  }

  /** Reads back a string of decimal digits. */
  function ParseNat(s: string): nat
  {
    if |s| == 0 then 0 else ParseNat(s[..|s| - 1]) * 10 + DigitValue(s[|s| - 1])
  }

  lemma DigitValueOfDigit(d: nat)
    requires d < 10
    ensures DigitValue(Digit(d)) == d
  {
  }

  /** The decimal rendering is read back as the same number. */
  lemma {:induction false} NatToStringRoundTrip(n: nat)
    ensures ParseNat(NatToString(n)) == n
  {
    if n < 10 {
      DigitValueOfDigit(n);
      assert NatToString(n)[..0] == "";
    } else {
      var s := NatToString(n);
      assert s[..|s| - 1] == NatToString(n / 10);
      NatToStringRoundTrip(n / 10);
      DigitValueOfDigit(n % 10);
    }
  }

  /** The last field of a split is the text after the last separator. */
  lemma {:induction false} LastFieldIsAfterLast(s: string, c: char)
    ensures Fields(s, c)[|Fields(s, c)| - 1] == AfterLast(s, c)
  {
    if |s| > 0 {
      LastFieldIsAfterLast(s[..|s| - 1], c);
    }
  }

  /**
   * When s does not end with c, the split keeps every field, so it has one
   * element more than s has separators, and its last element is the text
   * after the last separator.
   */
  lemma SplitKeepsAllFields(s: string, c: char)
    requires |s| == 0 || s[|s| - 1] != c
    ensures |Split(s, c)| == Count(s, c) + 1
    ensures Split(s, c)[|Split(s, c)| - 1] == AfterLast(s, c)
  {
    if c !in s {
      assert Count(s, c) == 0;
      AfterLastWithout(s, c);
    } else {
      LastFieldIsAfterLast(s, c);
      var f := Fields(s, c);
      var r := AfterLast(s, c);
      assert r != "";
      assert f[|f| - 1] != "";
      assert DropTrailingEmpty(f) == f;
      assert Split(s, c) == f;
    }
  }

  lemma {:induction false} AfterLastWithout(s: string, c: char)
    requires c !in s
    ensures AfterLast(s, c) == s
  {
    if |s| > 0 {
      assert s[|s| - 1] in s;
      var init := s[..|s| - 1];
      assert forall x :: x in init ==> x in s;
      AfterLastWithout(init, c);
      assert s == init + [s[|s| - 1]];
    }
  }

  /** replaceAll works piece by piece: replacing in a concatenation is concatenating the replacements. */
  lemma {:induction false} ReplaceCharAppend(a: string, b: string, c: char, rep: string)
    ensures ReplaceChar(a + b, c, rep) == ReplaceChar(a, c, rep) + ReplaceChar(b, c, rep)
    decreases |b|
  {
    if |b| == 0 {
      assert a + b == a;
    } else {
      var init, x := b[..|b| - 1], b[|b| - 1];
      var last := if x == c then rep else [x];
      calc {
        ReplaceChar(a + b, c, rep);
        { assert a + b == (a + init) + [x]; }
        ReplaceChar((a + init) + [x], c, rep);
        { ReplaceCharSnoc(a + init, x, c, rep); }
        ReplaceChar(a + init, c, rep) + last;
        { ReplaceCharAppend(a, init, c, rep); }
        ReplaceChar(a, c, rep) + ReplaceChar(init, c, rep) + last;
        { assert b == init + [x]; ReplaceCharSnoc(init, x, c, rep); }
        ReplaceChar(a, c, rep) + ReplaceChar(b, c, rep);
      }
    }
  }

  lemma ReplaceCharSnoc(s: string, x: char, c: char, rep: string)
    ensures ReplaceChar(s + [x], c, rep) == ReplaceChar(s, c, rep) + (if x == c then rep else [x])
  {
    assert (s + [x])[..|s|] == s;
  }
}
