/** `processError` of Text/Parsec/Prim.js: the message `run` builds from the
    `expecting` field of a failed result and the cursor where parsing stopped. */
module PrimError {
  import opened Prim
  import opened CharClass

  // ---------------------------------------------------------------
  // The JavaScript string operations processError uses
  // ---------------------------------------------------------------

  /** The number of line feeds in `s`. */
  function Count(s: string): nat
  {
    multiset(s)['\n']
  }

  lemma CountAppend(a: string, b: string)
    ensures Count(a + b) == Count(a) + Count(b)
  {
    assert multiset(a + b) == multiset(a) + multiset(b);
  }

  lemma CountSnoc(s: string, c: char)
    ensures Count(s + [c]) == Count(s) + (if c == '\n' then 1 else 0)
  {
    CountAppend(s, [c]);
    assert [c][1..] == [];
  }

  lemma CountCut(s: string, c: nat)
    requires c <= |s|
    ensures Count(s) == Count(s[..c]) + Count(s[c..])
  {
    assert s == s[..c] + s[c..];
    CountAppend(s[..c], s[c..]);
  }

  lemma {:induction false} CountZero(s: string)
    ensures Count(s) == 0 <==> '\n' !in s
    decreases |s|
  {
    if s != [] {
      CountZero(s[1..]);
      assert s == [s[0]] + s[1..];
    }
  }

  /** The index of the first line feed. */
  function FirstNewline(s: string): (p: nat)
    requires '\n' in s
    ensures p < |s| && s[p] == '\n'
    decreases |s|
  {
    if s[0] == '\n' then 0 else FirstNewline(s[1..]) + 1
  }

  /** No line feed comes before the first. */
  lemma {:induction false} FirstNewlineClear(s: string)
    requires '\n' in s
    ensures '\n' !in s[..FirstNewline(s)]
    decreases |s|
  {
    if s[0] != '\n' {
      var p' := FirstNewline(s[1..]);
      FirstNewlineClear(s[1..]);
      assert s[..p' + 1] == [s[0]] + s[1..][..p'];
    }
  }

  lemma {:induction false} FirstNewlineIsFirst(s: string, c: nat)
    requires c < |s| && s[c] == '\n'
    ensures FirstNewline(s) <= c
    decreases |s|
  {
    if s[0] != '\n' {
      FirstNewlineIsFirst(s[1..], c - 1);
    }
  }

  /** Cutting at the first line feed: none before it, the one at it, and one
      fewer in the rest. */
  lemma AroundFirstNewline(s: string)
    requires '\n' in s
    ensures var p := FirstNewline(s);
      Count(s[..p]) == 0 && Count(s[..p + 1]) == 1 && Count(s) == 1 + Count(s[p + 1..])
  {
    var p := FirstNewline(s);
    FirstNewlineClear(s);
    CountZero(s[..p]);
    assert s[..p + 1] == s[..p] + [s[p]];
    CountSnoc(s[..p], s[p]);
    CountCut(s, p + 1);
  }

  /** `s.split("\n")`. */
  function Split(s: string): (lines: seq<string>)
    ensures |lines| >= 1
    decreases |s|
  {
    if '\n' in s then
      var p := FirstNewline(s);
      [s[..p]] + Split(s[p + 1..])
    else [s]
  }

  /** `parts.join(sep)`. */
  function JoinWith(parts: seq<string>, sep: string): string
  {
    if |parts| == 0 then ""
    else if |parts| == 1 then parts[0]
    else parts[0] + sep + JoinWith(parts[1..], sep)
  }

  lemma JoinCons(a: string, rest: seq<string>, sep: string)
    requires |rest| >= 1
    ensures JoinWith([a] + rest, sep) == a + sep + JoinWith(rest, sep)
  {
    assert ([a] + rest)[1..] == rest;
  }

  /** The first `n` elements, as `lines.splice(0, n)` returns them. */
  function Splice(lines: seq<string>, n: int): seq<string>
  {
    lines[..if n < 0 then 0 else if n > |lines| then |lines| else n]
  }

  /** `s.substr(start)`. */
  function Suffix(s: string, start: nat): string
  {
    s[if start < |s| then start else |s|..]
  }

  /** `s.substr(start, len)`. */
  function Substr(s: string, start: nat, len: nat): (r: string)
    ensures |r| <= len
  {
    var a := if start < |s| then start else |s|;
    var b := if start + len < |s| then start + len else |s|;
    s[a..b]
  }

  /** `s.split("\n")` has one more piece than `s` has line feeds. */
  lemma {:induction false} SplitLength(s: string)
    ensures |Split(s)| == Count(s) + 1
    decreases |s|
  {
    if '\n' in s {
      var p := FirstNewline(s);
      AroundFirstNewline(s);
      SplitLength(s[p + 1..]);
    } else {
      CountZero(s);
    }
  }

  /** The position of the `n`-th line feed of `s`. */
  function NthNewline(s: string, n: nat): (p: nat)
    requires 1 <= n <= Count(s)
    decreases |s|
  {
    CountZero(s);
    var f := FirstNewline(s);
    if n == 1 then f
    else
      AroundFirstNewline(s);
      f + 1 + NthNewline(s[f + 1..], n - 1)
  }

  /** One step of `NthNewline`: the first line feed, or one more than the
      rest's. */
  lemma NthNewlineStep(s: string, n: nat)
    requires 1 <= n <= Count(s)
    ensures '\n' in s
    ensures n == 1 ==> NthNewline(s, n) == FirstNewline(s)
    ensures n > 1 ==> (1 <= n - 1 <= Count(s[FirstNewline(s) + 1..])
                       && NthNewline(s, n) == FirstNewline(s) + 1 + NthNewline(s[FirstNewline(s) + 1..], n - 1))
  {
    CountZero(s);
    AroundFirstNewline(s);
  }

  lemma SplitStep(s: string)
    requires '\n' in s
    ensures Split(s) == [s[..FirstNewline(s)]] + Split(s[FirstNewline(s) + 1..])
  {
  }

  lemma PrefixCons<T>(a: T, xs: seq<T>, n: nat)
    requires 1 <= n <= |xs| + 1
    ensures ([a] + xs)[..n] == [a] + xs[..n - 1]
  {
  }

  /** The first `n` lines joined back are the text before the `n`-th line feed. */
  lemma {:induction false} JoinSplitPrefix(s: string, n: nat)
    requires 1 <= n <= Count(s)
    ensures n < |Split(s)| && |JoinWith(Split(s)[..n], "\n")| == NthNewline(s, n)
    decreases |s|
  {
    SplitLength(s);
    NthNewlineStep(s, n);
    SplitStep(s);
    var f := FirstNewline(s);
    var rest := s[f + 1..];
    var head := s[..f];
    PrefixCons(head, Split(rest), n);
    var parts := Split(s)[..n];
    if n == 1 {
      assert parts == [head];
      assert JoinWith(parts, "\n") == head;
    } else {
      var tail := Split(rest)[..n - 1];
      JoinSplitPrefix(rest, n - 1);
      JoinStepLength(head, tail, "\n");
    }
  }

  lemma JoinStepLength(head: string, tail: seq<string>, sep: string)
    requires |tail| >= 1
    ensures |JoinWith([head] + tail, sep)| == |head| + |sep| + |JoinWith(tail, sep)|
  {
    JoinCons(head, tail, sep);
  }

  /** Line feeds before a line feed at `c` leave at least it to count. */
  lemma CountBeforeNewline(s: string, c: nat)
    requires c < |s| && s[c] == '\n'
    ensures Count(s[..c]) + 1 <= Count(s)
  {
    assert s[..c + 1] == s[..c] + [s[c]];
    CountSnoc(s[..c], s[c]);
    CountCut(s, c + 1);
  }

  /** Counting a prefix across a cut at `k`. */
  lemma CountPrefixCut(s: string, k: nat, c: nat)
    requires k <= c <= |s|
    ensures Count(s[..c]) == Count(s[..k]) + Count(s[k..][..c - k])
  {
    var t := s[..c];
    CountCut(t, k);
    assert t[..k] == s[..k];
    assert t[k..] == s[k..][..c - k];
  }

  /** The line feeds before `c`, past the first one, are those of the rest. */
  lemma CountShift(s: string, c: nat)
    requires '\n' in s && FirstNewline(s) < c <= |s|
    ensures Count(s[..c]) == 1 + Count(s[FirstNewline(s) + 1..][..c - FirstNewline(s) - 1])
  {
    var f := FirstNewline(s);
    AroundFirstNewline(s);
    CountPrefixCut(s, f + 1, c);
  }

  /** A line feed at `c` is line feed number one more than those before it. */
  lemma {:induction false} NthNewlineAt(s: string, c: nat)
    requires c < |s| && s[c] == '\n'
    ensures Count(s[..c]) + 1 <= Count(s) && NthNewline(s, Count(s[..c]) + 1) == c
    decreases |s|
  {
    CountBeforeNewline(s, c);
    var n := Count(s[..c]) + 1;
    var f := FirstNewline(s);
    FirstNewlineIsFirst(s, c);
    if c == f {
      AroundFirstNewline(s);
      NthNewlineStep(s, 1);
    } else {
      var rest := s[f + 1..];
      var c' := c - f - 1;
      assert rest[c'] == '\n';
      NthNewlineAt(rest, c');
      CountShift(s, c);
      NthNewlineStep(s, n);
    }
  }

  // ---------------------------------------------------------------
  // Line, column and excerpt
  // ---------------------------------------------------------------

  /** The input up to `index` (all of it when `index` is past the end). */
  function Before(input: string, index: nat): string
  {
    input[..if index < |input| then index else |input|]
  }

  lemma BeforeCount(input: string, index: nat)
    ensures Count(Before(input, index)) <= Count(input)
  {
    CountCut(input, if index < |input| then index else |input|);
  }

  /** The column as a reader counts it from the text: `index` on the first
      line, the distance from the last line feed before `index` on the others. */
  function ColumnOf(input: string, index: nat): int
  {
    var n := Count(Before(input, index));
    if n == 0 then index
    else
      BeforeCount(input, index);
      index - NthNewline(input, n)
  }

  /** `linecount - restlc + 1`: the lines of the input minus the lines from
      `index` on, plus one. */
  function Line(input: string, index: nat): int
  {
    |Split(input)| - |Split(Suffix(input, index))| + 1
  }

  /** `index - lines.splice(0, line - 1).join("\n").length`. */
  function Column(input: string, index: nat): int
  {
    index - |JoinWith(Splice(Split(input), Line(input, index) - 1), "\n")|
  }

  /** The reported line is one more than the line feeds before `index`. */
  lemma LineSpec(input: string, index: nat)
    ensures Line(input, index) == 1 + Count(Before(input, index))
  {
    var cut := if index < |input| then index else |input|;
    CountCut(input, cut);
    SplitLength(input);
    SplitLength(input[cut..]);
  }

  /** The reported column is the column counted from the text. */
  lemma ColumnSpec(input: string, index: nat)
    ensures Column(input, index) == ColumnOf(input, index)
  {
    var n := Count(Before(input, index));
    LineSpec(input, index);
    BeforeCount(input, index);
    SplitLength(input);
    assert Splice(Split(input), n) == Split(input)[..n];
    if n > 0 {
      JoinSplitPrefix(input, n);
    } else {
      assert Split(input)[..0] == [];
    }
  }

  /** One character further on, one more line feed before the index or none. */
  lemma BeforeStep(input: string, index: nat)
    requires index < |input|
    ensures Before(input, index) == input[..index]
    ensures Count(Before(input, index + 1))
         == Count(Before(input, index)) + (if input[index] == '\n' then 1 else 0)
  {
    assert Before(input, index + 1) == Before(input, index) + [input[index]];
    CountSnoc(Before(input, index), input[index]);
  }

  /** The column at the start of the input is 0. */
  lemma ColumnAtStart(input: string)
    ensures Column(input, 0) == 0
  {
    ColumnSpec(input, 0);
    assert Before(input, 0) == [];
  }

  /** The column after a line feed is 1. */
  lemma ColumnAfterNewline(input: string, index: nat)
    requires index < |input| && input[index] == '\n'
    ensures Column(input, index + 1) == 1
  {
    BeforeStep(input, index);
    NthNewlineAt(input, index);
    ColumnSpec(input, index + 1);
  }

  /** Any other character moves the column one on. */
  lemma ColumnAfterChar(input: string, index: nat)
    requires index < |input| && input[index] != '\n'
    ensures Column(input, index + 1) == Column(input, index) + 1
  {
    BeforeStep(input, index);
    ColumnSpec(input, index);
    ColumnSpec(input, index + 1);
  }

  /** `input.substr(index, msg.length).substr(0, 6)`: at most six characters
      of the input from `index`, and no more than the expectation is long. */
  function Excerpt(msg: string, input: string, index: nat): (r: string)
    ensures |r| <= 6 && |r| <= |msg|
    ensures index + |r| <= |input| ==> r == input[index..index + |r|]
    ensures |r| == Min(Min(6, |msg|), if index < |input| then |input| - index else 0)
  {
    Substr(Substr(input, index, |msg|), 0, 6)
  }

  function Min(a: int, b: int): int { if a < b then a else b }

  // ---------------------------------------------------------------
  // Numbers as JavaScript prints them
  // ---------------------------------------------------------------

  /** The decimal digits of `n`, as string concatenation prints a number. */
  function NatToString(n: nat): (s: string)
    ensures |s| >= 1 && forall k :: 0 <= k < |s| ==> IsDigit(s[k])
    ensures DigitsValue(10, s) == n
  {
    if n < 10 then
      assert [DigitChar(n)][..0] == [];
      [DigitChar(n)]
    else
      var s := NatToString(n / 10) + [DigitChar(n % 10)];
      assert s[..|s| - 1] == NatToString(n / 10);
      s
  }

  function IntToString(x: int): string
  {
    if x < 0 then "-" + NatToString(-x) else NatToString(x)
  }

  // ---------------------------------------------------------------
  // processError
  // ---------------------------------------------------------------

  /** The message for an expected string `msg` at `index`.  `unexp` is the
      `unexpected` argument; "" stands for `undefined` (both are falsy). */
  function Render(msg: string, input: string, index: nat, unexp: string): string
  {
    var unexpMsg := if unexp != "" then unexp else Excerpt(msg, input, index);
    "Unexpected \"" + (if |unexpMsg| > 0 then unexpMsg else "end of input")
    + (if unexp != "" then "" else "\", expecting \"" + msg)
    + "\" at line " + IntToString(Line(input, index)) + " char " + IntToString(Column(input, index))
  }

  /** The string an element of an expectation array contributes to
      `join`: the `expecting` of an object (`undefined`, so "", for an
      `{unexpected}` object or a nested array), a string as it is, and ""
      for `undefined`. */
  function Text(er: Expect): string
  {
    match er
    case NoExp => ""
    case Msg(m) => m
    case At(_, exp) => exp
    case Unexp(_) => ""
    case Choice(_) => ""
  }

  function Texts(es: seq<Expect>): (ts: seq<string>)
    ensures |ts| == |es| && forall k :: 0 <= k < |es| ==> ts[k] == Text(es[k])
  {
    seq(|es|, k requires 0 <= k < |es| => Text(es[k]))
  }

  function Rank(e: Expect): nat
  {
    match e
    case NoExp => 0
    case Msg(_) => 0
    case At(_, _) => 1
    case Unexp(_) => 1
    case Choice(_) => 2
  }

  /** `processError(e, s, i, unexp)`, with the state `s` given by its input
      and index; `None` is the `undefined` it returns for an `expecting` that
      is neither a string, an array nor an object. */
  function ProcessErrorWith(e: Expect, input: string, stateIndex: nat, i: Option<nat>, unexp: string): Option<string>
    decreases Rank(e)
  {
    var index := if i.None? then stateIndex else i.value;
    match e
    case Msg(m) => Some(Render(m, input, index, unexp))
    case Choice(alts) => ProcessErrorWith(Msg(JoinWith(Texts(alts), "\" or \"")), input, stateIndex, None, "")
    case At(at, exp) => ProcessErrorWith(Msg(exp), input, stateIndex, Some(at), "")
    case Unexp(name) => ProcessErrorWith(NoExp, input, stateIndex, None, name)
    case NoExp => None
  }

  /** `processError(result.expecting, state)`, as `run` calls it. */
  function ProcessError(e: Expect, input: string, index: nat): Option<string>
  {
    ProcessErrorWith(e, input, index, None, "")
  }

  /** The message for an expected string, with its parts in reading order. */
  lemma RenderExpected(m: string, input: string, index: nat)
    ensures var ex := Excerpt(m, input, index);
      Render(m, input, index, "")
      == "Unexpected \"" + (if ex != "" then ex else "end of input") + "\", expecting \"" + m
         + "\" at line " + IntToString(Line(input, index)) + " char " + IntToString(Column(input, index))
  {
    var ex := Excerpt(m, input, index);
    var head := "Unexpected \"" + (if ex != "" then ex else "end of input");
    var n := IntToString(Line(input, index));
    var c := IntToString(Column(input, index));
    assert head + ("\", expecting \"" + m) == head + "\", expecting \"" + m;
  }

  /** An expected string is reported at the state's index: the excerpt there
      (or "end of input"), the expectation, and the line and column counted
      from the text before the index. */
  lemma ProcessErrorMsg(m: string, input: string, index: nat)
    ensures var ex := Excerpt(m, input, index);
      ProcessError(Msg(m), input, index)
      == Some("Unexpected \"" + (if ex != "" then ex else "end of input") + "\", expecting \"" + m
              + "\" at line " + NatToString(1 + Count(Before(input, index)))
              + " char " + IntToString(ColumnOf(input, index)))
  {
    LineSpec(input, index);
    ColumnSpec(input, index);
    RenderExpected(m, input, index);
    assert IntToString(Line(input, index)) == NatToString(1 + Count(Before(input, index)));
    assert ProcessError(Msg(m), input, index) == Some(Render(m, input, index, ""));
  }

  /** An `{at, expecting}` object is reported at its own `at`, not at the
      state's index. */
  lemma ProcessErrorAt(at: nat, m: string, input: string, index: nat)
    ensures ProcessError(At(at, m), input, index) == Some(Render(m, input, at, ""))
  {
    assert ProcessError(At(at, m), input, index) == ProcessErrorWith(Msg(m), input, index, Some(at), "");
  }

  /** An array is reported once, at the state's index, with the expectations
      of its elements joined by `" or "`; positions inside it are dropped. */
  lemma ProcessErrorChoice(alts: seq<Expect>, input: string, index: nat)
    ensures ProcessError(Choice(alts), input, index)
         == Some(Render(JoinWith(Texts(alts), "\" or \""), input, index, ""))
  {
    var joined := JoinWith(Texts(alts), "\" or \"");
    assert ProcessError(Choice(alts), input, index) == ProcessErrorWith(Msg(joined), input, index, None, "");
  }

  // ---------------------------------------------------------------
  // Findings and their corrections
  // ---------------------------------------------------------------

  /** As written, the column is 0-based on the first line and 1-based on the
      others: the first character of the input and the first character after
      a line feed are both at the start of a line, yet report 0 and 1. */
  lemma ColumnBaseDiffers(input: string, k: nat)
    requires k < |input| && input[k] == '\n'
    ensures Column(input, 0) == 0 && Column(input, k + 1) == 1
  {
    ColumnAtStart(input);
    ColumnAfterNewline(input, k);
  }

  /** On `"a\nb"` the `a` is reported in column 0 and the `b` in column 1. */
  lemma ColumnBaseExample()
    ensures Column("a\nb", 0) == 0 && Column("a\nb", 2) == 1
  {
    ColumnBaseDiffers("a\nb", 1);
  }

  /** The column counted from 1 on every line, as the lines are. */
  function ColumnFixed(input: string, index: nat): int
  {
    if Line(input, index) == 1 then Column(input, index) + 1 else Column(input, index)
  }

  /** Corrected: every line starts in column 1 and each other character moves
      one column on. */
  lemma ColumnFixedSpec(input: string, index: nat)
    ensures ColumnFixed(input, 0) == 1
    ensures index < |input| && input[index] == '\n' ==> ColumnFixed(input, index + 1) == 1
    ensures index < |input| && input[index] != '\n' ==> ColumnFixed(input, index + 1) == ColumnFixed(input, index) + 1
  {
    ColumnAtStart(input);
    LineSpec(input, 0);
    assert Before(input, 0) == [];
    if index < |input| {
      LineSpec(input, index);
      LineSpec(input, index + 1);
      BeforeStep(input, index);
      if input[index] == '\n' {
        ColumnAfterNewline(input, index);
      } else {
        ColumnAfterChar(input, index);
      }
    }
  }

  /** As written, an `{unexpected}` object (from `unexpected`, and so from
      `notFollowedBy` and the reserved-word checks) gives no message at all:
      `processError` recurses on its missing `expecting`. */
  lemma UnexpectedIsUndefined(name: string, input: string, index: nat)
    ensures ProcessError(Unexp(name), input, index) == None
  {
    assert ProcessError(Unexp(name), input, index) == ProcessErrorWith(NoExp, input, index, None, name);
  }

  /** Corrected `processError`: an `{unexpected}` object is reported through
      the `unexp` argument, and columns count from 1 on every line. */
  function ProcessErrorFixed(e: Expect, input: string, index: nat): Option<string>
    decreases Rank(e)
  {
    match e
    case Msg(m) => Some(RenderFixed(m, input, index, ""))
    case Choice(alts) => ProcessErrorFixed(Msg(JoinWith(Texts(alts), "\" or \"")), input, index)
    case At(at, exp) => ProcessErrorFixed(Msg(exp), input, at)
    case Unexp(name) => Some(RenderFixed("", input, index, name))
    case NoExp => None
  }

  function RenderFixed(msg: string, input: string, index: nat, unexp: string): string
  {
    var unexpMsg := if unexp != "" then unexp else Excerpt(msg, input, index);
    "Unexpected \"" + (if |unexpMsg| > 0 then unexpMsg else "end of input")
    + (if unexp != "" then "" else "\", expecting \"" + msg)
    + "\" at line " + IntToString(Line(input, index)) + " char " + IntToString(ColumnFixed(input, index))
  }

  /** Corrected: an unexpected token is named in the message, with the line
      and the 1-based column of the state's index. */
  lemma UnexpectedFixed(name: string, input: string, index: nat)
    requires name != ""
    ensures ProcessErrorFixed(Unexp(name), input, index)
         == Some("Unexpected \"" + name + "\" at line " + NatToString(1 + Count(Before(input, index)))
                 + " char " + IntToString(ColumnFixed(input, index)))
  {
    LineSpec(input, index);
    var n := NatToString(1 + Count(Before(input, index)));
    var c := IntToString(ColumnFixed(input, index));
    var head := "Unexpected \"" + name;
    assert IntToString(Line(input, index)) == n;
    assert head + "" == head;
    assert RenderFixed("", input, index, name) == head + "\" at line " + n + " char " + c;
  }

  /** The index an expectation is reported at. */
  function ReportedAt(e: Expect, index: nat): nat
  {
    if e.At? then e.at else index
  }

  /** Corrected and as-written agree on every expectation but `{unexpected}`
      once the reported index is past the first line, where the columns
      already agreed. */
  lemma FixedAgreesPastFirstLine(e: Expect, input: string, index: nat)
    requires !e.Unexp?
    requires Count(Before(input, ReportedAt(e, index))) > 0
    ensures ProcessErrorFixed(e, input, index) == ProcessError(e, input, index)
  {
    var at := ReportedAt(e, index);
    LineSpec(input, at);
    assert ColumnFixed(input, at) == Column(input, at);
    match e
    case NoExp =>
    case Msg(m) =>
    case At(a, m) =>
      ProcessErrorAt(a, m, input, index);
    case Choice(alts) =>
      ProcessErrorChoice(alts, input, index);
  }
}
