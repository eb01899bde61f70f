/** Laws of the primitive engine (Text/Parsec/Prim.js), proved about `Prim.Parse`. */
module PrimLaws {
  import opened Prim

  // ---------------------------------------------------------------
  // Scope: parsers that neither read nor write their scope
  // ---------------------------------------------------------------

  /** `p` neither reads nor writes the scope it runs in: every `bind`, `ret`,
      `withScope`, `parserBind` and named `setPosition` sits inside a `do_`,
      which runs in a fresh scope of its own. */
  predicate Closed(p: Parser)
    decreases p
  {
    match p
    case Return(_) => true
    case Fail(_) => true
    case Zero => true
    case Unexpected(_) => true
    case TokenPrim(_, _) => true
    case TokenPrimP1(_, p1, _) => Closed(p1)
    case Tokens(ps) => forall k :: 0 <= k < |ps| ==> Closed(ps[k])
    case Many(_, q) => Closed(q)
    case Plus(p1, p2) => Closed(p1) && Closed(p2)
    case Then(p1, p2) => Closed(p1) && Closed(p2)
    case Do(_) => true
    case BindP(_, _) => false
    case Bind(_, _) => false
    case Ret(_) => false
    case RetWith(_) => false
    case WithScope(_) => false
    case GetPosition => true
    case SetPosition(_) => true
    case SetPositionVar(_) => false
    case NotFollowedBy(q) => Closed(q)
  }

  /** A closed parser replies the same from every scope and hands that scope
      back unchanged. */
  lemma {:induction false} ClosedParse(p: Parser, input: string, i: nat, sc: Scope, sc0: Scope)
    requires Closed(p)
    ensures Parse(p, input, i, sc) == WithScopeOf(Parse(p, input, i, sc0), sc)
    decreases p, 1, 0
  {
    match p
    case TokenPrimP1(_, p1, post) =>
      ClosedParse(p1, input, i, sc, sc0);
    case Tokens(ps) =>
      if |ps| > 0 { ClosedTokens(ps, 0, input, i, sc, sc0, []); }
    case Many(onePlus, q) =>
      ClosedMany(onePlus, q, input, i, sc, sc0, [], false);
    case Plus(p1, p2) =>
      ClosedParse(p1, input, i, sc, sc0);
      ClosedParse(p1, input, i, sc0, sc0);
      var rep1 := Parse(p1, input, i, sc0);
      if rep1.Ok? && rep1.res.ast.Undef? {
        ClosedParse(p2, input, rep1.end, sc, sc0);
      }
    case Then(p1, p2) =>
      ClosedParse(p1, input, i, sc, sc0);
      ClosedParse(p1, input, i, sc0, sc0);
      var rep1 := Parse(p1, input, i, sc0);
      if rep1.Ok? && rep1.res.success {
        ClosedParse(p2, input, rep1.end, sc, sc0);
      }
    case NotFollowedBy(q) =>
      ClosedParse(q, input, i, sc, sc0);
    case _ =>
  }

  lemma {:induction false} ClosedTokens(ps: seq<Parser>, k: nat, input: string, i: nat, sc: Scope, sc0: Scope, acc: seq<Value>)
    requires k < |ps| && forall j :: 0 <= j < |ps| ==> Closed(ps[j])
    ensures ParseTokens(ps, k, input, i, sc, acc) == WithScopeOf(ParseTokens(ps, k, input, i, sc0, acc), sc)
    decreases Tokens(ps), 0, |ps| - k
  {
    ClosedParse(ps[k], input, i, sc, sc0);
    ClosedParse(ps[k], input, i, sc0, sc0);
    var rep := Parse(ps[k], input, i, sc0);
    if rep.Ok? && rep.res.success && k + 1 < |ps| {
      ClosedTokens(ps, k + 1, input, rep.end, sc, sc0, acc + Items(rep.res.ast));
    }
  }

  lemma {:induction false} ClosedMany(onePlus: bool, q: Parser, input: string, i: nat, sc: Scope, sc0: Scope, acc: seq<Value>, matched: bool)
    requires Closed(q)
    ensures ParseMany(onePlus, q, input, i, sc, acc, matched)
         == WithScopeOf(ParseMany(onePlus, q, input, i, sc0, acc, matched), sc)
    decreases Many(onePlus, q), 0, |input| - i
  {
    ClosedParse(q, input, i, sc, sc0);
    ClosedParse(q, input, i, sc0, sc0);
    var rep := Parse(q, input, i, sc0);
    if rep.Ok? && rep.res.success && i < rep.end <= |input| {
      ClosedMany(onePlus, q, input, rep.end, sc, sc0, acc + Items(rep.res.ast), true);
    }
  }

  // ---------------------------------------------------------------
  // char_ and satisfy
  // ---------------------------------------------------------------

  /** `char_(c)` succeeds, with the character as AST and the cursor one
      further, exactly when the character at the cursor is `c`; otherwise it
      fails expecting `c` with an undefined AST and the cursor unmoved. */
  lemma CharSpec(pid: nat, c: char, input: string, i: nat, sc: Scope)
    ensures var rep := Parse(Char_(pid, c), input, i, sc);
      rep.Ok? && rep.scope == sc
      && (rep.res.success <==> i < |input| && input[i] == c)
      && (rep.res.success ==> rep.res.ast == Def(Str([c])) && rep.end == i + 1 && rep.res.expecting == NoExp)
      && (!rep.res.success ==> rep.res == Result(Undef, false, Msg([c])) && rep.end == i)
  {
  }

  /** `satisfy(pred)` succeeds exactly when there is a character at the
      cursor and `pred` holds of it; on failure it expects that character
      ("" at the end of the input). */
  lemma SatisfySpec(pid: nat, pred: char -> bool, input: string, i: nat, sc: Scope)
    ensures var rep := Parse(Satisfy(pid, pred), input, i, sc);
      rep.Ok? && rep.scope == sc
      && (rep.res.success <==> i < |input| && pred(input[i]))
      && (rep.res.success ==> rep.res.ast == Def(Str([input[i]])) && rep.end == i + 1)
      && (!rep.res.success ==> rep.res == Result(Undef, false, Msg(CharAt(input, i))) && rep.end == i)
  {
  }

  // ---------------------------------------------------------------
  // string
  // ---------------------------------------------------------------

  /** How many leading characters of `s` the input matches from `i`. */
  function MatchLen(s: string, input: string, i: nat): (k: nat)
    ensures k <= |s|
    ensures k == 0 || (i + k <= |input| && s[..k] == input[i..i + k])
    ensures k < |s| ==> !(i + k < |input| && input[i + k] == s[k])
    decreases |s|
  {
    if s != [] && i < |input| && input[i] == s[0] then
      var k' := MatchLen(s[1..], input, i + 1);
      assert s[..k' + 1] == [s[0]] + s[1..][..k'];
      assert k' > 0 ==> input[i..i + k' + 1] == [input[i]] + input[i + 1..i + 1 + k'];
      1 + k'
    else 0
  }

  /** The array of one-character strings `tokens` collects from `char_`s. */
  function Chars(t: string): seq<Value>
  {
    seq(|t|, k requires 0 <= k < |t| => Str([t[k]]))
  }

  /** Joining the one-character strings gives the text back. */
  lemma {:induction false} JoinChars(t: string)
    ensures JoinText(Chars(t)) == t
    decreases |t|
  {
    if t != [] {
      assert Chars(t)[1..] == Chars(t[1..]);
      JoinChars(t[1..]);
      assert t == [t[0]] + t[1..];
    }
  }

  /** One step of the `tokens` run inside `string(s)`: the `j`-th `char_`. */
  lemma CharTokenStep(next: nat, s: string, j: nat, input: string, i: nat, sc: Scope, acc: seq<Value>)
    requires j < |s|
    ensures ParseTokens(CharParsers(next, s), j, input, i, sc, acc)
         == if i < |input| && input[i] == s[j] then
              (if j + 1 < |s| then ParseTokens(CharParsers(next, s), j + 1, input, i + 1, sc, acc + [Str([s[j]])])
               else Ok(Result(Def(List(acc + [Str([s[j]])])), true, NoExp), i + 1, sc))
            else Ok(Result(Def(List(acc)), false, Msg([s[j]])), i, sc)
  {
    var ps := CharParsers(next, s);
    CharSpec(next + j, s[j], input, i, sc);
    assert ps[j] == Char_(next + j, s[j]);
  }

  /** The input at `i` agrees with `s` on the positions `j .. k - 1`. */
  predicate AgreeFrom(s: string, input: string, i: nat, j: nat, k: nat)
  {
    forall m :: j <= m < k ==> i + m < |input| && m < |s| && input[i + m] == s[m]
  }

  /** The `tokens` run inside `string(s)`, from its `j`-th character on, when
      the input matches `s` at `i` exactly up to `k`. */
  lemma {:induction false} StringTokens(next: nat, s: string, j: nat, input: string, i: nat, sc: Scope, k: nat)
    requires j < |s| && j <= k <= |s|
    requires AgreeFrom(s, input, i, j, k)
    requires k < |s| ==> !(i + k < |input| && input[i + k] == s[k])
    ensures ParseTokens(CharParsers(next, s), j, input, i + j, sc, Chars(s[..j]))
         == Ok(Result(Def(List(Chars(s[..k]))), k == |s|, if k == |s| then NoExp else Msg([s[k]])), i + k, sc)
    decreases |s| - j
  {
    var ps := CharParsers(next, s);
    if j < k && j + 1 < |s| {
      StringTokens(next, s, j + 1, input, i, sc, k);
    }
    CharTokenStep(next, s, j, input, i + j, sc, Chars(s[..j]));
    if j < k {
      CharsSnoc(s, j);
      if j + 1 < |s| {
        assert ParseTokens(ps, j, input, i + j, sc, Chars(s[..j]))
            == ParseTokens(ps, j + 1, input, i + (j + 1), sc, Chars(s[..j + 1]));
      } else {
        assert ParseTokens(ps, j, input, i + j, sc, Chars(s[..j]))
            == Ok(Result(Def(List(Chars(s[..j + 1]))), true, NoExp), i + j + 1, sc);
      }
    } else {
      assert ParseTokens(ps, j, input, i + j, sc, Chars(s[..j]))
          == Ok(Result(Def(List(Chars(s[..j]))), false, Msg([s[j]])), i + j, sc);
    }
  }

  /** Inside the matched prefix, the input agrees with `s`. */
  lemma MatchLenAt(s: string, input: string, i: nat, j: nat)
    requires j < MatchLen(s, input, i)
    ensures i + j < |input| && input[i + j] == s[j]
  {
    var k := MatchLen(s, input, i);
    assert s[..k][j] == input[i..i + k][j];
  }

  /** The characters of a one-longer prefix. */
  lemma CharsSnoc(s: string, j: nat)
    requires j < |s|
    ensures Chars(s[..j + 1]) == Chars(s[..j]) + [Str([s[j]])]
  {
    assert Chars(s[..j + 1]) == Chars(s[..j]) + [Str([s[j]])];
  }

  /** All of `s` matches exactly when the input continues with `s`. */
  lemma MatchLenFull(s: string, input: string, i: nat)
    requires s != ""
    ensures MatchLen(s, input, i) == |s| <==> i + |s| <= |input| && input[i..i + |s|] == s
  {
    var k := MatchLen(s, input, i);
    if k == |s| {
      assert s[..|s|] == s;
    }
  }

  /** `string(s)`: with `k` the length of the longest prefix of `s` the input
      matches at the cursor, the reply ends `k` characters on; it succeeds
      exactly when all of `s` matches, and otherwise fails expecting `s` at
      the start index with the matched prefix (undefined when empty) as its
      AST.  (The empty string is `StringEmpty`.) */
  lemma StringSpec(next: nat, s: string, input: string, i: nat, sc: Scope)
    requires s != ""
    ensures var k := MatchLen(s, input, i);
      Parse(String_(next, s), input, i, sc)
      == Ok(Result(if k > 0 then Def(Str(s[..k])) else Undef, k == |s|, if k == |s| then NoExp else At(i, s)), i + k, sc)
  {
    StringInner(next, s, input, i, sc);
    StringOfPrefix(next, s, input, i, sc, MatchLen(s, input, i));
  }

  /** `string(s)` once `tokens` has matched the first `k` characters of `s`. */
  lemma StringOfPrefix(next: nat, s: string, input: string, i: nat, sc: Scope, k: nat)
    ensures (k <= |s| &&
             Parse(Tokens(CharParsers(next, s)), input, i, sc)
             == Ok(Result(Def(List(Chars(s[..k]))), k == |s|, if k == |s| then NoExp else Msg([s[k]])), i + k, sc))
         ==> (Parse(String_(next, s), input, i, sc)
              == Ok(Result(if k > 0 then Def(Str(s[..k])) else Undef, k == |s|, if k == |s| then NoExp else At(i, s)), i + k, sc))
  {
    if k <= |s| {
      var e := if k == |s| then NoExp else Msg([s[k]]);
      StringUnfold(next, s, input, i, sc);
      StringPostPrefix(s, k, e, i, i + k);
    }
  }

  /** `string(s)` is the string transformer applied to what `tokens` replies. */
  lemma StringUnfold(next: nat, s: string, input: string, i: nat, sc: Scope)
    ensures var rep := Parse(Tokens(CharParsers(next, s)), input, i, sc);
      Parse(String_(next, s), input, i, sc)
      == if !rep.Ok? then rep else WithScopeOf(StepPost(StringPost(s), rep.res, rep.end, i), rep.scope)
  {
    assert Parse(String_(next, s), input, i, sc) == ParseP1(String_(next, s), input, i, sc);
  }

  /** The string transformer on the characters of a prefix of `s`: the
      prefix as one string, undefined when empty. */
  lemma StringPostPrefix(s: string, k: nat, e: Expect, start: nat, end: nat)
    ensures k <= |s| ==>
      StepPost(StringPost(s), Result(Def(List(Chars(s[..k]))), k == |s|, e), end, start)
      == Ok(Result(if k > 0 then Def(Str(s[..k])) else Undef, k == |s|, if k == |s| then NoExp else At(start, s)), end, map[])
  {
    if k <= |s| {
      JoinChars(s[..k]);
    }
  }

  /** `string("")` throws: `tokens([])` calls an undefined parser. */
  lemma StringEmpty(next: nat, input: string, i: nat, sc: Scope)
    ensures Parse(String_(next, ""), input, i, sc).Abort?
  {
    assert CharParsers(next, "") == [];
    assert Parse(String_(next, ""), input, i, sc) == ParseP1(String_(next, ""), input, i, sc);
    assert Parse(Tokens([]), input, i, sc).Abort?;
  }

  /** The `tokens` reply inside `string(s)`: the matched characters, ending
      after them. */
  lemma StringInner(next: nat, s: string, input: string, i: nat, sc: Scope)
    ensures var k := MatchLen(s, input, i);
      s != "" ==>
      Parse(Tokens(CharParsers(next, s)), input, i, sc)
      == Ok(Result(Def(List(Chars(s[..k]))), k == |s|, if k == |s| then NoExp else Msg([s[k]])), i + k, sc)
  {
    if s != "" {
      var k := MatchLen(s, input, i);
      forall m | 0 <= m < k
        ensures i + m < |input| && input[i + m] == s[m]
      {
        MatchLenAt(s, input, i, m);
      }
      assert Chars(s[..0]) == [];
      assert Parse(Tokens(CharParsers(next, s)), input, i, sc) == ParseTokens(CharParsers(next, s), 0, input, i, sc, []);
      StringTokens(next, s, 0, input, i, sc, k);
    }
  }

  /** `string(s)` succeeds exactly when the input at the cursor starts with `s`. */
  lemma StringMatches(next: nat, s: string, input: string, i: nat, sc: Scope)
    requires s != ""
    ensures Parse(String_(next, s), input, i, sc).Ok?
    ensures Parse(String_(next, s), input, i, sc).res.success <==> i + |s| <= |input| && input[i..i + |s|] == s
  {
    StringSpec(next, s, input, i, sc);
    MatchLenFull(s, input, i);
  }

  /** When the input continues with all of `s`, `string(s)` returns `s` and
      moves past it. */
  lemma StringWhole(next: nat, s: string, input: string, i: nat, sc: Scope)
    requires s != "" && i + |s| <= |input| && input[i..i + |s|] == s
    ensures Parse(String_(next, s), input, i, sc) == Ok(Result(Def(Str(s)), true, NoExp), i + |s|, sc)
  {
    StringSpec(next, s, input, i, sc);
    MatchLenFull(s, input, i);
    assert s[..|s|] == s;
  }

  // ---------------------------------------------------------------
  // parserPlus and try_
  // ---------------------------------------------------------------

  /** `handleError` applied twice flattens both expectations one level. */
  lemma MergeTwice(e1: Expect, e2: Expect)
    ensures Merge(Merge([], e1), e2) == Merge([], e1) + Merge([], e2)
  {
  }

  /** When `p1` leaves a defined AST, `parserPlus(p1, p2)` is `p1`'s reply
      whatever `p2` is: `p2` never runs. */
  lemma PlusKeepsFirst(p1: Parser, p2: Parser, p3: Parser, input: string, i: nat, sc: Scope)
    requires Parse(p1, input, i, sc).Ok? && Parse(p1, input, i, sc).res.ast.Def?
    ensures Parse(Plus(p1, p2), input, i, sc) == Parse(Plus(p1, p3), input, i, sc)
    ensures var rep1 := Parse(p1, input, i, sc);
      var rep := Parse(Plus(p1, p2), input, i, sc);
      rep.Ok? && rep.res.ast == rep1.res.ast && rep.res.success == rep1.res.success
      && rep.end == rep1.end && rep.scope == rep1.scope
      && rep.res.expecting == (if rep1.res.success then NoExp else Choice(Merge([], rep1.res.expecting)))
  {
  }

  /** When `p1` leaves the AST undefined, `parserPlus(p1, p2)` runs `p2` from
      where `p1` stopped, without rewinding, and a failure expects the flattened
      expectations of both. */
  lemma PlusRunsSecond(p1: Parser, p2: Parser, input: string, i: nat, sc: Scope)
    requires Parse(p1, input, i, sc).Ok? && Parse(p1, input, i, sc).res.ast.Undef?
    ensures var rep1 := Parse(p1, input, i, sc);
      var rep2 := Parse(p2, input, rep1.end, rep1.scope);
      var rep := Parse(Plus(p1, p2), input, i, sc);
      (!rep2.Ok? ==> rep == rep2)
      && (rep2.Ok? ==> rep.Ok? && rep.res.ast == rep2.res.ast && rep.res.success == rep2.res.success
                       && rep.end == rep2.end && rep.scope == rep2.scope
                       && rep.res.expecting == (if rep2.res.success then NoExp
                                                else Choice(Merge([], rep1.res.expecting) + Merge([], rep2.res.expecting))))
  {
    var rep1 := Parse(p1, input, i, sc);
    var rep2 := Parse(p2, input, rep1.end, rep1.scope);
    var errors := Merge([], rep1.res.expecting);
    var rep := Parse(Plus(p1, p2), input, i, sc);
    assert rep == ParsePlus(Plus(p1, p2), input, i, sc);
    if rep2.Ok? {
      var e := if rep2.res.success then NoExp else Choice(Merge(errors, rep2.res.expecting));
      assert rep == Ok(rep2.res.(expecting := e), rep2.end, rep2.scope);
      MergeTwice(rep1.res.expecting, rep2.res.expecting);
    } else {
      assert rep == rep2;
    }
  }

  /** `try_(p)` passes on a success of `p` unchanged; a failure comes back to
      the start index with an undefined AST and `p`'s expectation. */
  lemma TrySpec(pid: nat, p: Parser, input: string, i: nat, sc: Scope)
    ensures var rep := Parse(p, input, i, sc);
      (!rep.Ok? ==> Parse(Try_(pid, p), input, i, sc) == rep)
      && (rep.Ok? && rep.res.success ==> Parse(Try_(pid, p), input, i, sc) == rep)
      && (rep.Ok? && !rep.res.success ==>
            Parse(Try_(pid, p), input, i, sc) == Ok(Result(Undef, false, rep.res.expecting), i, rep.scope))
  {
  }

  /** So after a failed `try_(p1)`, `parserPlus` runs `p2` from the start. */
  lemma TryLetsPlusRetry(pid: nat, p1: Parser, p2: Parser, input: string, i: nat, sc: Scope)
    requires Parse(p1, input, i, sc).Ok? && !Parse(p1, input, i, sc).res.success
    ensures var rep2 := Parse(p2, input, i, Parse(p1, input, i, sc).scope);
      var rep := Parse(Plus(Try_(pid, p1), p2), input, i, sc);
      rep2.Ok? ==> (rep.Ok? && rep.res.ast == rep2.res.ast && rep.res.success == rep2.res.success
                    && rep.end == rep2.end)
  {
    TrySpec(pid, p1, input, i, sc);
    PlusRunsSecond(Try_(pid, p1), p2, input, i, sc);
  }

  /** Without `try_`, a failure that kept a partial AST is never retried. */
  lemma PartialFailureNotRetried(p1: Parser, p2: Parser, input: string, i: nat, sc: Scope)
    requires Parse(p1, input, i, sc).Ok? && !Parse(p1, input, i, sc).res.success
    requires Parse(p1, input, i, sc).res.ast.Def?
    ensures var rep := Parse(Plus(p1, p2), input, i, sc);
      rep.Ok? && !rep.res.success && rep.end == Parse(p1, input, i, sc).end
  {
  }

  /** `string("ab")` on "ac" matches "a" and fails there. */
  lemma StringAbOnAc()
    ensures Parse(String_(0, "ab"), "ac", 0, map[]) == Ok(Result(Def(Str("a")), false, At(0, "ab")), 1, map[])
  {
    StringSpec(0, "ab", "ac", 0, map[]);
    assert MatchLen("ab", "ac", 0) == 1 by {
      assert MatchLen("ab", "ac", 0) == 1 + MatchLen("b", "ac", 1);
    }
    assert "ab"[..1] == "a";
  }

  /** `string("ac")` on "ac" succeeds with "ac". */
  lemma StringAcOnAc()
    ensures Parse(String_(3, "ac"), "ac", 0, map[]) == Ok(Result(Def(Str("ac")), true, NoExp), 2, map[])
  {
    WholeAc();
    StringWhole(3, "ac", "ac", 0, map[]);
  }

  lemma WholeAc()
    ensures "ac"[0..2] == "ac"
  {
  }

  /** `string("ab") <|> string("ac")` on "ac" fails at index 1: the first
      alternative keeps the AST "a", so the second never runs. */
  lemma StringChoiceNeedsTry()
    ensures var rep := Parse(Plus(String_(0, "ab"), String_(3, "ac")), "ac", 0, map[]);
      rep.Ok? && !rep.res.success && rep.res.ast == Def(Str("a")) && rep.end == 1
  {
    StringAbOnAc();
    PlusKeepsFirst(String_(0, "ab"), String_(3, "ac"), String_(3, "ac"), "ac", 0, map[]);
  }

  /** `try_(string("ab")) <|> string("ac")` on "ac" succeeds with "ac". */
  lemma TryStringChoice()
    ensures Parse(Plus(Try_(6, String_(0, "ab")), String_(3, "ac")), "ac", 0, map[])
         == Ok(Result(Def(Str("ac")), true, NoExp), 2, map[])
  {
    StringAbOnAc();
    StringAcOnAc();
    TrySpec(6, String_(0, "ab"), "ac", 0, map[]);
    assert Parse(Try_(6, String_(0, "ab")), "ac", 0, map[]) == Ok(Result(Undef, false, At(0, "ab")), 0, map[]);
    PlusRunsSecond(Try_(6, String_(0, "ab")), String_(3, "ac"), "ac", 0, map[]);
  }

  // ---------------------------------------------------------------
  // parserPlusN
  // ---------------------------------------------------------------

  /** What `parserPlus(p1, p2)` makes of the reply `rep1` of `p1`. */
  function PlusOn(rep1: Reply, p2: Parser, input: string): Reply
  {
    if !rep1.Ok? then rep1
    else
      var errors := Merge([], rep1.res.expecting);
      if rep1.res.ast.Def? then
        Ok(rep1.res.(expecting := if rep1.res.success then NoExp else Choice(errors)), rep1.end, rep1.scope)
      else
        var rep2 := Parse(p2, input, rep1.end, rep1.scope);
        if !rep2.Ok? then rep2
        else Ok(rep2.res.(expecting := if rep2.res.success then NoExp else Choice(Merge(errors, rep2.res.expecting))),
                rep2.end, rep2.scope)
  }

  lemma PlusOnParse(p1: Parser, p2: Parser, input: string, i: nat, sc: Scope)
    ensures Parse(Plus(p1, p2), input, i, sc) == PlusOn(Parse(p1, input, i, sc), p2, input)
  {
    assert Parse(Plus(p1, p2), input, i, sc) == ParsePlus(Plus(p1, p2), input, i, sc);
  }

  /** The choice among `ps[k..]` read left to right: each alternative runs
      from where the one before it stopped; the first to leave a defined AST
      decides, and the rest never run; a failure expects everything gathered
      on the way.  `errors` holds the expectations gathered before `k`.  A
      success with an undefined AST of any alternative but the first clears
      them, because the `parserPlus` around it replaces that success's
      expectation with undefined before the next alternative sees it. */
  function Alternatives(ps: seq<Parser>, k: nat, input: string, i: nat, sc: Scope, errors: seq<Expect>): Reply
    requires k < |ps|
    decreases |ps| - k
  {
    var r := Parse(ps[k], input, i, sc);
    if !r.Ok? then r
    else
      var errs := Merge(errors, r.res.expecting);
      if r.res.ast.Def? || k + 1 == |ps| then
        Ok(r.res.(expecting := if r.res.success then NoExp else Choice(errs)), r.end, r.scope)
      else Alternatives(ps, k + 1, input, r.end, r.scope, if r.res.success && k > 0 then [] else errs)
  }

  /** One more alternative at the end of a chain of at least two. */
  lemma {:induction false} AlternativesSnoc(ps: seq<Parser>, k: nat, input: string, i: nat, sc: Scope, errors: seq<Expect>)
    requires |ps| >= 3 && k < |ps| - 1
    ensures Alternatives(ps, k, input, i, sc, errors)
         == PlusOn(Alternatives(ps[..|ps| - 1], k, input, i, sc, errors), ps[|ps| - 1], input)
    decreases |ps| - k
  {
    var init := ps[..|ps| - 1];
    assert init[k] == ps[k];
    var r := Parse(ps[k], input, i, sc);
    if r.Ok? {
      var errs := Merge(errors, r.res.expecting);
      var e := if r.res.success then NoExp else Choice(errs);
      assert Merge([], Choice(errs)) == errs;
      if r.res.ast.Def? {
        assert Alternatives(init, k, input, i, sc, errors) == Ok(r.res.(expecting := e), r.end, r.scope);
      } else if k + 1 < |ps| - 1 {
        AlternativesSnoc(ps, k + 1, input, r.end, r.scope, if r.res.success && k > 0 then [] else errs);
      } else {
        AlternativesLast(ps, k, input, r.end, r.scope, if r.res.success then [] else errs);
        assert Alternatives(init, k, input, i, sc, errors) == Ok(r.res.(expecting := e), r.end, r.scope);
        assert Merge([], e) == (if r.res.success then [] else errs);
      }
    }
  }

  /** The last alternative of a chain, run after the one before it. */
  lemma AlternativesLast(ps: seq<Parser>, k: nat, input: string, j: nat, sc: Scope, errors: seq<Expect>)
    requires k + 1 == |ps| - 1
    ensures var r2 := Parse(ps[k + 1], input, j, sc);
      Alternatives(ps, k + 1, input, j, sc, errors)
      == if !r2.Ok? then r2
         else Ok(r2.res.(expecting := if r2.res.success then NoExp else Choice(Merge(errors, r2.res.expecting))),
                 r2.end, r2.scope)
  {
  }

  /** The chain `parserPlusN` builds in its loop is the left-to-right choice
      `Alternatives`. */
  lemma {:induction false} PlusChainSpec(ps: seq<Parser>, input: string, i: nat, sc: Scope)
    requires |ps| >= 2
    ensures Parse(PlusChain(ps), input, i, sc) == Alternatives(ps, 0, input, i, sc, [])
    decreases |ps|
  {
    var init := ps[..|ps| - 1];
    PlusOnParse(PlusChain(init), ps[|ps| - 1], input, i, sc);
    if |ps| == 2 {
      assert PlusChain(init) == ps[0];
      var r := Parse(ps[0], input, i, sc);
      if r.Ok? && r.res.ast.Undef? {
        assert Alternatives(ps, 0, input, i, sc, [])
            == Alternatives(ps, 1, input, r.end, r.scope, Merge([], r.res.expecting));
      }
    } else {
      PlusChainSpec(init, input, i, sc);
      AlternativesSnoc(ps, 0, input, i, sc, []);
    }
  }

  // ---------------------------------------------------------------
  // many and many1
  // ---------------------------------------------------------------

  /** Put `acc` in front of the array a `many` reply carries. */
  function Prepend(acc: seq<Value>, rep: Reply): Reply
  {
    if rep.Ok? && rep.res.ast.Def? && rep.res.ast.v.List?
    then Ok(rep.res.(ast := Def(List(acc + rep.res.ast.v.items))), rep.end, rep.scope)
    else rep
  }

  lemma PrependTwice(acc: seq<Value>, a: seq<Value>, rep: Reply)
    ensures Prepend(acc, Prepend(a, rep)) == Prepend(acc + a, rep)
  {
    if rep.Ok? && rep.res.ast.Def? && rep.res.ast.v.List? {
      assert acc + (a + rep.res.ast.v.items) == acc + a + rep.res.ast.v.items;
    }
  }

  /** The AST collected before an iteration is a prefix of the final one. */
  lemma {:induction false} ManyAcc(onePlus: bool, q: Parser, input: string, i: nat, sc: Scope, acc: seq<Value>, matched: bool)
    ensures ParseMany(onePlus, q, input, i, sc, acc, matched)
         == Prepend(acc, ParseMany(onePlus, q, input, i, sc, [], matched))
    decreases |input| - i
  {
    var rep := Parse(q, input, i, sc);
    if rep.Ok? && rep.res.success && i < rep.end <= |input| {
      var a := Items(rep.res.ast);
      var rest := ParseMany(onePlus, q, input, rep.end, rep.scope, [], true);
      assert [] + a == a;
      assert ParseMany(onePlus, q, input, i, sc, [], matched)
          == ParseMany(onePlus, q, input, rep.end, rep.scope, a, true);
      assert ParseMany(onePlus, q, input, i, sc, acc, matched)
          == ParseMany(onePlus, q, input, rep.end, rep.scope, acc + a, true);
      ManyAcc(onePlus, q, input, rep.end, rep.scope, acc + a, true);
      ManyAcc(onePlus, q, input, rep.end, rep.scope, a, true);
      PrependTwice(acc, a, rest);
    } else if rep.Ok? && !rep.res.success {
      assert acc + [] == acc;
    }
  }

  /** Once an iteration has matched, `many1` carries on as `many`. */
  lemma {:induction false} ManyMatched(onePlus: bool, q: Parser, input: string, i: nat, sc: Scope, acc: seq<Value>)
    ensures ParseMany(onePlus, q, input, i, sc, acc, true) == ParseMany(false, q, input, i, sc, acc, false)
    decreases |input| - i
  {
    var rep := Parse(q, input, i, sc);
    if rep.Ok? && rep.res.success && i < rep.end <= |input| {
      ManyMatched(onePlus, q, input, rep.end, rep.scope, acc + Items(rep.res.ast));
      ManyMatched(false, q, input, rep.end, rep.scope, acc + Items(rep.res.ast));
    }
  }

  /** `many(q)` unfolds as: run `q`; on failure succeed with `[]` where the
      failed attempt left the cursor; on progress put `q`'s AST (if defined)
      in front of what `many(q)` collects from there on. */
  lemma ManyUnfold(q: Parser, input: string, i: nat, sc: Scope)
    ensures var r := Parse(q, input, i, sc);
      Parse(Many_(q), input, i, sc)
      == if !r.Ok? then r
         else if !r.res.success then Ok(Result(Def(List([])), true, NoExp), r.end, r.scope)
         else if i < r.end <= |input| then Prepend(Items(r.res.ast), Parse(Many_(q), input, r.end, r.scope))
         else Stuck
  {
    var r := Parse(q, input, i, sc);
    if r.Ok? && r.res.success && i < r.end <= |input| {
      assert [] + Items(r.res.ast) == Items(r.res.ast);
      ManyAcc(false, q, input, r.end, r.scope, Items(r.res.ast), true);
      ManyMatched(false, q, input, r.end, r.scope, []);
    }
  }

  /** `many` never fails: every reply it delivers is a success carrying an
      array, with no expectation. */
  lemma {:induction false} ManySucceeds(q: Parser, input: string, i: nat, sc: Scope, acc: seq<Value>, matched: bool)
    ensures var rep := ParseMany(false, q, input, i, sc, acc, matched);
      rep.Ok? ==> rep.res.success && rep.res.ast.Def? && rep.res.ast.v.List? && rep.res.expecting == NoExp
    decreases |input| - i
  {
    var rep := Parse(q, input, i, sc);
    if rep.Ok? && rep.res.success && i < rep.end <= |input| {
      ManySucceeds(q, input, rep.end, rep.scope, acc + Items(rep.res.ast), true);
    }
  }

  /** `many1(q)` fails exactly when the first attempt fails, and then with an
      undefined AST and that attempt's expectation; once the first attempt
      succeeds it is `many(q)`. */
  lemma Many1Spec(q: Parser, input: string, i: nat, sc: Scope)
    ensures var r := Parse(q, input, i, sc);
      (r.Ok? && !r.res.success ==>
         Parse(Many1(q), input, i, sc) == Ok(Result(Undef, false, r.res.expecting), r.end, r.scope))
      && (r.Ok? && r.res.success ==> Parse(Many1(q), input, i, sc) == Parse(Many_(q), input, i, sc))
      && (Parse(Many1(q), input, i, sc).Ok? ==>
            r.Ok? && (Parse(Many1(q), input, i, sc).res.success <==> r.res.success))
  {
    var r := Parse(q, input, i, sc);
    assert Parse(Many1(q), input, i, sc) == ParseMany(true, q, input, i, sc, [], false);
    assert Parse(Many_(q), input, i, sc) == ParseMany(false, q, input, i, sc, [], false);
    if r.Ok? && r.res.success && i < r.end <= |input| {
      assert [] + Items(r.res.ast) == Items(r.res.ast);
      ManyMatched(true, q, input, r.end, r.scope, Items(r.res.ast));
      ManyMatched(false, q, input, r.end, r.scope, Items(r.res.ast));
      ManySucceeds(q, input, i, sc, [], false);
    }
  }

  /** `many` over a parser that succeeds without consuming never finishes:
      the model answers `Stuck`. */
  lemma ManyOfReturnIsStuck(v: Ast, input: string, i: nat, sc: Scope)
    ensures Parse(Many_(Return(v)), input, i, sc) == Stuck
  {
    assert Parse(Return(v), input, i, sc) == Ok(Result(v, true, NoExp), i, sc);
    assert ParseMany(false, Return(v), input, i, sc, [], false) == Stuck;
  }

  // ---------------------------------------------------------------
  // do2 and do_
  // ---------------------------------------------------------------

  /** Running a sequence with one more parser at the end. */
  lemma {:induction false} SeqSnoc(init: seq<Parser>, last: Parser, k: nat, input: string, i: nat, sc: Scope)
    requires k < |init|
    ensures var r := ParseSeq(init, k, input, i, sc);
      ParseSeq(init + [last], k, input, i, sc)
      == if !r.Ok? || !r.res.success then r else Parse(last, input, r.end, r.scope)
    decreases |init| - k
  {
    var ps := init + [last];
    assert ps[k] == init[k];
    var rep := Parse(init[k], input, i, sc);
    if rep.Ok? && rep.res.success && k + 1 < |init| {
      SeqSnoc(init, last, k + 1, input, i, sc);
      SeqSnoc(init, last, k + 1, input, rep.end, rep.scope);
    } else if rep.Ok? && rep.res.success {
      assert ps[k + 1] == last;
    }
  }

  /** The chain `do_` builds in its loop runs the sequence: each parser from
      where the previous one left off, until one fails. */
  lemma {:induction false} ThenChainSeq(ps: seq<Parser>, input: string, i: nat, sc: Scope)
    requires |ps| > 0
    ensures Parse(ThenChain(ps), input, i, sc) == ParseSeq(ps, 0, input, i, sc)
    decreases |ps|
  {
    if |ps| > 1 {
      var init := ps[..|ps| - 1];
      assert ps == init + [ps[|ps| - 1]];
      ThenChainSeq(init, input, i, sc);
      SeqSnoc(init, ps[|ps| - 1], 0, input, i, sc);
    }
  }

  /** `do_(ps)` runs that chain in a fresh scope and keeps the caller's. */
  lemma DoIsChain(ps: seq<Parser>, input: string, i: nat, sc: Scope)
    requires |ps| > 0
    ensures Parse(Do(ps), input, i, sc) == WithScopeOf(Parse(ThenChain(ps), input, i, map[]), sc)
  {
    ThenChainSeq(ps, input, i, map[]);
  }

  /** `do2` is associative. */
  lemma ThenAssoc(p1: Parser, p2: Parser, p3: Parser, input: string, i: nat, sc: Scope)
    ensures Parse(Then(Then(p1, p2), p3), input, i, sc) == Parse(Then(p1, Then(p2, p3)), input, i, sc)
  {
    var a := Parse(p1, input, i, sc);
    assert Parse(Then(p1, p2), input, i, sc) == ParseThen(Then(p1, p2), input, i, sc);
    assert Parse(Then(p1, Then(p2, p3)), input, i, sc) == ParseThen(Then(p1, Then(p2, p3)), input, i, sc);
    assert Parse(Then(Then(p1, p2), p3), input, i, sc) == ParseThen(Then(Then(p1, p2), p3), input, i, sc);
    if a.Ok? && a.res.success {
      assert Parse(Then(p2, p3), input, a.end, a.scope) == ParseThen(Then(p2, p3), input, a.end, a.scope);
    }
  }

  // ---------------------------------------------------------------
  // parserBind: the monad laws
  // ---------------------------------------------------------------

  /** Sequencing of denotations, as `parserBind` does it. */
  function SemBind(d: Denotation, g: Ast -> Denotation): Denotation
  {
    (st: State) =>
      var r := d(st);
      if !r.Ok? || !r.res.success then r else g(r.res.ast)(State(st.input, r.end, r.scope))
  }

  /** Left identity: `parserBind(return_(v), f)` is `f(v)`. */
  lemma BindLeftIdentity(v: Ast, k: Ast -> Denotation, input: string, i: nat, sc: Scope)
    ensures Parse(BindP(Return(v), k), input, i, sc) == k(v)(State(input, i, sc))
  {
    assert Parse(Return(v), input, i, sc) == Ok(Result(v, true, NoExp), i, sc);
  }

  /** Associativity of `parserBind`. */
  lemma BindAssoc(p: Parser, f: Ast -> Denotation, g: Ast -> Denotation, input: string, i: nat, sc: Scope)
    ensures Parse(BindP(BindP(p, f), g), input, i, sc)
         == Parse(BindP(p, (a: Ast) => SemBind(f(a), g)), input, i, sc)
  {
    var r := Parse(p, input, i, sc);
    if r.Ok? && r.res.success {
      assert Parse(BindP(p, f), input, i, sc) == f(r.res.ast)(State(input, r.end, r.scope));
    } else {
      assert Parse(BindP(p, f), input, i, sc) == r;
    }
  }

  /** A parser built without `parserBind` or `withScope`. */
  predicate FirstOrder(p: Parser)
    decreases p
  {
    match p
    case TokenPrimP1(_, p1, _) => FirstOrder(p1)
    case Tokens(ps) => forall k :: 0 <= k < |ps| ==> FirstOrder(ps[k])
    case Do(ps) => forall k :: 0 <= k < |ps| ==> FirstOrder(ps[k])
    case Many(_, q) => FirstOrder(q)
    case Plus(p1, p2) => FirstOrder(p1) && FirstOrder(p2)
    case Then(p1, p2) => FirstOrder(p1) && FirstOrder(p2)
    case BindP(_, _) => false
    case WithScope(_) => false
    case Bind(_, q) => FirstOrder(q)
    case NotFollowedBy(q) => FirstOrder(q)
    case _ => true
  }

  /** A successful result of a first-order parser carries no expectation. */
  lemma {:induction false} SuccessNoExpect(p: Parser, input: string, i: nat, sc: Scope)
    requires FirstOrder(p)
    ensures var rep := Parse(p, input, i, sc);
      rep.Ok? && rep.res.success ==> rep.res.expecting == NoExp
    decreases p, 1, 0
  {
    match p
    case TokenPrimP1(_, p1, _) =>
      SuccessNoExpect(p1, input, i, sc);
    case Tokens(ps) =>
      if |ps| > 0 { TokensSuccessNoExpect(ps, 0, input, i, sc, []); }
    case Many(onePlus, q) =>
      ManySuccessNoExpect(onePlus, q, input, i, sc, [], false);
    case Then(p1, p2) =>
      var rep1 := Parse(p1, input, i, sc);
      if rep1.Ok? && rep1.res.success {
        SuccessNoExpect(p2, input, rep1.end, rep1.scope);
      }
    case Do(ps) =>
      if |ps| > 0 { SeqSuccessNoExpect(ps, 0, input, i, map[]); }
    case Bind(_, q) =>
      SuccessNoExpect(q, input, i, sc);
    case _ =>
  }

  lemma {:induction false} TokensSuccessNoExpect(ps: seq<Parser>, k: nat, input: string, i: nat, sc: Scope, acc: seq<Value>)
    requires k < |ps|
    ensures var rep := ParseTokens(ps, k, input, i, sc, acc);
      rep.Ok? && rep.res.success ==> rep.res.expecting == NoExp
    decreases |ps| - k
  {
    var rep := Parse(ps[k], input, i, sc);
    if rep.Ok? && rep.res.success && k + 1 < |ps| {
      TokensSuccessNoExpect(ps, k + 1, input, rep.end, rep.scope, acc + Items(rep.res.ast));
    }
  }

  lemma {:induction false} ManySuccessNoExpect(onePlus: bool, q: Parser, input: string, i: nat, sc: Scope, acc: seq<Value>, matched: bool)
    ensures var rep := ParseMany(onePlus, q, input, i, sc, acc, matched);
      rep.Ok? && rep.res.success ==> rep.res.expecting == NoExp
    decreases |input| - i
  {
    var rep := Parse(q, input, i, sc);
    if rep.Ok? && rep.res.success && i < rep.end <= |input| {
      ManySuccessNoExpect(onePlus, q, input, rep.end, rep.scope, acc + Items(rep.res.ast), true);
    }
  }

  lemma {:induction false} SeqSuccessNoExpect(ps: seq<Parser>, k: nat, input: string, i: nat, sc: Scope)
    requires k < |ps| && forall j :: 0 <= j < |ps| ==> FirstOrder(ps[j])
    ensures var rep := ParseSeq(ps, k, input, i, sc);
      rep.Ok? && rep.res.success ==> rep.res.expecting == NoExp
    decreases Do(ps), 0, |ps| - k
  {
    SuccessNoExpect(ps[k], input, i, sc);
    var rep := Parse(ps[k], input, i, sc);
    if rep.Ok? && rep.res.success && k + 1 < |ps| {
      SeqSuccessNoExpect(ps, k + 1, input, rep.end, rep.scope);
    }
  }

  /** Right identity: `parserBind(p, return_)` is `p`, for first-order `p`. */
  lemma BindRightIdentity(p: Parser, input: string, i: nat, sc: Scope)
    requires FirstOrder(p)
    ensures Parse(BindP(p, (a: Ast) => Denote(Return(a))), input, i, sc) == Parse(p, input, i, sc)
  {
    SuccessNoExpect(p, input, i, sc);
  }

  // ---------------------------------------------------------------
  // bind, ret and the position
  // ---------------------------------------------------------------

  /** `do_(bind(x, p), ret(x))` returns what `p` parsed, and leaves the
      caller's scope as it was. */
  lemma BindRet(name: string, p: Parser, input: string, i: nat, sc: Scope)
    requires name != "scope"
    requires Parse(p, input, i, map[]).Ok? && Parse(p, input, i, map[]).res.success
    ensures var r := Parse(p, input, i, map[]);
      Parse(Do([Bind(name, p), Ret(name)]), input, i, sc) == Ok(Result(r.res.ast, true, NoExp), r.end, sc)
  {
    var ps := [Bind(name, p), Ret(name)];
    var r := Parse(p, input, i, map[]);
    var b := Parse(Bind(name, p), input, i, map[]);
    assert b == ParseBind(Bind(name, p), input, i, map[]);
    assert b == Ok(r.res, r.end, r.scope[name := r.res.ast]);
    assert ps[0] == Bind(name, p) && ps[1] == Ret(name);
    assert ParseSeq(ps, 1, input, r.end, b.scope) == Ok(Result(r.res.ast, true, NoExp), r.end, b.scope);
    assert ParseSeq(ps, 0, input, i, map[]) == ParseSeq(ps, 1, input, r.end, b.scope);
  }

  /** `ret(x)` of a name nothing bound throws "Not in scope". */
  lemma RetUnbound(name: string, input: string, i: nat, sc: Scope)
    ensures Parse(Do([Ret(name)]), input, i, sc) == Abort("Not in scope: \"" + name + "\"")
  {
    var empty: Scope := map[];
    assert name !in empty;
    assert ParseSeq([Ret(name)], 0, input, i, map[]) == Parse(Ret(name), input, i, map[]);
  }

  /** `bind("scope", p)` throws. */
  lemma BindScopeThrows(p: Parser, input: string, i: nat, sc: Scope)
    ensures Parse(Bind("scope", p), input, i, sc).Abort?
  {
  }

  /** `getPosition` after `setPosition(n)` returns `n`. */
  lemma SetThenGetPosition(n: nat, input: string, i: nat, sc: Scope)
    ensures Parse(Then(SetPosition(n), GetPosition), input, i, sc) == Ok(Result(Def(Num(n)), true, NoExp), n, sc)
  {
    assert Parse(Then(SetPosition(n), GetPosition), input, i, sc) == ParseThen(Then(SetPosition(n), GetPosition), input, i, sc);
    assert Parse(SetPosition(n), input, i, sc) == Ok(Result(Undef, true, NoExp), n, sc);
    assert Parse(GetPosition, input, n, sc) == Ok(Result(Def(Num(n)), true, NoExp), n, sc);
  }

  /** `do_(bind(p, getPosition), ..., setPosition(p))` returns to the bound position. */
  lemma SetPositionFromScope(q: Parser, input: string, i: nat, sc: Scope)
    requires Closed(q) && Parse(q, input, i, map[]).Ok? && Parse(q, input, i, map[]).res.success
    ensures var r := Parse(q, input, i, map[]);
      Parse(Do([Bind("p", GetPosition), q, SetPositionVar("p")]), input, i, sc)
      == Ok(Result(Undef, true, NoExp), i, sc)
  {
    var ps := [Bind("p", GetPosition), q, SetPositionVar("p")];
    var m: Scope := map["p" := Def(Num(i))];
    ClosedParse(q, input, i, m, map[]);
    var r := Parse(q, input, i, m);
    assert Parse(ps[0], input, i, map[]) == Ok(Result(Def(Num(i)), true, NoExp), i, m);
    assert ParseSeq(ps, 2, input, r.end, m) == Ok(Result(Undef, true, NoExp), i, m);
    assert ParseSeq(ps, 1, input, i, m) == ParseSeq(ps, 2, input, r.end, m);
    assert ParseSeq(ps, 0, input, i, map[]) == ParseSeq(ps, 1, input, i, m);
  }
}
