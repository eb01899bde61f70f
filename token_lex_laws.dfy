/** Laws of the white-space layer of Text/Parsec/Token.js: runs of one
    character class, `whiteSpace`, `lexeme` and `symbol`. */
module TokenLexLaws {
  import opened Prim
  import opened PrimLaws
  import opened CharClass
  import opened Token

  /** Where the longest run of characters satisfying `pred` from `i` ends. */
  function RunEnd(pred: char -> bool, input: string, i: nat): (j: nat)
    ensures i <= j && (i <= |input| ==> j <= |input|)
    decreases |input| - i
  {
    if i < |input| && pred(input[i]) then RunEnd(pred, input, i + 1) else i
  }

  /** The run is as long as it can be: every character in it satisfies
      `pred`, and the one after it (if any) does not. */
  lemma {:induction false} RunEndSpec(pred: char -> bool, input: string, i: nat)
    ensures i <= RunEnd(pred, input, i)
    ensures i <= |input| ==> RunEnd(pred, input, i) <= |input|
    ensures forall k :: i <= k < RunEnd(pred, input, i) ==> k < |input| && pred(input[k])
    ensures RunEnd(pred, input, i) < |input| ==> !pred(input[RunEnd(pred, input, i)])
    decreases |input| - i
  {
    if i < |input| && pred(input[i]) {
      RunEndSpec(pred, input, i + 1);
    }
  }

  /** A run ends where it ends. */
  lemma RunEndStops(pred: char -> bool, input: string, i: nat)
    ensures RunEnd(pred, input, RunEnd(pred, input, i)) == RunEnd(pred, input, i)
  {
    RunEndSpec(pred, input, i);
  }

  lemma CharsCons(t: string)
    requires t != []
    ensures Chars(t) == [Str([t[0]])] + Chars(t[1..])
  {
  }

  // ---------------------------------------------------------------
  // do_ and bind, one step at a time
  // ---------------------------------------------------------------

  /** A two-statement `do_`. */
  lemma Do2(p: Parser, q: Parser, input: string, i: nat, sc: Scope)
    ensures var r := Parse(p, input, i, map[]);
      Parse(Do([p, q]), input, i, sc)
      == WithScopeOf(if !r.Ok? || !r.res.success then r else Parse(q, input, r.end, r.scope), sc)
  {
    var r := Parse(p, input, i, map[]);
    assert Parse(Do([p, q]), input, i, sc) == WithScopeOf(ParseSeq([p, q], 0, input, i, map[]), sc);
    if r.Ok? && r.res.success {
      assert ParseSeq([p, q], 0, input, i, map[]) == ParseSeq([p, q], 1, input, r.end, r.scope);
    }
  }

  /** A three-statement `do_`. */
  lemma Do3(p: Parser, q: Parser, t: Parser, input: string, i: nat, sc: Scope)
    ensures var r := Parse(p, input, i, map[]);
      Parse(Do([p, q, t]), input, i, sc)
      == WithScopeOf(if !r.Ok? || !r.res.success then r
                     else var r2 := Parse(q, input, r.end, r.scope);
                          if !r2.Ok? || !r2.res.success then r2 else Parse(t, input, r2.end, r2.scope), sc)
  {
    var ps := [p, q, t];
    var r := Parse(p, input, i, map[]);
    assert Parse(Do(ps), input, i, sc) == WithScopeOf(ParseSeq(ps, 0, input, i, map[]), sc);
    if r.Ok? && r.res.success {
      var r2 := Parse(q, input, r.end, r.scope);
      assert ParseSeq(ps, 0, input, i, map[]) == ParseSeq(ps, 1, input, r.end, r.scope);
      if r2.Ok? && r2.res.success {
        assert ParseSeq(ps, 1, input, r.end, r.scope) == ParseSeq(ps, 2, input, r2.end, r2.scope);
      }
    }
  }

  /** `bind(name, p)` for a name other than "scope". */
  lemma BindUnfold(name: string, p: Parser, input: string, i: nat, sc: Scope)
    requires name != "scope"
    ensures var r := Parse(p, input, i, sc);
      Parse(Bind(name, p), input, i, sc)
      == if !r.Ok? || !r.res.success then r else Ok(r.res, r.end, r.scope[name := r.res.ast])
  {
    assert Parse(Bind(name, p), input, i, sc) == ParseBind(Bind(name, p), input, i, sc);
  }

  // ---------------------------------------------------------------
  // many, many1 and skipMany over one character class
  // ---------------------------------------------------------------

  /** `_many` over `satisfy(pred)` collects the run of `pred` characters. */
  lemma {:induction false} ManySatisfy(onePlus: bool, pid: nat, pred: char -> bool, input: string, i: nat, sc: Scope, acc: seq<Value>, matched: bool)
    requires i <= |input|
    ensures RunEnd(pred, input, i) <= |input|
    ensures var j := RunEnd(pred, input, i);
      ParseMany(onePlus, Satisfy(pid, pred), input, i, sc, acc, matched)
      == if j > i || matched || !onePlus
         then Ok(Result(Def(List(acc + Chars(input[i..j]))), true, NoExp), j, sc)
         else Ok(Result(Undef, false, Msg(CharAt(input, i))), i, sc)
    decreases |input| - i
  {
    RunEndSpec(pred, input, i);
    SatisfySpec(pid, pred, input, i, sc);
    var j := RunEnd(pred, input, i);
    if i < |input| && pred(input[i]) {
      var a := [Str([input[i]])];
      ManySatisfy(onePlus, pid, pred, input, i + 1, sc, acc + a, true);
      assert ParseMany(onePlus, Satisfy(pid, pred), input, i, sc, acc, matched)
          == ParseMany(onePlus, Satisfy(pid, pred), input, i + 1, sc, acc + a, true);
      CharsCons(input[i..j]);
      assert input[i..j][1..] == input[i + 1..j];
      assert acc + a + Chars(input[i + 1..j]) == acc + (a + Chars(input[i + 1..j]));
    } else {
      assert input[i..j] == [] && Chars([]) == [];
      assert acc + [] == acc;
    }
  }

  /** `many(satisfy(pred))` returns the run as an array of characters and
      stops after it. */
  lemma ManySatisfySpec(pid: nat, pred: char -> bool, input: string, i: nat, sc: Scope)
    requires i <= |input|
    ensures var j := RunEnd(pred, input, i);
      j <= |input|
      && Parse(Many_(Satisfy(pid, pred)), input, i, sc) == Ok(Result(Def(List(Chars(input[i..j]))), true, NoExp), j, sc)
  {
    ManySatisfy(false, pid, pred, input, i, sc, [], false);
    assert [] + Chars(input[i..RunEnd(pred, input, i)]) == Chars(input[i..RunEnd(pred, input, i)]);
  }

  /** `many1(satisfy(pred))` is `many` when the run is not empty and fails
      where it started otherwise. */
  lemma Many1SatisfySpec(pid: nat, pred: char -> bool, input: string, i: nat, sc: Scope)
    requires i <= |input|
    ensures var j := RunEnd(pred, input, i);
      j <= |input|
      && Parse(Many1(Satisfy(pid, pred)), input, i, sc)
         == if j > i then Ok(Result(Def(List(Chars(input[i..j]))), true, NoExp), j, sc)
            else Ok(Result(Undef, false, Msg(CharAt(input, i))), i, sc)
  {
    ManySatisfy(true, pid, pred, input, i, sc, [], false);
    assert [] + Chars(input[i..RunEnd(pred, input, i)]) == Chars(input[i..RunEnd(pred, input, i)]);
  }

  /** `skipMany(q)` is `many(q)` with its AST dropped. */
  lemma SkipManyUnfold(pid: nat, q: Parser, input: string, i: nat, sc: Scope)
    ensures var rep := ParseMany(false, q, input, i, sc, [], false);
      Parse(SkipMany(pid, q), input, i, sc)
      == if !rep.Ok? then rep else Ok(Result(Undef, rep.res.success, rep.res.expecting), rep.end, rep.scope)
  {
    var rep := ParseMany(false, q, input, i, sc, [], false);
    assert Parse(Many(false, q), input, i, sc) == rep;
    assert Parse(SkipMany(pid, q), input, i, sc) == ParseP1(SkipMany(pid, q), input, i, sc);
  }

  /** `skipMany(satisfy(pred))` moves past the run and returns nothing. */
  lemma SkipManySatisfySpec(pid: nat, pid': nat, pred: char -> bool, input: string, i: nat, sc: Scope)
    ensures Parse(SkipMany(pid, Satisfy(pid', pred)), input, i, sc)
         == Ok(Result(Undef, true, NoExp), RunEnd(pred, input, i), sc)
  {
    SkipManyUnfold(pid, Satisfy(pid', pred), input, i, sc);
    if i <= |input| {
      ManySatisfy(false, pid', pred, input, i, sc, [], false);
    } else {
      SatisfySpec(pid', pred, input, i, sc);
      assert RunEnd(pred, input, i) == i;
      assert ParseMany(false, Satisfy(pid', pred), input, i, sc, [], false)
          == Ok(Result(Def(List([])), true, NoExp), i, sc);
    }
  }

  // ---------------------------------------------------------------
  // Parsers of one character class
  // ---------------------------------------------------------------

  /** One step of a parser that reads one character of the class `pred`:
      a matching character is taken and returned, anything else fails
      without moving and with an undefined AST; the scope is kept.  The
      expectation of a failure is left open. */
  predicate CharStep(rep: Reply, pred: char -> bool, input: string, i: nat, sc: Scope)
  {
    rep.Ok? && rep.scope == sc
    && if i < |input| && pred(input[i])
       then rep.res.success && rep.res.ast == Def(Str([input[i]])) && rep.end == i + 1
       else !rep.res.success && rep.res.ast == Undef && rep.end == i
  }

  /** `p` reads one character of the class `pred`, from every state: the
      shape of `letter`, `char_('_')`, `oneOf(cs)` and their choices, which
      a `LanguageDef` gives as `identStart`, `identLetter`, `opStart` and
      `opLetter`. */
  ghost predicate OneCharOf(p: Parser, pred: char -> bool)
  {
    forall input: string, i: nat, sc: Scope :: CharStep(Parse(p, input, i, sc), pred, input, i, sc)
  }

  lemma SatisfyOneChar(pid: nat, pred: char -> bool)
    ensures OneCharOf(Satisfy(pid, pred), pred)
  {
    forall input: string, i: nat, sc: Scope
      ensures CharStep(Parse(Satisfy(pid, pred), input, i, sc), pred, input, i, sc)
    {
      SatisfySpec(pid, pred, input, i, sc);
    }
  }

  lemma CharOneChar(pid: nat, c: char)
    ensures OneCharOf(Char_(pid, c), d => d == c)
  {
    forall input: string, i: nat, sc: Scope
      ensures CharStep(Parse(Char_(pid, c), input, i, sc), d => d == c, input, i, sc)
    {
      CharSpec(pid, c, input, i, sc);
    }
  }

  /** A choice of two one-character parsers reads one character of either
      class: the first fails without moving and with an undefined AST, so
      `parserPlus` runs the second from the same place. */
  lemma PlusOneChar(p1: Parser, pred1: char -> bool, p2: Parser, pred2: char -> bool)
    requires OneCharOf(p1, pred1) && OneCharOf(p2, pred2)
    ensures OneCharOf(Plus(p1, p2), c => pred1(c) || pred2(c))
  {
    forall input: string, i: nat, sc: Scope
      ensures CharStep(Parse(Plus(p1, p2), input, i, sc), c => pred1(c) || pred2(c), input, i, sc)
    {
      assert CharStep(Parse(p1, input, i, sc), pred1, input, i, sc);
      assert CharStep(Parse(p2, input, i, sc), pred2, input, i, sc);
      assert Parse(Plus(p1, p2), input, i, sc) == ParsePlus(Plus(p1, p2), input, i, sc);
    }
  }

  /** A label changes only the expectation of a failure. */
  lemma LabelOneChar(pid: nat, p: Parser, pred: char -> bool, text: string)
    requires OneCharOf(p, pred)
    ensures OneCharOf(Label(pid, p, text), pred)
  {
    forall input: string, i: nat, sc: Scope
      ensures CharStep(Parse(Label(pid, p, text), input, i, sc), pred, input, i, sc)
    {
      assert CharStep(Parse(p, input, i, sc), pred, input, i, sc);
      assert Parse(Label(pid, p, text), input, i, sc) == ParseP1(Label(pid, p, text), input, i, sc);
    }
  }

  /** The class only matters through its value on each character. */
  lemma OneCharOfSameClass(p: Parser, pred: char -> bool, pred': char -> bool)
    requires OneCharOf(p, pred) && forall c :: pred(c) == pred'(c)
    ensures OneCharOf(p, pred')
  {
    forall input: string, i: nat, sc: Scope
      ensures CharStep(Parse(p, input, i, sc), pred', input, i, sc)
    {
      assert CharStep(Parse(p, input, i, sc), pred, input, i, sc);
    }
  }

  /** `many` over a one-character parser is `many(satisfy(pred))`: the loop
      never reads the expectation of the failing iteration. */
  lemma {:induction false} ManyOneChar(q: Parser, pred: char -> bool, input: string, i: nat, sc: Scope,
                                       acc: seq<Value>, matched: bool)
    requires OneCharOf(q, pred)
    ensures ParseMany(false, q, input, i, sc, acc, matched)
         == ParseMany(false, Satisfy(0, pred), input, i, sc, acc, matched)
    decreases |input| - i
  {
    assert CharStep(Parse(q, input, i, sc), pred, input, i, sc);
    SatisfySpec(0, pred, input, i, sc);
    if i < |input| && pred(input[i]) {
      ManyOneChar(q, pred, input, i + 1, sc, acc + [Str([input[i]])], true);
    }
  }

  /** `many(q)` over a one-character parser returns the run of its class as
      an array of characters and stops after it. */
  lemma ManyCharSpec(q: Parser, pred: char -> bool, input: string, i: nat, sc: Scope)
    requires OneCharOf(q, pred) && i <= |input|
    ensures var j := RunEnd(pred, input, i);
      j <= |input|
      && Parse(Many_(q), input, i, sc) == Ok(Result(Def(List(Chars(input[i..j]))), true, NoExp), j, sc)
  {
    ManyOneChar(q, pred, input, i, sc, [], false);
    ManySatisfySpec(0, pred, input, i, sc);
  }

  // ---------------------------------------------------------------
  // whiteSpace
  // ---------------------------------------------------------------

  /** `simpleSpace` moves past a non-empty run of white space, or fails
      where it started. */
  lemma SimpleSpaceSpec(input: string, i: nat, sc: Scope)
    ensures var j := RunEnd(IsSpace, input, i);
      Parse(SimpleSpace, input, i, sc)
      == if j > i then Ok(Result(Undef, true, NoExp), j, sc)
         else Ok(Result(Undef, false, Msg(CharAt(input, i))), i, sc)
  {
    var sp := Satisfy(0, IsSpace);
    var ps := [sp, SkipMany(0, sp)];
    SatisfySpec(0, IsSpace, input, i, map[]);
    assert Parse(SimpleSpace, input, i, sc) == WithScopeOf(ParseSeq(ps, 0, input, i, map[]), sc);
    if i < |input| && IsSpace(input[i]) {
      SkipManySatisfySpec(0, 0, IsSpace, input, i + 1, map[]);
      assert RunEnd(IsSpace, input, i) == RunEnd(IsSpace, input, i + 1);
      assert ParseSeq(ps, 0, input, i, map[]) == ParseSeq(ps, 1, input, i + 1, map[]);
    }
  }

  lemma LabelledSpaceSpec(input: string, i: nat, sc: Scope)
    ensures var j := RunEnd(IsSpace, input, i);
      Parse(Label(0, SimpleSpace, ""), input, i, sc)
      == if j > i then Ok(Result(Undef, true, NoExp), j, sc)
         else Ok(Result(Undef, false, At(i, "")), i, sc)
  {
    SimpleSpaceSpec(input, i, sc);
  }

  /** `whiteSpace` moves past all white space at the cursor, always succeeds,
      and leaves the scope alone. */
  lemma WhiteSpaceSpec(input: string, i: nat, sc: Scope)
    ensures Parse(WhiteSpace, input, i, sc) == Ok(Result(Undef, true, NoExp), RunEnd(IsSpace, input, i), sc)
  {
    var l := Label(0, SimpleSpace, "");
    var j := RunEnd(IsSpace, input, i);
    LabelledSpaceSpec(input, i, sc);
    RunEndSpec(IsSpace, input, i);
    var tail := ParseMany(false, l, input, j, sc, [], true);
    SkipManyUnfold(0, l, input, i, sc);
    if j > i {
      RunEndStops(IsSpace, input, i);
      LabelledSpaceSpec(input, j, sc);
      assert tail == Ok(Result(Def(List([])), true, NoExp), j, sc);
      assert [] + Items(Undef) == [];
      assert ParseMany(false, l, input, i, sc, [], false) == tail;
    } else {
      assert ParseMany(false, l, input, i, sc, [], false) == Ok(Result(Def(List([])), true, NoExp), j, sc);
    }
  }

  // ---------------------------------------------------------------
  // lexeme and symbol
  // ---------------------------------------------------------------

  /** `lexeme(p)` runs `p` in the fresh scope of its `do_`; after a success it
      skips the white space that follows and returns `p`'s AST; a failure of
      `p` is its own result, in the caller's scope. */
  lemma LexemeSpec(p: Parser, input: string, i: nat, sc: Scope)
    ensures var r := Parse(p, input, i, map[]);
      Parse(Lexeme(p), input, i, sc)
      == if !r.Ok? then r
         else if !r.res.success then Ok(r.res, r.end, sc)
         else Ok(Result(r.res.ast, true, NoExp), RunEnd(IsSpace, input, r.end), sc)
  {
    var r := Parse(p, input, i, map[]);
    var ps := [Bind("x", p), WhiteSpace, Ret("x")];
    assert Parse(Lexeme(p), input, i, sc) == WithScopeOf(ParseSeq(ps, 0, input, i, map[]), sc);
    assert Parse(ps[0], input, i, map[]) == ParseBind(ps[0], input, i, map[]);
    if r.Ok? && r.res.success {
      var s1 := r.scope["x" := r.res.ast];
      var j := RunEnd(IsSpace, input, r.end);
      WhiteSpaceSpec(input, r.end, s1);
      assert ParseSeq(ps, 0, input, i, map[]) == ParseSeq(ps, 1, input, r.end, s1);
      assert ParseSeq(ps, 1, input, r.end, s1) == ParseSeq(ps, 2, input, j, s1);
      assert Parse(Ret("x"), input, j, s1) == Ok(Result(r.res.ast, true, NoExp), j, s1);
    }
  }

  /** `symbol(name)` matches `name` and the white space after it; a partial
      match fails where it stopped, expecting `name` at the start, with the
      matched prefix as its AST. */
  lemma SymbolSpec(name: string, input: string, i: nat, sc: Scope)
    requires name != ""
    ensures var k := MatchLen(name, input, i);
      Parse(Symbol(name), input, i, sc)
      == if k == |name| then Ok(Result(Def(Str(name)), true, NoExp), RunEnd(IsSpace, input, i + |name|), sc)
         else Ok(Result(if k > 0 then Def(Str(name[..k])) else Undef, false, At(i, name)), i + k, sc)
  {
    LexemeSpec(String_(0, name), input, i, sc);
    StringSpec(0, name, input, i, map[]);
    assert name[..|name|] == name;
  }
}
