/** Laws of the word lexemes of Text/Parsec/Token.js: `ident`, `oper`,
    `identifier`, `operator`, `caseString`, `reserved` and `reservedOp`, for
    a language whose start and letter parsers each read one character of a
    class (`OneCharOf`): `satisfy`, `char_`, `oneOf` and their choices. */
module TokenWordLaws {
  import opened Prim
  import opened PrimLaws
  import opened CharClass
  import opened TokenNames
  import opened Token
  import opened TokenLexLaws

  /** The start parser the documentation of `identStart` gives as its
      example, `letter <|> char('_')`, reads one letter or underscore. */
  lemma LetterOrUnderscore()
    ensures OneCharOf(Plus(Satisfy(0, IsAlpha), Char_(0, '_')), c => IsAlpha(c) || c == '_')
  {
    SatisfyOneChar(0, IsAlpha);
    CharOneChar(0, '_');
    PlusOneChar(Satisfy(0, IsAlpha), IsAlpha, Char_(0, '_'), d => d == '_');
    OneCharOfSameClass(Plus(Satisfy(0, IsAlpha), Char_(0, '_')),
                       c => IsAlpha(c) || (d => d == '_')(c), c => IsAlpha(c) || c == '_');
  }

  // ---------------------------------------------------------------
  // ident and oper
  // ---------------------------------------------------------------

  /** A start character followed by the longest run of letters, returned as
      one string; without a start character, a failure that expects `what`. */
  lemma WordSpec(start: Parser, startClass: char -> bool, letter: Parser, letterClass: char -> bool, what: string,
                 input: string, i: nat, sc: Scope)
    requires OneCharOf(start, startClass) && OneCharOf(letter, letterClass) && i <= |input|
    ensures var j := RunEnd(letterClass, input, i + 1);
      Parse(Word(start, letter, what), input, i, sc)
      == if i < |input| && startClass(input[i]) then Ok(Result(Def(Str(input[i..j])), true, NoExp), j, sc)
         else Ok(Result(Undef, false, At(i, what)), i, sc)
  {
    var w := Word(start, letter, what);
    assert Parse(w, input, i, sc) == ParseP1(w, input, i, sc);
    Do3(Bind("c", start), Bind("cs", Many_(letter)), RetWith(ConsJoin), input, i, sc);
    BindUnfold("c", start, input, i, map[]);
    assert CharStep(Parse(start, input, i, map[]), startClass, input, i, map[]);
    if i < |input| && startClass(input[i]) {
      WordTail(letter, letterClass, input, i);
    }
  }

  /** After the start character: the run of letters, joined to it. */
  lemma WordTail(letter: Parser, letterClass: char -> bool, input: string, i: nat)
    requires OneCharOf(letter, letterClass) && i < |input|
    ensures var j := RunEnd(letterClass, input, i + 1);
      var s1: Scope := map["c" := Def(Str([input[i]]))];
      var r := Parse(Bind("cs", Many_(letter)), input, i + 1, s1);
      j <= |input| && r.Ok? && r.res.success && r.end == j
      && Parse(RetWith(ConsJoin), input, j, r.scope) == Ok(Result(Def(Str(input[i..j])), true, NoExp), j, r.scope)
  {
    var j := RunEnd(letterClass, input, i + 1);
    var s1: Scope := map["c" := Def(Str([input[i]]))];
    BindLetters(letter, letterClass, input, i + 1, s1);
    var s2 := s1["cs" := Def(List(Chars(input[i + 1..j])))];
    ConsJoinChars(input, i, j, s1);
    assert Parse(RetWith(ConsJoin), input, j, s2) == Ok(Result(ConsJoin(s2), true, NoExp), j, s2);
  }

  /** `cs <- many(letter)`: the run of letters, bound to `cs`. */
  lemma BindLetters(letter: Parser, letterClass: char -> bool, input: string, k: nat, sc: Scope)
    requires OneCharOf(letter, letterClass) && k <= |input|
    ensures var j := RunEnd(letterClass, input, k);
      j <= |input|
      && Parse(Bind("cs", Many_(letter)), input, k, sc)
         == Ok(Result(Def(List(Chars(input[k..j]))), true, NoExp), j, sc["cs" := Def(List(Chars(input[k..j])))])
  {
    BindUnfold("cs", Many_(letter), input, k, sc);
    ManyCharSpec(letter, letterClass, input, k, sc);
  }

  lemma ConsJoinChars(input: string, i: nat, j: nat, sc: Scope)
    requires i < j <= |input|
    ensures ConsJoin(sc["c" := Def(Str([input[i]]))]["cs" := Def(List(Chars(input[i + 1..j])))])
         == Def(Str(input[i..j]))
  {
    JoinChars(input[i + 1..j]);
    assert [input[i]] + input[i + 1..j] == input[i..j];
  }

  /** `ident`, for an `identStart` of class `startClass` and an
      `identLetter` of class `letterClass`. */
  lemma IdentSpec(def: LanguageDef, startClass: char -> bool, letterClass: char -> bool, input: string, i: nat, sc: Scope)
    requires OneCharOf(def.identStart, startClass) && OneCharOf(def.identLetter, letterClass) && i <= |input|
    ensures var j := RunEnd(letterClass, input, i + 1);
      Parse(Ident(def), input, i, sc)
      == if i < |input| && startClass(input[i])
         then Ok(Result(Def(Str(input[i..j])), true, NoExp), j, sc)
         else Ok(Result(Undef, false, At(i, "identifier")), i, sc)
  {
    WordSpec(def.identStart, startClass, def.identLetter, letterClass, "identifier", input, i, sc);
  }

  /** `oper`, for an `opStart` of class `startClass` and an `opLetter` of
      class `letterClass`. */
  lemma OperSpec(def: LanguageDef, startClass: char -> bool, letterClass: char -> bool, input: string, i: nat, sc: Scope)
    requires OneCharOf(def.opStart, startClass) && OneCharOf(def.opLetter, letterClass) && i <= |input|
    ensures var j := RunEnd(letterClass, input, i + 1);
      Parse(Oper(def), input, i, sc)
      == if i < |input| && startClass(input[i])
         then Ok(Result(Def(Str(input[i..j])), true, NoExp), j, sc)
         else Ok(Result(Undef, false, At(i, "operator")), i, sc)
  {
    WordSpec(def.opStart, startClass, def.opLetter, letterClass, "operator", input, i, sc);
  }

  // ---------------------------------------------------------------
  // identifier and operator
  // ---------------------------------------------------------------

  /** The string a word's AST holds. */
  function Text(a: Ast): string
  {
    if a.Def? && a.v.Str? then a.v.s else ""
  }

  /** The `do_` under `try_` in `identifier` and `operator`: `word`, then
      `unexpected(what + name)` for a reserved name or `return_(name)`. */
  lemma CheckedBody(word: Parser, isReservedP: string -> bool, what: string, input: string, i: nat)
    ensures var r := Parse(word, input, i, map[]);
      Parse(Checked(word, isReservedP, what).ps[0].p.p1, input, i, map[])
      == if !r.Ok? then r
         else if !r.res.success then Ok(r.res, r.end, map[])
         else if isReservedP(Text(r.res.ast)) then Ok(Result(Def(Null), false, Unexp(what + Text(r.res.ast))), r.end, map[])
         else Ok(Result(r.res.ast, true, NoExp), r.end, map[])
  {
    var r := Parse(word, input, i, map[]);
    var d := Checked(word, isReservedP, what).ps[0].p.p1;
    var g := d.ps[1].g;
    Do2(Bind("name", word), WithScope(g), input, i, map[]);
    BindUnfold("name", word, input, i, map[]);
    if r.Ok? && r.res.success {
      CheckNameAfter(isReservedP, what, input, r.end, r.scope, r.res.ast);
    }
  }

  /** The statement after `name <- word`, once `name` is bound to `a`. */
  lemma CheckNameAfter(isReservedP: string -> bool, what: string, input: string, j: nat, sc: Scope, a: Ast)
    ensures var s1 := sc["name" := a];
      Parse(WithScope(sc' => Denote(CheckName(isReservedP, what, sc'))), input, j, s1)
      == if isReservedP(Text(a)) then Ok(Result(Def(Null), false, Unexp(what + Text(a))), j, s1)
         else Ok(Result(a, true, NoExp), j, s1)
  {
    var s1 := sc["name" := a];
    assert NameIn(s1) == Text(a);
  }

  /** After `word`, a reserved name is refused with `unexpected(what +
      name)`, under `try_` so that nothing is consumed; any other name is
      returned, with the white space after it skipped. */
  lemma CheckedSpec(word: Parser, isReservedP: string -> bool, what: string, input: string, i: nat, sc: Scope)
    ensures var r := Parse(word, input, i, map[]);
      Parse(Checked(word, isReservedP, what), input, i, sc)
      == if !r.Ok? then r
         else if !r.res.success then Ok(Result(Undef, false, r.res.expecting), i, sc)
         else if isReservedP(Text(r.res.ast)) then Ok(Result(Undef, false, Unexp(what + Text(r.res.ast))), i, sc)
         else Ok(Result(r.res.ast, true, NoExp), RunEnd(IsSpace, input, r.end), sc)
  {
    var d := Checked(word, isReservedP, what).ps[0].p.p1;
    var t := Try_(0, d);
    assert Checked(word, isReservedP, what) == Lexeme(t);
    LexemeSpec(t, input, i, sc);
    TrySpec(0, d, input, i, map[]);
    CheckedBody(word, isReservedP, what, input, i);
  }

  /** `ident` checked against a table `isReservedP`: what `identifier` and
      its corrected form share. */
  lemma IdentChecked(def: LanguageDef, isReservedP: string -> bool, startClass: char -> bool, letterClass: char -> bool,
                     input: string, i: nat, sc: Scope)
    requires OneCharOf(def.identStart, startClass) && OneCharOf(def.identLetter, letterClass) && i <= |input|
    ensures var j := RunEnd(letterClass, input, i + 1);
      Parse(Checked(Ident(def), isReservedP, "reserved word "), input, i, sc)
      == if !(i < |input| && startClass(input[i]))
         then Ok(Result(Undef, false, At(i, "identifier")), i, sc)
         else if isReservedP(input[i..j])
         then Ok(Result(Undef, false, Unexp("reserved word " + input[i..j])), i, sc)
         else Ok(Result(Def(Str(input[i..j])), true, NoExp), RunEnd(IsSpace, input, j), sc)
  {
    CheckedSpec(Ident(def), isReservedP, "reserved word ", input, i, sc);
    IdentSpec(def, startClass, letterClass, input, i, map[]);
  }

  /** `identifier` returns the word `ident` reads or refuses it, without
      consuming input, as a reserved word.  In a case-sensitive language it
      refuses exactly the listed names.  In one that ignores case it refuses
      only names listed up to case, and all of them whenever the sorted
      table stays sorted once lowered; otherwise a listed name can slip
      through (`IdentifierTakesReservedExample`). */
  lemma IdentifierSpec(def: LanguageDef, startClass: char -> bool, letterClass: char -> bool, input: string, i: nat, sc: Scope)
    requires OneCharOf(def.identStart, startClass) && OneCharOf(def.identLetter, letterClass) && i <= |input|
    ensures !(i < |input| && startClass(input[i]))
      ==> Parse(Identifier(def), input, i, sc) == Ok(Result(Undef, false, At(i, "identifier")), i, sc)
    ensures i < |input| && startClass(input[i]) ==>
      var j := RunEnd(letterClass, input, i + 1);
      var rep := Parse(Identifier(def), input, i, sc);
      rep == Ok(Result(Undef, false, Unexp("reserved word " + input[i..j])), i, sc)
      || rep == Ok(Result(Def(Str(input[i..j])), true, NoExp), RunEnd(IsSpace, input, j), sc)
    ensures i < |input| && startClass(input[i]) ==>
      var w := input[i..RunEnd(letterClass, input, i + 1)];
      Parse(Identifier(def), input, i, sc).res.success <==> !IsReservedName(def.caseSensitive, def.reservedNames, w)
    ensures i < |input| && startClass(input[i]) && def.caseSensitive ==>
      var w := input[i..RunEnd(letterClass, input, i + 1)];
      Parse(Identifier(def), input, i, sc).res.success <==> w !in def.reservedNames
    ensures i < |input| && startClass(input[i]) && !def.caseSensitive ==>
      var w := input[i..RunEnd(letterClass, input, i + 1)];
      !Parse(Identifier(def), input, i, sc).res.success ==> LowerString(w) in LowerAll(def.reservedNames)
    ensures i < |input| && startClass(input[i]) && !def.caseSensitive && Sorted(LowerAll(Isort(def.reservedNames))) ==>
      var w := input[i..RunEnd(letterClass, input, i + 1)];
      Parse(Identifier(def), input, i, sc).res.success <==> LowerString(w) !in LowerAll(def.reservedNames)
  {
    var j := RunEnd(letterClass, input, i + 1);
    IdentChecked(def, name => IsReservedName(def.caseSensitive, def.reservedNames, name),
                 startClass, letterClass, input, i, sc);
    if i < |input| && startClass(input[i]) {
      IsReservedNameSpec(def.caseSensitive, def.reservedNames, input[i..j]);
    }
  }

  /** Corrected `identifier`: it refuses exactly the reserved names (up to
      case when the language ignores case), without consuming input, and
      returns any other identifier. */
  lemma IdentifierFixedSpec(def: LanguageDef, startClass: char -> bool, letterClass: char -> bool, input: string, i: nat, sc: Scope)
    requires OneCharOf(def.identStart, startClass) && OneCharOf(def.identLetter, letterClass) && i <= |input|
    ensures var j := RunEnd(letterClass, input, i + 1);
      Parse(IdentifierFixed(def), input, i, sc)
      == if !(i < |input| && startClass(input[i]))
         then Ok(Result(Undef, false, At(i, "identifier")), i, sc)
         else if (if def.caseSensitive then input[i..j] in def.reservedNames
                  else LowerString(input[i..j]) in LowerAll(def.reservedNames))
         then Ok(Result(Undef, false, Unexp("reserved word " + input[i..j])), i, sc)
         else Ok(Result(Def(Str(input[i..j])), true, NoExp), RunEnd(IsSpace, input, j), sc)
  {
    var j := RunEnd(letterClass, input, i + 1);
    IdentChecked(def, name => IsReservedNameFixed(def.caseSensitive, def.reservedNames, name),
                 startClass, letterClass, input, i, sc);
    if i < |input| && startClass(input[i]) {
      IsReservedNameFixedSpec(def.caseSensitive, def.reservedNames, input[i..j]);
    }
  }

  lemma ReservedAFacts()
    ensures RunEnd(IsAlpha, "a", 1) == 1 && "a"[0..1] == "a" && IsAlpha("a"[0])
    ensures RunEnd(IsSpace, "a", 1) == 1 && "reserved word " + "a" == "reserved word a"
    ensures LowerString("a") == "a" && "a" in LowerAll(["a", "B"])
  {
    assert LowerAll(["a", "B"])[0] == LowerString("a");
  }

  /** As written, a case-insensitive language with the reserved names "a" and
      "B" lets `identifier` return "a"; the corrected table refuses it. */
  lemma IdentifierTakesReservedExample(def: LanguageDef)
    requires !def.caseSensitive && def.reservedNames == ["a", "B"]
    requires def.identStart == Satisfy(0, IsAlpha) && def.identLetter == Satisfy(0, IsAlpha)
    ensures Parse(Identifier(def), "a", 0, map[]) == Ok(Result(Def(Str("a")), true, NoExp), 1, map[])
    ensures Parse(IdentifierFixed(def), "a", 0, map[]) == Ok(Result(Undef, false, Unexp("reserved word a")), 0, map[])
  {
    SatisfyOneChar(0, IsAlpha);
    ReservedAFacts();
    LowerAfterSortMisses();
    IsReservedNameFixedSpec(false, ["a", "B"], "a");
    IdentChecked(def, name => IsReservedName(def.caseSensitive, def.reservedNames, name), IsAlpha, IsAlpha, "a", 0, map[]);
    IdentChecked(def, name => IsReservedNameFixed(def.caseSensitive, def.reservedNames, name), IsAlpha, IsAlpha, "a", 0, map[]);
  }

  /** `operator` returns the word `oper` reads unless it is a reserved
      operator, which it refuses without consuming input. */
  lemma OperatorSpec(def: LanguageDef, startClass: char -> bool, letterClass: char -> bool, input: string, i: nat, sc: Scope)
    requires OneCharOf(def.opStart, startClass) && OneCharOf(def.opLetter, letterClass) && i <= |input|
    ensures var j := RunEnd(letterClass, input, i + 1);
      Parse(Operator(def), input, i, sc)
      == if !(i < |input| && startClass(input[i]))
         then Ok(Result(Undef, false, At(i, "operator")), i, sc)
         else if input[i..j] in def.reservedOpNames
         then Ok(Result(Undef, false, Unexp("reserved operator " + input[i..j])), i, sc)
         else Ok(Result(Def(Str(input[i..j])), true, NoExp), RunEnd(IsSpace, input, j), sc)
  {
    var j := RunEnd(letterClass, input, i + 1);
    CheckedSpec(Oper(def), name => IsReservedOp(def.reservedOpNames, name), "reserved operator ", input, i, sc);
    OperSpec(def, startClass, letterClass, input, i, map[]);
    if i < |input| && startClass(input[i]) {
      IsReservedOpSpec(def.reservedOpNames, input[i..j]);
    }
  }

  // ---------------------------------------------------------------
  // caseString
  // ---------------------------------------------------------------

  /** The characters `caseChar(c)` accepts: either case of a letter, any
      other character as it is. */
  predicate CaseMatch(c: char, d: char)
  {
    if IsAlpha(c) then d == ToLower(c) || d == ToUpper(c) else d == c
  }

  /** Those are the characters that lower to what `c` lowers to. */
  lemma CaseMatchFold(c: char, d: char)
    ensures CaseMatch(c, d) <==> ToLower(d) == ToLower(c)
  {
    CaseFold(c);
    CaseFold(d);
  }

  /** `caseChar(c)` takes one matching character and fails, without moving
      and with an undefined AST, on any other. */
  lemma CaseCharSpec(c: char, input: string, i: nat, sc: Scope)
    ensures var rep := Parse(CaseChar(c), input, i, sc);
      rep.Ok? && rep.scope == sc
      && (if i < |input| && CaseMatch(c, input[i])
          then rep.res == Result(Def(Str([input[i]])), true, NoExp) && rep.end == i + 1
          else !rep.res.success && rep.res.ast == Undef && rep.end == i)
  {
    if IsAlpha(c) {
      var p := CaseChar(c);
      assert Parse(p, input, i, sc) == ParsePlus(p, input, i, sc);
      CharSpec(0, ToLower(c), input, i, sc);
      CharSpec(0, ToUpper(c), input, i, sc);
    } else {
      CharSpec(0, c, input, i, sc);
    }
  }

  /** How many leading characters of `cs` the input matches from `j`, up to
      case. */
  function CaseMatchLen(cs: string, input: string, j: nat): (k: nat)
    ensures k <= |cs|
    decreases |cs|
  {
    if cs != [] && j < |input| && CaseMatch(cs[0], input[j]) then 1 + CaseMatchLen(cs[1..], input, j + 1) else 0
  }

  /** Two strings of one length lower to the same string exactly when
      their characters do, one by one. */
  lemma LowerEq(t: string, u: string)
    requires |t| == |u|
    ensures LowerString(t) == LowerString(u) <==> forall k :: 0 <= k < |t| ==> ToLower(t[k]) == ToLower(u[k])
  {
    if forall k :: 0 <= k < |t| ==> ToLower(t[k]) == ToLower(u[k]) {
      assert forall k :: 0 <= k < |t| ==> LowerString(t)[k] == LowerString(u)[k];
    }
  }

  /** Lowered texts of one length agree exactly when their first
      characters and their rests do. */
  lemma LowerCons(t: string, u: string)
    requires |t| == |u| && |t| > 0
    ensures LowerString(t) == LowerString(u)
      <==> ToLower(t[0]) == ToLower(u[0]) && LowerString(t[1..]) == LowerString(u[1..])
  {
    LowerEq(t, u);
    LowerEq(t[1..], u[1..]);
    if ToLower(t[0]) == ToLower(u[0]) && LowerString(t[1..]) == LowerString(u[1..]) {
      forall k | 0 <= k < |t| ensures ToLower(t[k]) == ToLower(u[k]) {
        if k > 0 { assert t[1..][k - 1] == t[k] && u[1..][k - 1] == u[k]; }
      }
    }
  }

  /** The whole of `cs` matches exactly when the input there lowers to what
      `cs` lowers to. */
  lemma {:induction false} CaseMatchLenSpec(cs: string, input: string, j: nat)
    requires j <= |input|
    ensures CaseMatchLen(cs, input, j) == |cs|
      <==> j + |cs| <= |input| && LowerString(input[j..j + |cs|]) == LowerString(cs)
    decreases |cs|
  {
    if cs != [] && j + |cs| <= |input| {
      var t := input[j..j + |cs|];
      CaseMatchLenSpec(cs[1..], input, j + 1);
      CaseMatchFold(cs[0], input[j]);
      LowerCons(t, cs);
      assert t[0] == input[j] && t[1..] == input[j + 1..j + 1 + |cs[1..]|];
    } else if cs != [] && j < |input| {
      CaseMatchLenSpec(cs[1..], input, j + 1);
    }
  }

  /** `walk(cs)` takes the characters of `cs`, either case for letters; at
      the first that does not match it fails there, expecting `name` there. */
  lemma {:induction false} WalkSpec(name: string, cs: string, input: string, j: nat, sc: Scope)
    ensures var k := CaseMatchLen(cs, input, j);
      Parse(Walk(name, cs), input, j, sc)
      == if k == |cs| then Ok(Result(Def(Null), true, NoExp), j + k, sc)
         else Ok(Result(Undef, false, At(j + k, name)), j + k, sc)
    decreases |cs|
  {
    if cs != [] {
      var l := Label(0, CaseChar(cs[0]), name);
      Do2(l, Walk(name, cs[1..]), input, j, sc);
      assert Parse(l, input, j, map[]) == ParseP1(l, input, j, map[]);
      CaseCharSpec(cs[0], input, j, map[]);
      if j < |input| && CaseMatch(cs[0], input[j]) {
        WalkSpec(name, cs[1..], input, j + 1, map[]);
      }
    }
  }

  /** `caseString(name)`: in a case-sensitive language `string(name)`; in
      one that ignores case it accepts `name` in any mix of cases and returns
      `name` as written, and fails expecting `name` where a character does
      not match. */
  lemma CaseStringSpec(def: LanguageDef, name: string, input: string, i: nat, sc: Scope)
    requires name != ""
    ensures def.caseSensitive ==>
      var k := MatchLen(name, input, i);
      Parse(CaseString(def, name), input, i, sc)
      == if k == |name| then Ok(Result(Def(Str(name)), true, NoExp), i + |name|, sc)
         else Ok(Result(if k > 0 then Def(Str(name[..k])) else Undef, false, At(i, name)), i + k, sc)
    ensures !def.caseSensitive ==>
      var k := CaseMatchLen(name, input, i);
      Parse(CaseString(def, name), input, i, sc)
      == if k == |name| then Ok(Result(Def(Str(name)), true, NoExp), i + |name|, sc)
         else Ok(Result(Undef, false, At(i + k, name)), i + k, sc)
  {
    if def.caseSensitive {
      StringSpec(0, name, input, i, sc);
      assert name[..|name|] == name;
    } else {
      Do2(Walk(name, name), Return(Def(Str(name))), input, i, sc);
      WalkSpec(name, name, input, i, map[]);
    }
  }

  // ---------------------------------------------------------------
  // reserved and reservedOp
  // ---------------------------------------------------------------

  /** `text`, then no further letter, under `try_`, as a lexeme: a failure
      of either comes back to the start; a letter right after the text is
      refused expecting the end of `name` there. */
  lemma KeywordSpec(text: Parser, letter: Parser, letterClass: char -> bool, name: string, input: string, i: nat, sc: Scope)
    requires OneCharOf(letter, letterClass)
    ensures var r := Parse(text, input, i, map[]);
      Parse(Keyword(text, letter, name), input, i, sc)
      == if !r.Ok? then r
         else if !r.res.success then Ok(Result(Undef, false, r.res.expecting), i, sc)
         else if r.end < |input| && letterClass(input[r.end])
         then Ok(Result(Undef, false, At(r.end, "end of " + name)), i, sc)
         else Ok(Result(Def(Null), true, NoExp), RunEnd(IsSpace, input, r.end), sc)
  {
    var r := Parse(text, input, i, map[]);
    var l := Label(0, NotFollowedBy(letter), "end of " + name);
    var d := Do([text, l]);
    var t := Try_(0, d);
    LexemeSpec(t, input, i, sc);
    assert Parse(t, input, i, map[]) == ParseP1(t, input, i, map[]);
    Do2(text, l, input, i, map[]);
    if r.Ok? && r.res.success {
      assert Parse(l, input, r.end, r.scope) == ParseP1(l, input, r.end, r.scope);
      assert Parse(NotFollowedBy(letter), input, r.end, r.scope)
          == ParseNotFollowedBy(NotFollowedBy(letter), input, r.end, r.scope);
      assert CharStep(Parse(letter, input, r.end, r.scope), letterClass, input, r.end, r.scope);
    }
  }

  /** Whether `caseString(name)` matches at `i`, and where a failure is
      reported. */
  function NameMatches(def: LanguageDef, name: string, input: string, i: nat): bool
  {
    if def.caseSensitive then MatchLen(name, input, i) == |name| else CaseMatchLen(name, input, i) == |name|
  }

  function NameMissAt(def: LanguageDef, name: string, input: string, i: nat): nat
  {
    if def.caseSensitive then i else i + CaseMatchLen(name, input, i)
  }

  /** `caseString(name)` matches exactly when the input continues with
      `name`, or, in a language that ignores case, with a string that lowers
      to what `name` lowers to. */
  lemma NameMatchesSpec(def: LanguageDef, name: string, input: string, i: nat)
    requires name != "" && i <= |input|
    ensures def.caseSensitive ==>
      (NameMatches(def, name, input, i) <==> i + |name| <= |input| && input[i..i + |name|] == name)
    ensures !def.caseSensitive ==>
      (NameMatches(def, name, input, i)
       <==> i + |name| <= |input| && LowerString(input[i..i + |name|]) == LowerString(name))
  {
    MatchLenFull(name, input, i);
    CaseMatchLenSpec(name, input, i);
  }

  /** `reserved(name)` accepts `name` (in any case when the language ignores
      case) not followed by an identifier letter, returning null and
      skipping the white space after it; otherwise it fails without
      consuming input. */
  lemma ReservedSpec(def: LanguageDef, letterClass: char -> bool, name: string, input: string, i: nat, sc: Scope)
    requires OneCharOf(def.identLetter, letterClass) && name != ""
    ensures var e := i + |name|;
      Parse(Reserved(def, name), input, i, sc)
      == if !NameMatches(def, name, input, i) then Ok(Result(Undef, false, At(NameMissAt(def, name, input, i), name)), i, sc)
         else if e < |input| && letterClass(input[e])
         then Ok(Result(Undef, false, At(e, "end of " + name)), i, sc)
         else Ok(Result(Def(Null), true, NoExp), RunEnd(IsSpace, input, e), sc)
  {
    KeywordSpec(CaseString(def, name), def.identLetter, letterClass, name, input, i, sc);
    CaseStringSpec(def, name, input, i, map[]);
  }

  /** `reservedOp(name)` accepts `name` not followed by an operator letter,
      returning null and skipping the white space after it; otherwise it
      fails without consuming input. */
  lemma ReservedOpSpec(def: LanguageDef, letterClass: char -> bool, name: string, input: string, i: nat, sc: Scope)
    requires OneCharOf(def.opLetter, letterClass) && name != ""
    ensures var e := i + |name|;
      Parse(ReservedOp(def, name), input, i, sc)
      == if MatchLen(name, input, i) < |name| then Ok(Result(Undef, false, At(i, name)), i, sc)
         else if e < |input| && letterClass(input[e])
         then Ok(Result(Undef, false, At(e, "end of " + name)), i, sc)
         else Ok(Result(Def(Null), true, NoExp), RunEnd(IsSpace, input, e), sc)
  {
    KeywordSpec(String_(0, name), def.opLetter, letterClass, name, input, i, sc);
    StringSpec(0, name, input, i, map[]);
  }

  // ---------------------------------------------------------------
  // Examples
  // ---------------------------------------------------------------

  /** In a case-sensitive language, `reserved(name)` on input that continues
      with `name` succeeds exactly when no identifier letter follows. */
  lemma ReservedOnName(def: LanguageDef, letterClass: char -> bool, name: string, input: string, i: nat, sc: Scope)
    requires OneCharOf(def.identLetter, letterClass) && name != "" && def.caseSensitive
    requires i + |name| <= |input| && input[i..i + |name|] == name
    ensures var e := i + |name|;
      Parse(Reserved(def, name), input, i, sc)
      == if e < |input| && letterClass(input[e])
         then Ok(Result(Undef, false, At(e, "end of " + name)), i, sc)
         else Ok(Result(Def(Null), true, NoExp), RunEnd(IsSpace, input, e), sc)
  {
    MatchLenFull(name, input, i);
    ReservedSpec(def, letterClass, name, input, i, sc);
  }

  lemma LetFacts()
    ensures "letx"[0..3] == "let" && "letx"[3] == 'x' && IsAlphaNum('x')
    ensures "let x"[0..3] == "let" && "let x"[3] == ' ' && !IsAlphaNum(' ')
    ensures RunEnd(IsSpace, "let x", 3) == 4
    ensures "end of " + "let" == "end of let"
  {
  }

  /** `reserved("let")` refuses the start of "letx". */
  lemma ReservedLetxExample(def: LanguageDef)
    requires def.caseSensitive && def.identLetter == Satisfy(0, IsAlphaNum)
    ensures Parse(Reserved(def, "let"), "letx", 0, map[]) == Ok(Result(Undef, false, At(3, "end of let")), 0, map[])
  {
    LetFacts();
    SatisfyOneChar(0, IsAlphaNum);
    ReservedOnName(def, IsAlphaNum, "let", "letx", 0, map[]);
  }

  /** `reserved("let")` accepts "let x", stopping before "x". */
  lemma ReservedLetExample(def: LanguageDef)
    requires def.caseSensitive && def.identLetter == Satisfy(0, IsAlphaNum)
    ensures Parse(Reserved(def, "let"), "let x", 0, map[]) == Ok(Result(Def(Null), true, NoExp), 4, map[])
  {
    LetFacts();
    SatisfyOneChar(0, IsAlphaNum);
    ReservedOnName(def, IsAlphaNum, "let", "let x", 0, map[]);
  }
}
