/** The lexeme parsers of Text/Parsec/Token.js, each a `Parser` value built
    from the engine's combinators as `makeTokenParser` composes it.  The
    character parsers of Char.js (`digit`, `hexDigit`, `octDigit`, `oneOf`)
    and `skipMany1` of Combinator.js are not part of this model; they stand
    here as `satisfy` over the classes of `CharClass` and as
    `do_(p, skipMany(p))`.  Identities are all 0: `Parse` does not read them. */
module Token {
  import opened Prim
  import opened CharClass
  import opened TokenNames

  /** The fields of a `GenLanguageDef.LanguageDef` that the modelled parsers
      read.  The comment fields are left out: white space is that of a
      language without comments. */
  datatype LanguageDef = LanguageDef(
    caseSensitive: bool,
    reservedNames: seq<string>,
    reservedOpNames: seq<string>,
    identStart: Parser,
    identLetter: Parser,
    opStart: Parser,
    opLetter: Parser)

  // ---------------------------------------------------------------
  // White space and symbols
  // ---------------------------------------------------------------

  /** Char.js `oneOf(cs)`. */
  function OneOf(cs: string): Parser { Satisfy(0, c => c in cs) }

  /** Combinator.js `skipMany1(p)`. */
  function SkipMany1(p: Parser): Parser { Do([p, SkipMany(0, p)]) }

  /** `simpleSpace`. */
  const SimpleSpace: Parser := SkipMany1(Satisfy(0, IsSpace))

  /** `whiteSpace` of a language with neither line nor block comments. */
  const WhiteSpace: Parser := SkipMany(0, Label(0, SimpleSpace, ""))

  /** `lexeme(p)`: `p`, then white space, returning what `p` returned. */
  function Lexeme(p: Parser): Parser { Do([Bind("x", p), WhiteSpace, Ret("x")]) }

  /** `symbol(name)`. */
  function Symbol(name: string): Parser { Lexeme(String_(0, name)) }

  // ---------------------------------------------------------------
  // Numbers
  // ---------------------------------------------------------------

  /** The character a one-character string holds. */
  function FirstChar(v: Value): char
  {
    if v.Str? && |v.s| > 0 then v.s[0] else '\0'
  }

  /** `foldl(function(x, d){ return base * x + digitToInt(d) }, 0, digits)`. */
  function FoldDigits(base: int, digits: seq<Value>): int
  {
    if digits == [] then 0
    else base * FoldDigits(base, digits[..|digits| - 1]) + DigitToInt(FirstChar(digits[|digits| - 1]))
  }

  /** The `ret` of `number`: the fold over the `digits` binding. */
  function NumberValue(base: int, sc: Scope): Ast
  {
    if "digits" in sc && sc["digits"].Def? && sc["digits"].v.List?
    then Def(Num(FoldDigits(base, sc["digits"].v.items)))
    else Undef
  }

  /** `number(base, baseDigit)`. */
  function Number(base: int, baseDigit: Parser): Parser
  {
    Do([Bind("digits", Many1(baseDigit)), RetWith(sc => NumberValue(base, sc))])
  }

  const Digit: Parser := Satisfy(0, IsDigit)
  const HexDigit: Parser := Satisfy(0, IsHexDigit)
  const OctDigit: Parser := Satisfy(0, IsOctDigit)

  const Decimal: Parser := Number(10, Digit)
  const Hexadecimal: Parser := Do([OneOf("xX"), Number(16, HexDigit)])
  const Octal: Parser := Do([OneOf("oO"), Number(8, OctDigit)])

  /** What `zeroNumber` tries after its `'0'`, in order. */
  const AfterZero: Parser := Plus(Hexadecimal, Plus(Octal, Plus(Decimal, Return(Def(Num(0))))))

  const ZeroNumber: Parser := Label(0, Do([Char_(0, '0'), AfterZero]), "")

  const Nat: Parser := Plus(ZeroNumber, Decimal)

  const Sign: Parser :=
    Plus(Then(Char_(0, '-'), Return(Def(NegateFn))),
         Plus(Then(Char_(0, '+'), Return(Def(IdFn))), Return(Def(IdFn))))

  /** `scope.f(scope.n)`: `negate` or `id` applied to the natural. */
  function ApplySign(sc: Scope): Ast
  {
    if "f" in sc && "n" in sc && sc["n"].Def? && sc["n"].v.Num? then
      if sc["f"] == Def(NegateFn) then Def(Num(-sc["n"].v.n))
      else if sc["f"] == Def(IdFn) then sc["n"]
      else Undef
    else Undef
  }

  const Int_: Parser := Do([Bind("f", Lexeme(Sign)), Bind("n", Nat), RetWith(ApplySign)])

  // ---------------------------------------------------------------
  // Identifiers and operators
  // ---------------------------------------------------------------

  /** `consJoin(c, cs)`: the first character followed by the joined rest. */
  function ConsJoin(sc: Scope): Ast
  {
    var c := if "c" in sc then Show(sc["c"]) else "";
    var cs := if "cs" in sc && sc["cs"].Def? && sc["cs"].v.List? then JoinText(sc["cs"].v.items) else "";
    Def(Str(c + cs))
  }

  /** The shape `ident` and `oper` share: a start character, then letters,
      returned as one string, labelled `what`. */
  function Word(start: Parser, letter: Parser, what: string): Parser
  {
    Label(0, Do([Bind("c", start), Bind("cs", Many_(letter)), RetWith(ConsJoin)]), what)
  }

  function Ident(def: LanguageDef): Parser { Word(def.identStart, def.identLetter, "identifier") }

  function Oper(def: LanguageDef): Parser { Word(def.opStart, def.opLetter, "operator") }

  /** The `name` binding as a string. */
  function NameIn(sc: Scope): string
  {
    if "name" in sc && sc["name"].Def? && sc["name"].v.Str? then sc["name"].v.s else ""
  }

  /** The statement after `name <- word`: `unexpected(what + name)` for a
      reserved name, `return_(name)` otherwise. */
  function CheckName(isReservedP: string -> bool, what: string, sc: Scope): Parser
  {
    if isReservedP(NameIn(sc)) then Unexpected(what + NameIn(sc))
    else Return(if "name" in sc then sc["name"] else Undef)
  }

  /** The shape `identifier` and `operator` share. */
  function Checked(word: Parser, isReservedP: string -> bool, what: string): Parser
  {
    Lexeme(Try_(0, Do([Bind("name", word), WithScope(sc => Denote(CheckName(isReservedP, what, sc)))])))
  }

  /** `identifier`, over `isReservedName` and its table as written (sorted,
      then lowered when the language ignores case). */
  function Identifier(def: LanguageDef): Parser
  {
    Checked(Ident(def), name => IsReservedName(def.caseSensitive, def.reservedNames, name), "reserved word ")
  }

  /** `identifier` over the reserved-name table built as intended: lowered
      before it is sorted (`IsReservedNameFixed`). */
  function IdentifierFixed(def: LanguageDef): Parser
  {
    Checked(Ident(def), name => IsReservedNameFixed(def.caseSensitive, def.reservedNames, name), "reserved word ")
  }

  function Operator(def: LanguageDef): Parser
  {
    Checked(Oper(def), name => IsReservedOp(def.reservedOpNames, name), "reserved operator ")
  }

  // ---------------------------------------------------------------
  // Reserved words and operators
  // ---------------------------------------------------------------

  /** `caseChar(c)`: either case of a letter, any other character as it is. */
  function CaseChar(c: char): Parser
  {
    if IsAlpha(c) then Plus(Char_(0, ToLower(c)), Char_(0, ToUpper(c))) else Char_(0, c)
  }

  /** `walk(cs)` inside `caseString(name)`. */
  function Walk(name: string, cs: string): Parser
    decreases |cs|
  {
    if cs == [] then Return(Def(Null))
    else Do([Label(0, CaseChar(cs[0]), name), Walk(name, cs[1..])])
  }

  function CaseString(def: LanguageDef, name: string): Parser
  {
    if def.caseSensitive then String_(0, name) else Do([Walk(name, name), Return(Def(Str(name)))])
  }

  /** The shape `reserved` and `reservedOp` share: the text, then no further
      letter, under `try_`, as a lexeme. */
  function Keyword(text: Parser, letter: Parser, name: string): Parser
  {
    Lexeme(Try_(0, Do([text, Label(0, NotFollowedBy(letter), "end of " + name)])))
  }

  function Reserved(def: LanguageDef, name: string): Parser
  {
    Keyword(CaseString(def, name), def.identLetter, name)
  }

  function ReservedOp(def: LanguageDef, name: string): Parser
  {
    Keyword(String_(0, name), def.opLetter, name)
  }
}
