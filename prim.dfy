/** The primitive engine of jsparsec (Text/Parsec/Prim.js), denotationally.

    A parser is a value of the datatype `Parser`, one constructor per primitive
    of the source; `Parse` runs it over an input string from an index with a
    binding scope and yields a `Reply`.  The continuation-passing and thunk
    layers of the source only bound the JavaScript stack, so `Parse` describes
    what a parser delivers to its continuation, not how the calls are made.
    The packrat cache is left to the imperative engine in module `PrimState`,
    which is proved to agree with `Parse`; `Parse` itself keeps no cache. */
module Prim {

  /** A JavaScript value that a parser can return as its AST.  Characters are
      one-character strings, as in JavaScript; `NegateFn` and `IdFn` stand for
      the two functions `sign` returns (Prelude's `negate` and `id`). */
  datatype Value =
    | Null
    | Str(s: string)
    | Num(n: int)
    | List(items: seq<Value>)
    | NegateFn
    | IdFn

  /** The `ast` field of a result: `undefined` is kept apart from every value,
      `null` included, because combinators test `ast !== undefined`. */
  datatype Ast = Undef | Def(v: Value)

  /** The `expecting` field of a result: undefined, a plain string, an object
      `{at, expecting}`, an object `{unexpected}`, or an array (only
      `parserPlus` builds arrays). */
  datatype Expect =
    | NoExp
    | Msg(msg: string)
    | At(at: nat, expecting: string)
    | Unexp(name: string)
    | Choice(alts: seq<Expect>)

  /** A value that may be missing (JavaScript `undefined`). */
  datatype Option<T> = None | Some(value: T)

  /** A result object `{ast, success, expecting}`. */
  datatype Result = Result(ast: Ast, success: bool, expecting: Expect)

  /** The bindings of one `do_` sequence, written by `bind` and read by `ret`.
      A name may be bound to `undefined`. */
  type Scope = map<string, Ast>

  /** What running a parser comes to: a result handed to the continuation
      together with the new cursor index and scope; an exception thrown by the
      source (`Abort`); or a `many` iteration that succeeded without moving
      forward inside the input, where the source re-runs the same iteration and
      the model stops (`Stuck`). */
  datatype Reply =
    | Ok(res: Result, end: nat, scope: Scope)
    | Abort(msg: string)
    | Stuck

  /** The part of the cursor a parser reads: the input, the index and the scope. */
  datatype State = State(input: string, index: nat, scope: Scope)

  /** The meaning of a parser: what it replies from a given state. */
  type Denotation = State -> Reply

  /** The two character primitives built with `tokenPrim`. */
  datatype Prim = CharP(c: char) | SatisfyP(pred: char -> bool)

  /** The four result transformers built with `tokenPrimP1`. */
  datatype Post = TryPost | SkipManyPost | StringPost(s: string) | LabelPost(text: string)

  /** The parsers of Prim.js.  `pid` is the identity `tokenPrim` and
      `tokenPrimP1` mint for the memo cache.  `BindP` and `WithScope` compute
      the rest of the parse from a runtime value, so they carry a denotation
      rather than a parser.  `NotFollowedBy` stands for the combinator of the
      same name in Combinator.js, which is not part of this model; its meaning
      is the contract stated where `Parse` interprets it. */
  datatype Parser =
    | Return(v: Ast)                              // parserReturn / return_
    | Fail(msg: string)                           // parserFail
    | Zero                                        // parserZero
    | Unexpected(name: string)                    // unexpected
    | TokenPrim(pid: nat, prim: Prim)             // char_, satisfy
    | TokenPrimP1(pid: nat, p1: Parser, post: Post) // try_, skipMany, string, label
    | Tokens(ps: seq<Parser>)                     // tokens
    | Many(onePlus: bool, p: Parser)              // _many(onePlusMatch)
    | Plus(p1: Parser, p2: Parser)                // parserPlus
    | Then(p1: Parser, p2: Parser)                // do2
    | Do(ps: seq<Parser>)                         // do_
    | BindP(p: Parser, k: Ast -> Denotation)      // parserBind
    | Bind(name: string, p: Parser)               // bind
    | Ret(name: string)                           // ret(name)
    | RetWith(f: Scope -> Ast)                    // ret(function(scope){...})
    | WithScope(g: Scope -> Denotation)           // withScope
    | GetPosition                                 // getPosition
    | SetPosition(pos: nat)                       // setPosition(number)
    | SetPositionVar(name: string)                // setPosition(name)
    | NotFollowedBy(p: Parser)                    // Combinator.js notFollowedBy

  // ---------------------------------------------------------------
  // Cursor reads
  // ---------------------------------------------------------------

  /** `input.charAt(i)`: the one-character string at `i`, or "" past the end. */
  function CharAt(input: string, i: nat): (s: string)
    ensures |s| <= 1
    ensures i < |input| <==> |s| == 1
    ensures i < |input| ==> s[0] == input[i]
  {
    if i < |input| then [input[i]] else ""
  }

  /** The values a defined AST contributes to an array (`push` when not undefined). */
  function Items(a: Ast): seq<Value>
  {
    if a.Def? then [a.v] else []
  }

  /** JavaScript truthiness of an expectation: undefined and "" are false. */
  predicate Truthy(e: Expect)
  {
    !(e.NoExp? || (e.Msg? && e.msg == ""))
  }

  /** `parserPlus`'s `handleError`: an array is concatenated, any other truthy
      expectation is pushed, a falsy one is dropped. */
  function Merge(errors: seq<Expect>, e: Expect): seq<Expect>
  {
    if e.Choice? then errors + e.alts
    else if Truthy(e) then errors + [e]
    else errors
  }

  /** `result.ast.join("")` on the array `tokens` builds from `char_` results. */
  function JoinText(items: seq<Value>): string
  {
    if items == [] then ""
    else (if items[0].Str? then items[0].s else "") + JoinText(items[1..])
  }

  /** The text an AST shows in an `unexpected` message. */
  function Show(a: Ast): string
  {
    if a.Def? && a.v.Str? then a.v.s else ""
  }

  // ---------------------------------------------------------------
  // Primitives and result transformers
  // ---------------------------------------------------------------

  /** The `fn` of `char_` and `satisfy`: match one character at `i`. */
  function StepPrim(prim: Prim, input: string, i: nat): (Result, nat)
  {
    match prim
    case CharP(c) =>
      if |input| - i > 0 && CharAt(input, i) == [c]
      then (Result(Def(Str([c])), true, NoExp), i + 1)
      else (Result(Undef, false, Msg([c])), i)
    case SatisfyP(pred) =>
      if |input| - i > 0 && pred(input[i])
      then (Result(Def(Str([input[i]])), true, NoExp), i + 1)
      else (Result(Undef, false, Msg(CharAt(input, i))), i)
  }

  /** The `fn` of `try_`, `skipMany`, `string` and `label`, applied to the
      inner parser's reply `r` ending at `e`, for an attempt begun at `start`.
      Only `try_` moves the cursor (back to `start`). */
  function StepPost(post: Post, r: Result, e: nat, start: nat): Reply
  {
    match post
    case TryPost =>
      if r.success then Ok(r, e, map[]) else Ok(Result(Undef, false, r.expecting), start, map[])
    case SkipManyPost =>
      Ok(Result(Undef, r.success, r.expecting), e, map[])
    case StringPost(s) =>
      if r.ast.Def? && r.ast.v.List? then
        var text := JoinText(r.ast.v.items);
        Ok(Result(if |text| > 0 then Def(Str(text)) else Undef,
                  r.success,
                  if r.success then NoExp else At(start, s)), e, map[])
      else Abort("TypeError: result.ast.join is not a function")
    case LabelPost(text) =>
      if r.success then Ok(r, e, map[]) else Ok(Result(r.ast, false, At(start, text)), e, map[])
  }

  /** The same reply with its scope replaced. */
  function WithScopeOf(rep: Reply, sc: Scope): Reply
  {
    if rep.Ok? then Ok(rep.res, rep.end, sc) else rep
  }

  // ---------------------------------------------------------------
  // The interpreter
  // ---------------------------------------------------------------

  /** Run `p` over `input` from index `i` in scope `sc`. */
  function Parse(p: Parser, input: string, i: nat, sc: Scope): Reply
    decreases p, 1, 0
  {
    match p
    case Return(v) => Ok(Result(v, true, NoExp), i, sc)
    case Fail(msg) => Ok(Result(Undef, false, Msg(msg)), i, sc)
    case Zero => Ok(Result(Undef, false, NoExp), i, sc)
    case Unexpected(name) => Ok(Result(Def(Null), false, Unexp(name)), i, sc)
    case TokenPrim(_, prim) =>
      var (r, e) := StepPrim(prim, input, i);
      Ok(r, e, sc)
    case TokenPrimP1(_, _, _) => ParseP1(p, input, i, sc)
    case Tokens(ps) =>
      if |ps| == 0 then Abort("TypeError: parser is not a function")
      else ParseTokens(ps, 0, input, i, sc, [])
    case Many(onePlus, q) =>
      ParseMany(onePlus, q, input, i, sc, [], false)
    case Plus(_, _) => ParsePlus(p, input, i, sc)
    case Then(_, _) => ParseThen(p, input, i, sc)
    case Do(ps) =>
      if |ps| == 0 then Abort("TypeError: parser is not a function")
      else WithScopeOf(ParseSeq(ps, 0, input, i, map[]), sc)
    case BindP(_, _) => ParseBindP(p, input, i, sc)
    case Bind(name, _) =>
      if name == "scope" then Abort("Can't use 'scope' as an identifier!")
      else ParseBind(p, input, i, sc)
    case Ret(name) =>
      if name in sc then Ok(Result(sc[name], true, NoExp), i, sc)
      else Abort("Not in scope: \"" + name + "\"")
    case RetWith(f) => Ok(Result(f(sc), true, NoExp), i, sc)
    case WithScope(g) => g(sc)(State(input, i, sc))
    case GetPosition => Ok(Result(Def(Num(i)), true, NoExp), i, sc)
    case SetPosition(n) => Ok(Result(Undef, true, NoExp), n, sc)
    case SetPositionVar(name) =>
      if name in sc && sc[name].Def? && sc[name].v.Num? && sc[name].v.n >= 0
      then Ok(Result(Undef, true, NoExp), sc[name].v.n, sc)
      else Abort("setPosition: binding is not a position")
    case NotFollowedBy(_) => ParseNotFollowedBy(p, input, i, sc)
  }

  /** `tokenPrimP1(fn)(p1)`: run `p1`, then apply the transformer. */
  function ParseP1(p: Parser, input: string, i: nat, sc: Scope): Reply
    requires p.TokenPrimP1?
    decreases p, 0, 0
  {
    var rep := Parse(p.p1, input, i, sc);
    if !rep.Ok? then rep
    else WithScopeOf(StepPost(p.post, rep.res, rep.end, i), rep.scope)
  }

  /** `parserPlus(p1, p2)`: `p2` runs, from where `p1` stopped, whenever
      `p1`'s AST is undefined; failures gather both expectations. */
  function ParsePlus(p: Parser, input: string, i: nat, sc: Scope): Reply
    requires p.Plus?
    decreases p, 0, 0
  {
    var rep1 := Parse(p.p1, input, i, sc);
    if !rep1.Ok? then rep1
    else
      var errors := Merge([], rep1.res.expecting);
      if rep1.res.ast.Def? then
        Ok(rep1.res.(expecting := if rep1.res.success then NoExp else Choice(errors)), rep1.end, rep1.scope)
      else
        var rep2 := Parse(p.p2, input, rep1.end, rep1.scope);
        if !rep2.Ok? then rep2
        else
          Ok(rep2.res.(expecting := if rep2.res.success then NoExp
                                    else Choice(Merge(errors, rep2.res.expecting))),
             rep2.end, rep2.scope)
  }

  /** `do2(p1, p2)`: `p2` runs after a successful `p1`. */
  function ParseThen(p: Parser, input: string, i: nat, sc: Scope): Reply
    requires p.Then?
    decreases p, 0, 0
  {
    var rep1 := Parse(p.p1, input, i, sc);
    if !rep1.Ok? || !rep1.res.success then rep1
    else Parse(p.p2, input, rep1.end, rep1.scope)
  }

  /** `parserBind(q, k)`: the denotation `k` gives for `q`'s AST runs after a
      successful `q`. */
  function ParseBindP(p: Parser, input: string, i: nat, sc: Scope): Reply
    requires p.BindP?
    decreases p, 0, 0
  {
    var rep := Parse(p.p, input, i, sc);
    if !rep.Ok? || !rep.res.success then rep
    else p.k(rep.res.ast)(State(input, rep.end, rep.scope))
  }

  /** `bind(name, q)`: a successful `q` records its AST under `name`. */
  function ParseBind(p: Parser, input: string, i: nat, sc: Scope): Reply
    requires p.Bind?
    decreases p, 0, 0
  {
    var rep := Parse(p.p, input, i, sc);
    if !rep.Ok? || !rep.res.success then rep
    else Ok(rep.res, rep.end, rep.scope[p.name := rep.res.ast])
  }

  /** `notFollowedBy(q)`: succeed, without moving, exactly when `q` fails. */
  function ParseNotFollowedBy(p: Parser, input: string, i: nat, sc: Scope): Reply
    requires p.NotFollowedBy?
    decreases p, 0, 0
  {
    var rep := Parse(p.p, input, i, sc);
    if !rep.Ok? then rep
    else if rep.res.success then Ok(Result(Undef, false, Unexp(Show(rep.res.ast))), i, sc)
    else Ok(Result(Def(Null), true, NoExp), i, sc)
  }

  /** `tokens`: run `ps[k..]` in order from `i`, collecting defined ASTs after
      those already in `acc`; the first failure ends the run and keeps the
      array collected so far as its AST. */
  function ParseTokens(ps: seq<Parser>, k: nat, input: string, i: nat, sc: Scope, acc: seq<Value>): Reply
    requires k < |ps|
    decreases Tokens(ps), 0, |ps| - k
  {
    var rep := Parse(ps[k], input, i, sc);
    if !rep.Ok? then rep
    else if !rep.res.success then Ok(Result(Def(List(acc)), false, rep.res.expecting), rep.end, rep.scope)
    else
      var acc' := acc + Items(rep.res.ast);
      if k + 1 < |ps| then ParseTokens(ps, k + 1, input, rep.end, rep.scope, acc')
      else Ok(Result(Def(List(acc')), true, NoExp), rep.end, rep.scope)
  }

  /** `_many(onePlus)`: repeat `q` from `i` until it fails, collecting defined
      ASTs after `acc`; `matched` records whether some iteration succeeded.
      The failing iteration's cursor and scope are kept. */
  function ParseMany(onePlus: bool, q: Parser, input: string, i: nat, sc: Scope, acc: seq<Value>, matched: bool): Reply
    decreases Many(onePlus, q), 0, |input| - i
  {
    var rep := Parse(q, input, i, sc);
    if !rep.Ok? then rep
    else if !rep.res.success then
      var success := !onePlus || matched;
      Ok(Result(if success then Def(List(acc)) else Undef, success, if success then NoExp else rep.res.expecting),
         rep.end, rep.scope)
    else if i < rep.end <= |input| then
      ParseMany(onePlus, q, input, rep.end, rep.scope, acc + Items(rep.res.ast), true)
    else Stuck
  }

  /** The left-nested `do2` chain that `do_` runs, from `ps[k]` on. */
  function ParseSeq(ps: seq<Parser>, k: nat, input: string, i: nat, sc: Scope): Reply
    requires k < |ps|
    decreases Do(ps), 0, |ps| - k
  {
    var rep := Parse(ps[k], input, i, sc);
    if !rep.Ok? || !rep.res.success || k + 1 == |ps| then rep
    else ParseSeq(ps, k + 1, input, rep.end, rep.scope)
  }

  /** The denotation of a parser. */
  function Denote(p: Parser): Denotation
  {
    (st: State) => Parse(p, st.input, st.index, st.scope)
  }

  // ---------------------------------------------------------------
  // Constructors under the source's names
  // ---------------------------------------------------------------

  function Char_(pid: nat, c: char): Parser { TokenPrim(pid, CharP(c)) }
  function Satisfy(pid: nat, pred: char -> bool): Parser { TokenPrim(pid, SatisfyP(pred)) }
  function Try_(pid: nat, p: Parser): Parser { TokenPrimP1(pid, p, TryPost) }
  function Label(pid: nat, p: Parser, text: string): Parser { TokenPrimP1(pid, p, LabelPost(text)) }
  function SkipMany(pid: nat, p: Parser): Parser { TokenPrimP1(pid, Many(false, p), SkipManyPost) }
  function Many_(p: Parser): Parser { Many(false, p) }
  function Many1(p: Parser): Parser { Many(true, p) }

  /** `map(char_, s)`: the `char_` parsers take identities `next`, `next + 1`, ... */
  function CharParsers(next: nat, s: string): seq<Parser>
  {
    seq(|s|, k requires 0 <= k < |s| => Char_(next + k, s[k]))
  }

  /** `string(s)`: `tokens` over one `char_` per character, then the string
      transformer.  Identities are minted in the source's order: the
      characters take `next .. next + |s| - 1`, the string itself `next + |s|`. */
  function String_(next: nat, s: string): Parser
  {
    TokenPrimP1(next + |s|, Tokens(CharParsers(next, s)), StringPost(s))
  }

  /** `do_`'s loop: the left-nested chain `do2(do2(ps[0], ps[1]), ...)`. */
  function ThenChain(ps: seq<Parser>): Parser
    requires |ps| > 0
  {
    if |ps| == 1 then ps[0] else Then(ThenChain(ps[..|ps| - 1]), ps[|ps| - 1])
  }

  /** `parserPlusN`'s loop: the left-nested chain `parserPlus(parserPlus(ps[0], ps[1]), ...)`. */
  function PlusChain(ps: seq<Parser>): Parser
    requires |ps| > 0
  {
    if |ps| == 1 then ps[0] else Plus(PlusChain(ps[..|ps| - 1]), ps[|ps| - 1])
  }
}
