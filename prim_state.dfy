/** The cursor object `ParseState` of Text/Parsec/Prim.js with its packrat
    cache, and an imperative engine that runs a `Prim.Parser` over it the way
    the source's combinators do: `tokenPrim` and `tokenPrimP1` consult the
    cache before running and store their result after, `try_` and
    `notFollowedBy` scroll back, `setPosition` scrolls to a position.

    The engine is proved to reply exactly what `Prim.Parse` says, whether
    memoisation is on or off and whatever sound entries the cache already
    holds: the cache is transparent. */
module PrimState {
  import opened Prim
  import opened PrimLaws

  /** A cached result object: `putCached` writes the cursor's `index` and
      `length` onto the result before storing it. */
  datatype Entry = Entry(result: Result, index: nat, length: int)

  /** JavaScript `String.prototype.substring(a, b)`: both bounds are clamped
      to the string, and swapped when the first is the larger. */
  function JsSubstring(s: string, a: int, b: int): (r: string)
    ensures |r| <= |s|
    ensures 0 <= a <= b <= |s| ==> r == s[a..b]
    ensures 0 <= b <= a <= |s| ==> r == s[b..a]
    ensures 0 <= a <= |s| <= b ==> r == s[a..]
    ensures (a <= 0 && b <= 0) || (a >= |s| && b >= |s|) ==> r == ""
  {
    var lo := if a < 0 then 0 else if a > |s| then |s| else a;
    var hi := if b < 0 then 0 else if b > |s| then |s| else b;
    if lo <= hi then s[lo..hi] else s[hi..lo]
  }

  /** An entry agrees with a reply when it holds the reply's result and the
      cursor the reply ends at. */
  ghost predicate Agrees(en: Entry, rep: Reply, input: string)
  {
    rep.Ok? && en.result == rep.res && en.index == rep.end && en.length == |input| - rep.end
  }

  /** Every memoising node of `p` is filed under its own identity in `reg`,
      and the parser under a `tokenPrimP1` is closed: the cache is keyed by
      identity and index only, so what it stores must not depend on the
      scope. */
  ghost predicate Registered(p: Parser, reg: map<nat, Parser>)
    decreases p
  {
    match p
    case TokenPrim(pid, _) => pid in reg && reg[pid] == p
    case TokenPrimP1(pid, p1, _) => pid in reg && reg[pid] == p && Closed(p1) && Registered(p1, reg)
    case Tokens(ps) => forall k :: 0 <= k < |ps| ==> Registered(ps[k], reg)
    case Do(ps) => forall k :: 0 <= k < |ps| ==> Registered(ps[k], reg)
    case Many(_, q) => Registered(q, reg)
    case Plus(p1, p2) => Registered(p1, reg) && Registered(p2, reg)
    case Then(p1, p2) => Registered(p1, reg) && Registered(p2, reg)
    case BindP(q, _) => Registered(q, reg)
    case Bind(_, q) => Registered(q, reg)
    case NotFollowedBy(q) => Registered(q, reg)
    case _ => true
  }

  class ParseState {
    const input: string
    var index: nat
    var length: int
    var memoize: bool
    var cache: map<nat, map<nat, Entry>>

    /** `length` is what is left of the input after `index` (negative once
        `setPosition` has moved past the end). */
    predicate Valid()
      reads this
    {
      length == |input| - index
    }

    /** Each entry filed under `pid` at index `j` is what the parser
        `reg[pid]` replies from `j`. */
    ghost predicate CacheSound(reg: map<nat, Parser>)
      reads this
    {
      forall pid, j :: pid in cache && j in cache[pid] ==>
        pid in reg && Agrees(cache[pid][j], Parse(reg[pid], input, j, map[]), input)
    }

    /** `new ParseState(input, index)`; an absent index is 0.  Memoisation is
        off until the caller sets `memoize`. */
    constructor (input: string, index: nat)
      ensures this.input == input && this.index == index && Valid()
      ensures !memoize && cache == map[]
    {
      this.input := input;
      this.index := index;
      this.length := |input| - index;
      this.memoize := false;
      this.cache := map[];
    }

    /** `scrollTo(i)`: move the cursor to `i`. */
    method ScrollTo(i: nat)
      modifies this`index, this`length
      ensures index == i && Valid()
    {
      index := i;
      length := |input| - i;
    }

    /** `scroll(n)`: move the cursor `n` characters forward. */
    method Scroll(n: nat)
      modifies this`index, this`length
      ensures index == old(index) + n && length == old(length) - n
      ensures old(Valid()) ==> Valid()
    {
      index := index + n;
      length := length - n;
    }

    /** `at(k)`: the character `k` places after the cursor, or "" outside the input. */
    function At(k: int): (s: string)
      reads this
      ensures |s| <= 1
      ensures 0 <= index + k < |input| <==> |s| == 1
      ensures 0 <= index + k < |input| ==> s[0] == input[index + k]
    {
      if 0 <= index + k < |input| then [input[index + k]] else ""
    }

    /** `substring(start, end)`: the input between `start` and `end` counted
        from the cursor; an `end` of 0 (or absent) means the rest. */
    function Substring(start: int, end: int): (s: string)
      reads this
      requires Valid()
      ensures |s| <= |input|
      ensures 0 < end && 0 <= start <= end && index + end <= |input| ==> s == input[index + start..index + end]
      ensures end == 0 && 0 <= start && index + start <= |input| ==> s == input[index + start..]
    {
      JsSubstring(input, start + index, (if end == 0 then length else end) + index)
    }

    /** `getCached(pid)`: when memoising and an entry for `pid` at the cursor
        exists, jump to the cursor stored with it and return it; otherwise
        change nothing. */
    method GetCached(pid: nat) returns (hit: Option<Entry>)
      modifies this`index, this`length
      ensures hit.None? <==> !(memoize && pid in cache && old(index) in cache[pid])
      ensures hit.None? ==> index == old(index) && length == old(length)
      ensures hit.Some? ==> (hit.value == cache[pid][old(index)]
                             && index == hit.value.index && length == hit.value.length)
    {
      if !memoize || pid !in cache || index !in cache[pid] {
        return None;
      }
      var en := cache[pid][index];
      index := en.index;
      length := en.length;
      return Some(en);
    }

    /** `putCached(pid, start, r)`: when memoising, file `r` with the current
        cursor under `pid` at `start`.  Storing a result that agrees with the
        registered parser keeps the cache sound. */
    method PutCached(pid: nat, start: nat, r: Result, ghost reg: map<nat, Parser>)
      requires CacheSound(reg)
      requires memoize ==> pid in reg && Agrees(Entry(r, index, length), Parse(reg[pid], input, start, map[]), input)
      modifies this`cache
      ensures cache == if memoize
                       then old(cache)[pid := (if pid in old(cache) then old(cache)[pid] else map[])[start := Entry(r, index, length)]]
                       else old(cache)
      ensures CacheSound(reg)
    {
      if memoize {
        var row := if pid in cache then cache[pid] else map[];
        cache := cache[pid := row[start := Entry(r, index, length)]];
      }
    }
  }

  // ---------------------------------------------------------------
  // The primitives' and transformers' functions, run on the cursor
  // ---------------------------------------------------------------

  /** The `fn` of `char_`. */
  method CharFn(c: char, st: ParseState) returns (r: Result)
    requires st.Valid()
    modifies st`index, st`length
    ensures st.Valid() && (r, st.index) == StepPrim(CharP(c), st.input, old(st.index))
  {
    if st.length > 0 && st.At(0) == [c] {
      st.Scroll(1);
      r := Result(Def(Str([c])), true, NoExp);
    } else {
      r := Result(Undef, false, Msg([c]));
    }
  }

  /** The `fn` of `satisfy`. */
  method SatisfyFn(pred: char -> bool, st: ParseState) returns (r: Result)
    requires st.Valid()
    modifies st`index, st`length
    ensures st.Valid() && (r, st.index) == StepPrim(SatisfyP(pred), st.input, old(st.index))
  {
    var fst := st.At(0);
    if st.length > 0 && pred(fst[0]) {
      st.Scroll(1);
      r := Result(Def(Str(fst)), true, NoExp);
    } else {
      r := Result(Undef, false, Msg(fst));
    }
  }

  /** The `fn` of `try_`, `skipMany`, `string` and `label`, applied to the
      inner result `r` for an attempt begun at `start`. */
  method PostFn(post: Post, r: Result, st: ParseState, start: nat) returns (rep: Reply)
    requires st.Valid()
    modifies st`index, st`length
    ensures st.Valid()
    ensures rep == StepPost(post, r, old(st.index), start)
    ensures rep.Ok? ==> st.index == rep.end
  {
    match post {
      case TryPost =>
        if r.success {
          rep := Ok(r, st.index, map[]);
        } else {
          st.ScrollTo(start);
          rep := Ok(Result(Undef, false, r.expecting), start, map[]);
        }
      case SkipManyPost =>
        rep := Ok(Result(Undef, r.success, r.expecting), st.index, map[]);
      case StringPost(s) =>
        if r.ast.Def? && r.ast.v.List? {
          var text := JoinText(r.ast.v.items);
          rep := Ok(Result(if |text| > 0 then Def(Str(text)) else Undef,
                           r.success,
                           if r.success then NoExp else At(start, s)), st.index, map[]);
        } else {
          rep := Abort("TypeError: result.ast.join is not a function");
        }
      case LabelPost(text) =>
        if r.success {
          rep := Ok(r, st.index, map[]);
        } else {
          rep := Ok(Result(r.ast, false, At(start, text)), st.index, map[]);
        }
    }
  }

  // ---------------------------------------------------------------
  // The engine
  // ---------------------------------------------------------------

  /** Run `p` on the cursor `st` in scope `sc`.  The reply is the one `Parse`
      gives from the cursor's index, and a successful or failed reply leaves
      the cursor where the reply ends. */
  method Run(p: Parser, st: ParseState, sc: Scope, ghost reg: map<nat, Parser>) returns (rep: Reply)
    requires st.Valid() && st.CacheSound(reg) && Registered(p, reg)
    modifies st`index, st`length, st`cache
    ensures st.Valid() && st.CacheSound(reg)
    ensures rep == Parse(p, st.input, old(st.index), sc)
    ensures rep.Ok? ==> st.index == rep.end
    decreases p, 1, 0
  {
    var i := st.index;
    match p {
      case Return(v) =>
        rep := Ok(Result(v, true, NoExp), i, sc);
      case Fail(msg) =>
        rep := Ok(Result(Undef, false, Msg(msg)), i, sc);
      case Zero =>
        rep := Ok(Result(Undef, false, NoExp), i, sc);
      case Unexpected(name) =>
        rep := Ok(Result(Def(Null), false, Unexp(name)), i, sc);
      case TokenPrim(_, _) =>
        rep := RunTokenPrim(p, st, sc, reg);
      case TokenPrimP1(_, _, _) =>
        rep := RunTokenPrimP1(p, st, sc, reg);
      case Tokens(ps) =>
        if |ps| == 0 {
          rep := Abort("TypeError: parser is not a function");
        } else {
          rep := RunTokens(ps, st, sc, reg);
        }
      case Many(onePlus, q) =>
        rep := RunMany(onePlus, q, st, sc, reg);
      case Plus(_, _) =>
        rep := RunPlus(p, st, sc, reg);
      case Then(p1, p2) =>
        var rep1 := Run(p1, st, sc, reg);
        if !rep1.Ok? || !rep1.res.success {
          rep := rep1;
        } else {
          rep := Run(p2, st, rep1.scope, reg);
        }
      case Do(ps) =>
        if |ps| == 0 {
          rep := Abort("TypeError: parser is not a function");
        } else {
          var inner := RunSeq(ps, st, reg);
          rep := WithScopeOf(inner, sc);
        }
      case BindP(_, _) =>
        rep := RunBindP(p, st, sc, reg);
      case Bind(_, _) =>
        rep := RunBind(p, st, sc, reg);
      case Ret(name) =>
        if name in sc {
          rep := Ok(Result(sc[name], true, NoExp), i, sc);
        } else {
          rep := Abort("Not in scope: \"" + name + "\"");
        }
      case RetWith(f) =>
        rep := Ok(Result(f(sc), true, NoExp), i, sc);
      case WithScope(g) =>
        rep := g(sc)(State(st.input, i, sc));
        if rep.Ok? {
          st.ScrollTo(rep.end);
        }
      case GetPosition =>
        rep := Ok(Result(Def(Num(i)), true, NoExp), i, sc);
      case SetPosition(n) =>
        st.ScrollTo(n);
        rep := Ok(Result(Undef, true, NoExp), n, sc);
      case SetPositionVar(name) =>
        if name in sc && sc[name].Def? && sc[name].v.Num? && sc[name].v.n >= 0 {
          st.ScrollTo(sc[name].v.n);
          rep := Ok(Result(Undef, true, NoExp), sc[name].v.n, sc);
        } else {
          rep := Abort("setPosition: binding is not a position");
        }
      case NotFollowedBy(_) =>
        rep := RunNotFollowedBy(p, st, sc, reg);
    }
  }

  /** `tokenPrim`: answer from the cache when it holds an entry, else run the
      primitive's function and store its result. */
  method RunTokenPrim(p: Parser, st: ParseState, sc: Scope, ghost reg: map<nat, Parser>) returns (rep: Reply)
    requires p.TokenPrim?
    requires st.Valid() && st.CacheSound(reg) && Registered(p, reg)
    modifies st`index, st`length, st`cache
    ensures st.Valid() && st.CacheSound(reg)
    ensures rep == Parse(p, st.input, old(st.index), sc)
    ensures rep.Ok? ==> st.index == rep.end
    decreases p, 0, 0
  {
    var i := st.index;
    var hit := st.GetCached(p.pid);
    if hit.Some? {
      ClosedParse(p, st.input, i, sc, map[]);
      rep := Ok(hit.value.result, st.index, sc);
    } else {
      var r;
      match p.prim {
        case CharP(c) => r := CharFn(c, st);
        case SatisfyP(pred) => r := SatisfyFn(pred, st);
      }
      st.PutCached(p.pid, i, r, reg);
      rep := Ok(r, st.index, sc);
    }
  }

  /** `tokenPrimP1`: answer from the cache when it holds an entry, else run
      the inner parser, transform its result and store that. */
  method RunTokenPrimP1(p: Parser, st: ParseState, sc: Scope, ghost reg: map<nat, Parser>) returns (rep: Reply)
    requires p.TokenPrimP1?
    requires st.Valid() && st.CacheSound(reg) && Registered(p, reg)
    modifies st`index, st`length, st`cache
    ensures st.Valid() && st.CacheSound(reg)
    ensures rep == Parse(p, st.input, old(st.index), sc)
    ensures rep.Ok? ==> st.index == rep.end
    decreases p, 0, 0
  {
    var i := st.index;
    var hit := st.GetCached(p.pid);
    if hit.Some? {
      ClosedParse(p, st.input, i, sc, map[]);
      rep := Ok(hit.value.result, st.index, sc);
    } else {
      var rep1 := Run(p.p1, st, sc, reg);
      if !rep1.Ok? {
        rep := rep1;
      } else {
        var out := PostFn(p.post, rep1.res, st, i);
        if !out.Ok? {
          rep := out;
        } else {
          ClosedParse(p, st.input, i, map[], sc);
          st.PutCached(p.pid, i, out.res, reg);
          rep := Ok(out.res, st.index, rep1.scope);
        }
      }
    }
  }

  /** `parserPlus(p1, p2)`: run `p2` after `p1` whenever `p1` leaves its AST
      undefined, gathering the expectations of both on failure. */
  method RunPlus(p: Parser, st: ParseState, sc: Scope, ghost reg: map<nat, Parser>) returns (rep: Reply)
    requires p.Plus?
    requires st.Valid() && st.CacheSound(reg) && Registered(p, reg)
    modifies st`index, st`length, st`cache
    ensures st.Valid() && st.CacheSound(reg)
    ensures rep == Parse(p, st.input, old(st.index), sc)
    ensures rep.Ok? ==> st.index == rep.end
    decreases p, 0, 0
  {
    var rep1 := Run(p.p1, st, sc, reg);
    if !rep1.Ok? {
      rep := rep1;
    } else {
      var errors := Merge([], rep1.res.expecting);
      if rep1.res.ast.Def? {
        rep := Ok(rep1.res.(expecting := if rep1.res.success then NoExp else Choice(errors)), rep1.end, rep1.scope);
      } else {
        var rep2 := Run(p.p2, st, rep1.scope, reg);
        if !rep2.Ok? {
          rep := rep2;
        } else {
          rep := Ok(rep2.res.(expecting := if rep2.res.success then NoExp
                                           else Choice(Merge(errors, rep2.res.expecting))),
                    rep2.end, rep2.scope);
        }
      }
    }
  }

  /** `parserBind(q, k)`: on success of `q`, continue with `k` of its AST. */
  method RunBindP(p: Parser, st: ParseState, sc: Scope, ghost reg: map<nat, Parser>) returns (rep: Reply)
    requires p.BindP?
    requires st.Valid() && st.CacheSound(reg) && Registered(p, reg)
    modifies st`index, st`length, st`cache
    ensures st.Valid() && st.CacheSound(reg)
    ensures rep == Parse(p, st.input, old(st.index), sc)
    ensures rep.Ok? ==> st.index == rep.end
    decreases p, 0, 0
  {
    var rep1 := Run(p.p, st, sc, reg);
    if !rep1.Ok? || !rep1.res.success {
      rep := rep1;
    } else {
      rep := p.k(rep1.res.ast)(State(st.input, st.index, rep1.scope));
      if rep.Ok? {
        st.ScrollTo(rep.end);
      }
    }
  }

  /** `bind(name, q)`: on success of `q`, record its AST under `name`. */
  method RunBind(p: Parser, st: ParseState, sc: Scope, ghost reg: map<nat, Parser>) returns (rep: Reply)
    requires p.Bind?
    requires st.Valid() && st.CacheSound(reg) && Registered(p, reg)
    modifies st`index, st`length, st`cache
    ensures st.Valid() && st.CacheSound(reg)
    ensures rep == Parse(p, st.input, old(st.index), sc)
    ensures rep.Ok? ==> st.index == rep.end
    decreases p, 0, 0
  {
    if p.name == "scope" {
      rep := Abort("Can't use 'scope' as an identifier!");
    } else {
      var rep1 := Run(p.p, st, sc, reg);
      if !rep1.Ok? || !rep1.res.success {
        rep := rep1;
      } else {
        rep := Ok(rep1.res, rep1.end, rep1.scope[p.name := rep1.res.ast]);
      }
    }
  }

  /** `notFollowedBy(q)`: run `q`, scroll back, and invert its success. */
  method RunNotFollowedBy(p: Parser, st: ParseState, sc: Scope, ghost reg: map<nat, Parser>) returns (rep: Reply)
    requires p.NotFollowedBy?
    requires st.Valid() && st.CacheSound(reg) && Registered(p, reg)
    modifies st`index, st`length, st`cache
    ensures st.Valid() && st.CacheSound(reg)
    ensures rep == Parse(p, st.input, old(st.index), sc)
    ensures rep.Ok? ==> st.index == rep.end
    decreases p, 0, 0
  {
    var i := st.index;
    var rep1 := Run(p.p, st, sc, reg);
    if !rep1.Ok? {
      rep := rep1;
    } else {
      st.ScrollTo(i);
      if rep1.res.success {
        rep := Ok(Result(Undef, false, Unexp(Show(rep1.res.ast))), i, sc);
      } else {
        rep := Ok(Result(Def(Null), true, NoExp), i, sc);
      }
    }
  }

  /** `tokens(ps)`: run the parsers in turn, pushing each defined AST. */
  method RunTokens(ps: seq<Parser>, st: ParseState, sc: Scope, ghost reg: map<nat, Parser>) returns (rep: Reply)
    requires |ps| > 0 && st.Valid() && st.CacheSound(reg)
    requires forall k :: 0 <= k < |ps| ==> Registered(ps[k], reg)
    modifies st`index, st`length, st`cache
    ensures st.Valid() && st.CacheSound(reg)
    ensures rep == ParseTokens(ps, 0, st.input, old(st.index), sc, [])
    ensures rep.Ok? ==> st.index == rep.end
    decreases Tokens(ps), 0, 0
  {
    ghost var i0 := st.index;
    var k := 0;
    var ast: seq<Value> := [];
    var cur := sc;
    while true
      invariant 0 <= k < |ps| && st.Valid() && st.CacheSound(reg)
      invariant ParseTokens(ps, k, st.input, st.index, cur, ast) == ParseTokens(ps, 0, st.input, i0, sc, [])
      decreases |ps| - k
    {
      var r := Run(ps[k], st, cur, reg);
      if !r.Ok? {
        return r;
      }
      if !r.res.success {
        return Ok(Result(Def(List(ast)), false, r.res.expecting), r.end, r.scope);
      }
      ast := ast + Items(r.res.ast);
      if k + 1 == |ps| {
        return Ok(Result(Def(List(ast)), true, NoExp), r.end, r.scope);
      }
      k := k + 1;
      cur := r.scope;
    }
  }

  /** `_many(onePlus)(q)`: run `q` until it fails, pushing each defined AST. */
  method RunMany(onePlus: bool, q: Parser, st: ParseState, sc: Scope, ghost reg: map<nat, Parser>) returns (rep: Reply)
    requires st.Valid() && st.CacheSound(reg) && Registered(q, reg)
    modifies st`index, st`length, st`cache
    ensures st.Valid() && st.CacheSound(reg)
    ensures rep == ParseMany(onePlus, q, st.input, old(st.index), sc, [], false)
    ensures rep.Ok? ==> st.index == rep.end
    decreases Many(onePlus, q), 0, 0
  {
    ghost var i0 := st.index;
    var matchedOne := false;
    var ast: seq<Value> := [];
    var cur := sc;
    while true
      invariant st.Valid() && st.CacheSound(reg)
      invariant ParseMany(onePlus, q, st.input, st.index, cur, ast, matchedOne)
             == ParseMany(onePlus, q, st.input, i0, sc, [], false)
      decreases if st.index <= |st.input| then |st.input| - st.index else 0
    {
      var start := st.index;
      var r := Run(q, st, cur, reg);
      if !r.Ok? {
        return r;
      }
      if !r.res.success {
        var success := !onePlus || matchedOne;
        return Ok(Result(if success then Def(List(ast)) else Undef, success,
                         if success then NoExp else r.res.expecting), r.end, r.scope);
      }
      if !(start < r.end <= |st.input|) {
        return Stuck;
      }
      matchedOne := true;
      ast := ast + Items(r.res.ast);
      cur := r.scope;
    }
  }

  /** The `do2` chain `do_` runs, in the fresh scope `do_` opens. */
  method RunSeq(ps: seq<Parser>, st: ParseState, ghost reg: map<nat, Parser>) returns (rep: Reply)
    requires |ps| > 0 && st.Valid() && st.CacheSound(reg)
    requires forall k :: 0 <= k < |ps| ==> Registered(ps[k], reg)
    modifies st`index, st`length, st`cache
    ensures st.Valid() && st.CacheSound(reg)
    ensures rep == ParseSeq(ps, 0, st.input, old(st.index), map[])
    ensures rep.Ok? ==> st.index == rep.end
    decreases Do(ps), 0, 0
  {
    ghost var i0 := st.index;
    var k := 0;
    var cur: Scope := map[];
    while true
      invariant 0 <= k < |ps| && st.Valid() && st.CacheSound(reg)
      invariant ParseSeq(ps, k, st.input, st.index, cur) == ParseSeq(ps, 0, st.input, i0, map[])
      decreases |ps| - k
    {
      var r := Run(ps[k], st, cur, reg);
      if !r.Ok? || !r.res.success || k + 1 == |ps| {
        return r;
      }
      k := k + 1;
      cur := r.scope;
    }
  }

  /** `do_`'s loop: build `do2(...do2(ps[0], ps[1])..., ps[n-1])`. */
  method DoChain(ps: seq<Parser>) returns (chain: Parser)
    requires |ps| > 0
    ensures chain == ThenChain(ps)
  {
    chain := ps[0];
    for i := 1 to |ps|
      invariant chain == ThenChain(ps[..i])
    {
      assert ps[..i + 1][..i] == ps[..i];
      chain := Then(chain, ps[i]);
    }
    assert ps[..|ps|] == ps;
  }

  /** `parserPlusN`'s loop: build `parserPlus(...parserPlus(ps[0], ps[1])..., ps[n-1])`. */
  method PlusN(ps: seq<Parser>) returns (chain: Parser)
    requires |ps| > 0
    ensures chain == PlusChain(ps)
  {
    chain := ps[0];
    for i := 1 to |ps|
      invariant chain == PlusChain(ps[..i])
    {
      assert ps[..i + 1][..i] == ps[..i];
      chain := Plus(chain, ps[i]);
    }
    assert ps[..|ps|] == ps;
  }
}
