/** Laws of the number lexemes of Text/Parsec/Token.js: `number`, `decimal`,
    `hexadecimal`, `octal`, `zeroNumber`, `nat`, `sign` and `int_`.  Each
    parser is tied to a reference reading of the input (`PrefixedRead`,
    `AfterZeroRead`, `NatRead`, `SignRead`) stated with `RunEnd` and
    `DigitsValue`, and `nat` and `int_` read back what `NatToString` and
    `IntToString` write. */
module TokenNumberLaws {
  import opened Prim
  import opened PrimLaws
  import opened CharClass
  import opened Token
  import opened TokenLexLaws
  import PrimError

  // ---------------------------------------------------------------
  // Digits
  // ---------------------------------------------------------------

  /** `number`'s fold over the collected one-character strings is the value
      of the digits. */
  lemma {:induction false} FoldChars(base: int, t: string)
    ensures FoldDigits(base, Chars(t)) == DigitsValue(base, t)
    decreases |t|
  {
    if t != [] {
      var n := |t|;
      assert Chars(t)[..n - 1] == Chars(t[..n - 1]);
      assert FirstChar(Chars(t)[n - 1]) == t[n - 1];
      FoldChars(base, t[..n - 1]);
    }
  }

  /** A leading zero does not change the value of the digits. */
  lemma {:induction false} LeadingZero(base: int, t: string)
    ensures DigitsValue(base, ['0'] + t) == DigitsValue(base, t)
    decreases |t|
  {
    if t == [] {
      assert ['0'] + t == ['0'];
      assert ['0'][..0] == [];
    } else {
      var n := |t|;
      assert (['0'] + t)[..n] == ['0'] + t[..n - 1];
      assert (['0'] + t)[n] == t[n - 1];
      LeadingZero(base, t[..n - 1]);
    }
  }

  /** A run over a suffix that holds only `pred` characters reaches the end. */
  lemma RunEndAll(pred: char -> bool, input: string, i: nat)
    requires i <= |input|
    requires forall k :: i <= k < |input| ==> pred(input[k])
    ensures RunEnd(pred, input, i) == |input|
  {
    RunEndSpec(pred, input, i);
  }

  // ---------------------------------------------------------------
  // number, decimal, hexadecimal, octal
  // ---------------------------------------------------------------

  /** `number(base, satisfy(pred))` reads the longest run of `pred`
      characters and returns its value in `base`; with no such character it
      fails where it started, expecting the character found there. */
  lemma NumberSpec(base: int, pid: nat, pred: char -> bool, input: string, i: nat, sc: Scope)
    requires i <= |input|
    ensures var j := RunEnd(pred, input, i);
      j <= |input|
      && Parse(Number(base, Satisfy(pid, pred)), input, i, sc)
         == if j > i then Ok(Result(Def(Num(DigitsValue(base, input[i..j]))), true, NoExp), j, sc)
            else Ok(Result(Undef, false, Msg(CharAt(input, i))), i, sc)
  {
    var q := Satisfy(pid, pred);
    var ps := Number(base, q).ps;
    assert Number(base, q) == Do([ps[0], ps[1]]);
    var j := RunEnd(pred, input, i);
    Do2(ps[0], ps[1], input, i, sc);
    BindUnfold("digits", Many1(q), input, i, map[]);
    Many1SatisfySpec(pid, pred, input, i, map[]);
    if j > i {
      var s1: Scope := map["digits" := Def(List(Chars(input[i..j])))];
      FoldChars(base, input[i..j]);
      assert NumberValue(base, s1) == Def(Num(DigitsValue(base, input[i..j])));
    }
  }

  /** What `do_(oneOf(cs), number(base, satisfy(pred)))` reads from `j`:
      whether it found a prefix character followed by digits, their value,
      and where it stopped (after the prefix character when no digit
      follows it). */
  function PrefixedRead(cs: string, pred: char -> bool, base: int, input: string, j: nat): (r: (bool, int, nat))
    requires j <= |input|
    ensures j <= r.2 <= |input|
    ensures r.0 ==> r.2 > j + 1
  {
    if j < |input| && input[j] in cs then
      var e := RunEnd(pred, input, j + 1);
      if e > j + 1 then (true, DigitsValue(base, input[j + 1..e]), e) else (false, 0, j + 1)
    else (false, 0, j)
  }

  /** `hexadecimal` and `octal`: the prefix character, then a number; a
      failure keeps the cursor where it stopped and expects the character
      found there. */
  lemma PrefixedSpec(cs: string, pred: char -> bool, base: int, input: string, j: nat, sc: Scope)
    requires j <= |input|
    ensures var r := PrefixedRead(cs, pred, base, input, j);
      Parse(Do([OneOf(cs), Number(base, Satisfy(0, pred))]), input, j, sc)
      == if r.0 then Ok(Result(Def(Num(r.1)), true, NoExp), r.2, sc)
         else Ok(Result(Undef, false, Msg(CharAt(input, r.2))), r.2, sc)
  {
    Do2(OneOf(cs), Number(base, Satisfy(0, pred)), input, j, sc);
    SatisfySpec(0, OneOf(cs).prim.pred, input, j, map[]);
    if j < |input| && input[j] in cs {
      NumberSpec(base, 0, pred, input, j + 1, map[]);
    }
  }

  // ---------------------------------------------------------------
  // zeroNumber and nat
  // ---------------------------------------------------------------

  /** What `zeroNumber` reads after its '0', from `j`: a hexadecimal number,
      else an octal one from where the hexadecimal attempt stopped, else a
      decimal one from where that stopped, else 0. */
  function AfterZeroRead(input: string, j: nat): (r: (int, nat))
    requires j <= |input|
    ensures j <= r.1 <= |input|
  {
    var h := PrefixedRead("xX", IsHexDigit, 16, input, j);
    if h.0 then (h.1, h.2)
    else
      var o := PrefixedRead("oO", IsOctDigit, 8, input, h.2);
      if o.0 then (o.1, o.2)
      else
        var d := RunEnd(IsDigit, input, o.2);
        if d > o.2 then (DigitsValue(10, input[o.2..d]), d) else (0, o.2)
  }

  /** The choice after `zeroNumber`'s '0' always succeeds. */
  lemma AfterZeroSpec(input: string, j: nat, sc: Scope)
    requires j <= |input|
    ensures var r := AfterZeroRead(input, j);
      Parse(AfterZero, input, j, sc) == Ok(Result(Def(Num(r.0)), true, NoExp), r.1, sc)
  {
    var h := PrefixedRead("xX", IsHexDigit, 16, input, j);
    PrefixedSpec("xX", IsHexDigit, 16, input, j, sc);
    assert Parse(AfterZero, input, j, sc) == ParsePlus(AfterZero, input, j, sc);
    if !h.0 {
      var o := PrefixedRead("oO", IsOctDigit, 8, input, h.2);
      var p2 := Plus(Octal, Plus(Decimal, Return(Def(Num(0)))));
      PrefixedSpec("oO", IsOctDigit, 8, input, h.2, sc);
      assert Parse(p2, input, h.2, sc) == ParsePlus(p2, input, h.2, sc);
      if !o.0 {
        var p3 := Plus(Decimal, Return(Def(Num(0))));
        NumberSpec(10, 0, IsDigit, input, o.2, sc);
        assert Parse(p3, input, o.2, sc) == ParsePlus(p3, input, o.2, sc);
      }
    }
  }

  /** `zeroNumber` reads a '0' and what follows it; without a '0' it fails
      where it started, expecting its empty label. */
  lemma ZeroNumberSpec(input: string, i: nat, sc: Scope)
    requires i <= |input|
    ensures Parse(ZeroNumber, input, i, sc)
      == if i < |input| && input[i] == '0'
         then Ok(Result(Def(Num(AfterZeroRead(input, i + 1).0)), true, NoExp), AfterZeroRead(input, i + 1).1, sc)
         else Ok(Result(Undef, false, At(i, "")), i, sc)
  {
    assert Parse(ZeroNumber, input, i, sc) == ParseP1(ZeroNumber, input, i, sc);
    Do2(Char_(0, '0'), AfterZero, input, i, sc);
    CharSpec(0, '0', input, i, map[]);
    if i < |input| && input[i] == '0' {
      AfterZeroSpec(input, i + 1, map[]);
    }
  }

  /** What `nat` reads from `i`: whether it found a number, its value and
      where it stopped. */
  function NatRead(input: string, i: nat): (r: (bool, int, nat))
    requires i <= |input|
    ensures i <= r.2 <= |input|
    ensures r.0 <==> i < |input| && IsDigit(input[i])
  {
    if i < |input| && input[i] == '0' then
      var z := AfterZeroRead(input, i + 1);
      (true, z.0, z.1)
    else
      var d := RunEnd(IsDigit, input, i);
      if d > i then (true, DigitsValue(10, input[i..d]), d) else (false, 0, i)
  }

  /** What a failed `nat` expects: the empty label of `zeroNumber`, then the
      character `decimal` found (none at the end of the input). */
  function NatExpect(input: string, i: nat): Expect
  {
    Choice([At(i, "")] + if i < |input| then [Msg([input[i]])] else [])
  }

  /** `nat` is `NatRead`; it fails, without moving, exactly where no digit
      is. */
  lemma NatSpec(input: string, i: nat, sc: Scope)
    requires i <= |input|
    ensures var r := NatRead(input, i);
      Parse(Nat, input, i, sc)
      == if r.0 then Ok(Result(Def(Num(r.1)), true, NoExp), r.2, sc)
         else Ok(Result(Undef, false, NatExpect(input, i)), i, sc)
  {
    assert Parse(Nat, input, i, sc) == ParsePlus(Nat, input, i, sc);
    ZeroNumberSpec(input, i, sc);
    if !(i < |input| && input[i] == '0') {
      NumberSpec(10, 0, IsDigit, input, i, sc);
      RunEndSpec(IsDigit, input, i);
      assert Merge([], At(i, "")) == [At(i, "")];
      assert Merge([At(i, "")], Msg(CharAt(input, i)))
          == [At(i, "")] + if i < |input| then [Msg([input[i]])] else [];
    }
  }

  /** The reading, without `Parse`, of a digit run with no "0x", "0X",
      "0o" or "0O" prefix. */
  lemma NatReadDecimal(input: string, i: nat)
    requires i < |input| && IsDigit(input[i])
    requires !(input[i] == '0' && i + 1 < |input| && input[i + 1] in "xXoO")
    ensures var d := RunEnd(IsDigit, input, i);
      d <= |input| && NatRead(input, i) == (true, DigitsValue(10, input[i..d]), d)
  {
    var d := RunEnd(IsDigit, input, i);
    if input[i] == '0' {
      assert d == RunEnd(IsDigit, input, i + 1);
      assert input[i..d] == ['0'] + input[i + 1..d];
      LeadingZero(10, input[i + 1..d]);
      if d == i + 1 {
        assert input[i + 1..d] == [];
      }
    }
  }

  /** A digit run that does not start with "0x", "0X", "0o" or "0O" is read
      as one decimal number, leading zeros included. */
  lemma NatDecimal(input: string, i: nat, sc: Scope)
    requires i < |input| && IsDigit(input[i])
    requires !(input[i] == '0' && i + 1 < |input| && input[i + 1] in "xXoO")
    ensures var d := RunEnd(IsDigit, input, i);
      d <= |input|
      && Parse(Nat, input, i, sc) == Ok(Result(Def(Num(DigitsValue(10, input[i..d]))), true, NoExp), d, sc)
  {
    NatSpec(input, i, sc);
    NatReadDecimal(input, i);
  }

  /** "0x" or "0X" and hexadecimal digits read as a hexadecimal number. */
  lemma NatHex(input: string, i: nat, sc: Scope)
    requires i + 1 < |input| && input[i] == '0' && input[i + 1] in "xX"
    requires RunEnd(IsHexDigit, input, i + 2) > i + 2
    ensures var h := RunEnd(IsHexDigit, input, i + 2);
      h <= |input|
      && Parse(Nat, input, i, sc) == Ok(Result(Def(Num(DigitsValue(16, input[i + 2..h]))), true, NoExp), h, sc)
  {
    NatSpec(input, i, sc);
  }

  /** "0o" or "0O" and octal digits read as an octal number. */
  lemma NatOct(input: string, i: nat, sc: Scope)
    requires i + 1 < |input| && input[i] == '0' && input[i + 1] in "oO"
    requires RunEnd(IsOctDigit, input, i + 2) > i + 2
    ensures var o := RunEnd(IsOctDigit, input, i + 2);
      o <= |input|
      && Parse(Nat, input, i, sc) == Ok(Result(Def(Num(DigitsValue(8, input[i + 2..o]))), true, NoExp), o, sc)
  {
    NatSpec(input, i, sc);
  }

  /** "0x" with no hexadecimal digit after it: `parserPlus` goes on to the
      later alternatives from where `hexadecimal` stopped, so `nat` returns 0
      with the 'x' consumed (when no "o" follows). */
  lemma NatHexWithoutDigits(input: string, i: nat, sc: Scope)
    requires i + 1 < |input| && input[i] == '0' && input[i + 1] in "xX"
    requires !(i + 2 < |input| && (IsHexDigit(input[i + 2]) || input[i + 2] in "oO"))
    ensures Parse(Nat, input, i, sc) == Ok(Result(Def(Num(0)), true, NoExp), i + 2, sc)
  {
    NatSpec(input, i, sc);
  }

  /** `nat` reads back what `NatToString` writes. */
  lemma NatReadsNatToString(n: nat, sc: Scope)
    ensures var s := PrimError.NatToString(n);
      Parse(Nat, s, 0, sc) == Ok(Result(Def(Num(n)), true, NoExp), |s|, sc)
  {
    var s := PrimError.NatToString(n);
    RunEndAll(IsDigit, s, 0);
    assert !(1 < |s| && s[1] in "xXoO") by {
      if 1 < |s| { assert IsDigit(s[1]); }
    }
    NatDecimal(s, 0, sc);
    assert s[0..|s|] == s;
  }

  // ---------------------------------------------------------------
  // sign and int_
  // ---------------------------------------------------------------

  /** What `sign` reads from `i`: `negate` after a '-', `id` after a '+'
      and, consuming nothing, `id` otherwise. */
  function SignRead(input: string, i: nat): (r: (Value, nat))
    ensures r.0 == NegateFn || r.0 == IdFn
    ensures r.1 == i || (i < |input| && r.1 == i + 1)
  {
    if i < |input| && input[i] == '-' then (NegateFn, i + 1)
    else if i < |input| && input[i] == '+' then (IdFn, i + 1)
    else (IdFn, i)
  }

  /** `sign` always succeeds, with the function `SignRead` finds. */
  lemma SignSpec(input: string, i: nat, sc: Scope)
    ensures var r := SignRead(input, i);
      Parse(Sign, input, i, sc) == Ok(Result(Def(r.0), true, NoExp), r.1, sc)
  {
    var t1 := Then(Char_(0, '-'), Return(Def(NegateFn)));
    var t2 := Then(Char_(0, '+'), Return(Def(IdFn)));
    var p2 := Plus(t2, Return(Def(IdFn)));
    assert Parse(Sign, input, i, sc) == ParsePlus(Sign, input, i, sc);
    assert Parse(t1, input, i, sc) == ParseThen(t1, input, i, sc);
    CharSpec(0, '-', input, i, sc);
    if !(i < |input| && input[i] == '-') {
      assert Parse(p2, input, i, sc) == ParsePlus(p2, input, i, sc);
      assert Parse(t2, input, i, sc) == ParseThen(t2, input, i, sc);
      CharSpec(0, '+', input, i, sc);
    }
  }

  /** The first statement of `int_`: the sign as a lexeme, bound to "f". */
  lemma SignLexeme(input: string, i: nat)
    requires i <= |input|
    ensures var s := SignRead(input, i);
      Parse(Bind("f", Lexeme(Sign)), input, i, map[])
      == Ok(Result(Def(s.0), true, NoExp), RunEnd(IsSpace, input, s.1), map["f" := Def(s.0)])
  {
    BindUnfold("f", Lexeme(Sign), input, i, map[]);
    LexemeSpec(Sign, input, i, map[]);
    SignSpec(input, i, map[]);
  }

  /** The rest of `int_`: the natural, bound to "n", and the sign applied. */
  lemma NatApplied(input: string, w: nat, f: Value)
    requires w <= |input| && (f == NegateFn || f == IdFn)
    ensures var s1: Scope := map["f" := Def(f)];
      var n := NatRead(input, w);
      var r2 := Parse(Bind("n", Nat), input, w, s1);
      (if !r2.Ok? || !r2.res.success then r2 else Parse(RetWith(ApplySign), input, r2.end, r2.scope))
      == if n.0 then Ok(Result(Def(Num(if f == NegateFn then -n.1 else n.1)), true, NoExp), n.2, s1["n" := Def(Num(n.1))])
         else Ok(Result(Undef, false, NatExpect(input, w)), w, s1)
  {
    var s1: Scope := map["f" := Def(f)];
    var n := NatRead(input, w);
    BindUnfold("n", Nat, input, w, s1);
    NatSpec(input, w, s1);
    if n.0 {
      var s2 := s1["n" := Def(Num(n.1))];
      assert ApplySign(s2) == Def(Num(if f == NegateFn then -n.1 else n.1));
    }
  }

  /** `int_`: a sign, the white space after it, then a natural, negated
      after a '-'; with no natural it fails where the natural was expected. */
  lemma Int_Spec(input: string, i: nat, sc: Scope)
    requires i <= |input|
    ensures var s := SignRead(input, i);
      var w := RunEnd(IsSpace, input, s.1);
      w <= |input|
      && var n := NatRead(input, w);
         Parse(Int_, input, i, sc)
         == if n.0 then Ok(Result(Def(Num(if s.0 == NegateFn then -n.1 else n.1)), true, NoExp), n.2, sc)
            else Ok(Result(Undef, false, NatExpect(input, w)), w, sc)
  {
    var s := SignRead(input, i);
    var w := RunEnd(IsSpace, input, s.1);
    Do3(Bind("f", Lexeme(Sign)), Bind("n", Nat), RetWith(ApplySign), input, i, sc);
    SignLexeme(input, i);
    NatApplied(input, w, s.0);
  }

  /** A string of digits is a natural with nothing after it. */
  lemma NatReadAll(input: string, i: nat)
    requires i < |input|
    requires forall k :: i <= k < |input| ==> IsDigit(input[k])
    ensures NatRead(input, i) == (true, DigitsValue(10, input[i..]), |input|)
  {
    RunEndAll(IsDigit, input, i);
    assert !(input[i] == '0' && i + 1 < |input| && input[i + 1] in "xXoO") by {
      if i + 1 < |input| { assert IsDigit(input[i + 1]); }
    }
    NatReadDecimal(input, i);
    assert input[i..|input|] == input[i..];
  }

  /** `int_` reads back what `IntToString` writes. */
  lemma IntReadsIntToString(x: int, sc: Scope)
    ensures var s := PrimError.IntToString(x);
      Parse(Int_, s, 0, sc) == Ok(Result(Def(Num(x)), true, NoExp), |s|, sc)
  {
    var s := PrimError.IntToString(x);
    Int_Spec(s, 0, sc);
    if x < 0 {
      var t := PrimError.NatToString(-x);
      assert s == "-" + t;
      assert s[1..] == t;
      assert SignRead(s, 0) == (NegateFn, 1);
      assert RunEnd(IsSpace, s, 1) == 1 by { assert !IsSpace(s[1]); }
      NatReadAll(s, 1);
    } else {
      assert SignRead(s, 0) == (IdFn, 0) by { assert IsDigit(s[0]); }
      assert RunEnd(IsSpace, s, 0) == 0 by { assert IsDigit(s[0]); }
      NatReadAll(s, 0);
      assert s[0..] == s;
    }
  }

  // ---------------------------------------------------------------
  // Examples
  // ---------------------------------------------------------------

  lemma HexFacts()
    ensures RunEnd(IsHexDigit, "0x1F", 2) == 4
    ensures "0x1F"[2..4] == "1F" && DigitsValue(16, "1F") == 31
  {
    assert "1F"[..1] == "1";
    assert "1"[..0] == "";
  }

  /** "0x1F" reads as 31. */
  lemma NatHexExample()
    ensures Parse(Nat, "0x1F", 0, map[]) == Ok(Result(Def(Num(31)), true, NoExp), 4, map[])
  {
    HexFacts();
    NatHex("0x1F", 0, map[]);
  }

  /** "0xg" reads as 0, leaving "g". */
  lemma NatHexWithoutDigitsExample()
    ensures Parse(Nat, "0xg", 0, map[]) == Ok(Result(Def(Num(0)), true, NoExp), 2, map[])
  {
    NatHexWithoutDigits("0xg", 0, map[]);
  }

  lemma HexThenOctalFacts()
    ensures RunEnd(IsHexDigit, "0xo7", 2) == 2 && RunEnd(IsOctDigit, "0xo7", 3) == 4
    ensures "0xo7"[3..4] == "7" && DigitsValue(8, "7") == 7
    ensures NatRead("0xo7", 0) == (true, 7, 4)
  {
    assert "7"[..0] == "";
  }

  /** "0xo7" reads as 7: `hexadecimal` stops after the `x` with no digit,
      and `octal` goes on from there without a rewind. */
  lemma NatHexThenOctalExample()
    ensures Parse(Nat, "0xo7", 0, map[]) == Ok(Result(Def(Num(7)), true, NoExp), 4, map[])
  {
    HexThenOctalFacts();
    NatSpec("0xo7", 0, map[]);
  }

  lemma MinusFacts()
    ensures SignRead("- 12", 0) == (NegateFn, 1)
    ensures RunEnd(IsSpace, "- 12", 1) == 2
    ensures NatRead("- 12", 2) == (true, 12, 4)
  {
    assert RunEnd(IsDigit, "- 12", 2) == 4;
    assert "- 12"[2..4] == "12";
    assert "12"[..1] == "1";
    assert "1"[..0] == "";
  }

  /** White space may follow the sign: "- 12" reads as -12. */
  lemma IntExample()
    ensures Parse(Int_, "- 12", 0, map[]) == Ok(Result(Def(Num(-12)), true, NoExp), 4, map[])
  {
    MinusFacts();
    Int_Spec("- 12", 0, map[]);
  }
}
