/** The reserved-word tables of Text/Parsec/Token.js: `isReserved`, its use by
    `isReservedName` and `isReservedOp`, and `theReservedNames`.  The sort
    (`isort`) and comparison (`unsafeCompare`) come from the base library,
    which is not part of this model: they are an insertion sort and the
    code-unit order of JavaScript's string comparison. */
module TokenNames {
  import opened CharClass

  datatype Ordering = LT | EQ | GT

  /** `unsafeCompare` on strings: lexicographic on character codes. */
  function Compare(a: string, b: string): Ordering
  {
    if a == [] then (if b == [] then EQ else LT)
    else if b == [] then GT
    else if a[0] < b[0] then LT
    else if a[0] > b[0] then GT
    else Compare(a[1..], b[1..])
  }

  predicate Le(a: string, b: string) { Compare(a, b) != GT }

  /** Only equal strings compare equal, and the order is antisymmetric. */
  lemma {:induction false} CompareSpec(a: string, b: string)
    ensures Compare(a, b) == EQ <==> a == b
    ensures Compare(a, b) == LT <==> Compare(b, a) == GT
    decreases |a|
  {
    if a != [] && b != [] && a[0] == b[0] {
      CompareSpec(a[1..], b[1..]);
      assert a == [a[0]] + a[1..] && b == [b[0]] + b[1..];
    }
  }

  /** The order is transitive, strictly so when either step is strict. */
  lemma {:induction false} CompareTrans(a: string, b: string, c: string)
    ensures Le(a, b) && Le(b, c) ==> Le(a, c)
    ensures Compare(a, b) == LT && Le(b, c) ==> Compare(a, c) == LT
    decreases |a|
  {
    if a != [] && b != [] && c != [] {
      CompareTrans(a[1..], b[1..], c[1..]);
    }
  }

  /** Ascending: every element is at most every later one. */
  predicate Sorted(xs: seq<string>)
  {
    forall i, j :: 0 <= i < j < |xs| ==> Le(xs[i], xs[j])
  }

  // ---------------------------------------------------------------
  // isort
  // ---------------------------------------------------------------

  function Insert(x: string, xs: seq<string>): seq<string>
  {
    if xs == [] then [x]
    else if Le(x, xs[0]) then [x] + xs
    else [xs[0]] + Insert(x, xs[1..])
  }

  /** `isort(xs)`. */
  function Isort(xs: seq<string>): seq<string>
  {
    if xs == [] then [] else Insert(xs[0], Isort(xs[1..]))
  }

  lemma SortedTail(xs: seq<string>)
    requires Sorted(xs) && xs != []
    ensures Sorted(xs[1..])
  {
    forall i, j | 0 <= i < j < |xs[1..]| ensures Le(xs[1..][i], xs[1..][j]) {
      assert xs[1..][i] == xs[i + 1] && xs[1..][j] == xs[j + 1];
    }
  }

  lemma SortedCons(y: string, ys: seq<string>)
    requires Sorted(ys) && forall k :: 0 <= k < |ys| ==> Le(y, ys[k])
    ensures Sorted([y] + ys)
  {
    var r := [y] + ys;
    forall i, j | 0 <= i < j < |r| ensures Le(r[i], r[j]) {
      assert r[j] == ys[j - 1];
      if i > 0 {
        assert r[i] == ys[i - 1];
      }
    }
  }

  /** A lower bound of `x` and of `xs` bounds `Insert(x, xs)`. */
  lemma {:induction false} InsertBound(y: string, x: string, xs: seq<string>)
    requires Le(y, x) && forall k :: 0 <= k < |xs| ==> Le(y, xs[k])
    ensures forall k :: 0 <= k < |Insert(x, xs)| ==> Le(y, Insert(x, xs)[k])
    decreases |xs|
  {
    if xs != [] && !Le(x, xs[0]) {
      assert forall k :: 0 <= k < |xs[1..]| ==> xs[1..][k] == xs[k + 1];
      InsertBound(y, x, xs[1..]);
      var rest := Insert(x, xs[1..]);
      assert forall k :: 1 <= k < |[xs[0]] + rest| ==> ([xs[0]] + rest)[k] == rest[k - 1];
    } else if xs != [] {
      assert forall k :: 1 <= k < |[x] + xs| ==> ([x] + xs)[k] == xs[k - 1];
    }
  }

  lemma {:induction false} InsertSorted(x: string, xs: seq<string>)
    requires Sorted(xs)
    ensures Sorted(Insert(x, xs))
    decreases |xs|
  {
    if xs == [] {
    } else if Le(x, xs[0]) {
      forall k | 0 <= k < |xs| ensures Le(x, xs[k]) {
        CompareTrans(x, xs[0], xs[k]);
      }
      SortedCons(x, xs);
    } else {
      SortedTail(xs);
      InsertSorted(x, xs[1..]);
      CompareSpec(x, xs[0]);
      InsertBound(xs[0], x, xs[1..]);
      SortedCons(xs[0], Insert(x, xs[1..]));
    }
  }

  lemma {:induction false} InsertPerm(x: string, xs: seq<string>)
    ensures multiset(Insert(x, xs)) == multiset(xs) + multiset{x}
    decreases |xs|
  {
    if xs != [] && !Le(x, xs[0]) {
      InsertPerm(x, xs[1..]);
      assert xs == [xs[0]] + xs[1..];
    }
  }

  /** `isort` returns its argument in ascending order. */
  lemma {:induction false} IsortSpec(xs: seq<string>)
    ensures Sorted(Isort(xs))
    ensures multiset(Isort(xs)) == multiset(xs)
    decreases |xs|
  {
    if xs != [] {
      IsortSpec(xs[1..]);
      InsertSorted(xs[0], Isort(xs[1..]));
      InsertPerm(xs[0], Isort(xs[1..]));
      assert xs == [xs[0]] + xs[1..];
    }
  }

  // ---------------------------------------------------------------
  // isReserved
  // ---------------------------------------------------------------

  /** `isReserved(names, name)`: scan while the names are smaller, true on an
      equal one, false at the first greater one or at the end. */
  function IsReserved(names: seq<string>, name: string): bool
  {
    if names == [] then false
    else match Compare(names[0], name)
      case LT => IsReserved(names[1..], name)
      case EQ => true
      case GT => false
  }

  /** The scan never reports a name that is not in the list, sorted or not. */
  lemma {:induction false} IsReservedSound(names: seq<string>, name: string)
    ensures IsReserved(names, name) ==> name in names
    decreases |names|
  {
    if names != [] {
      CompareSpec(names[0], name);
      IsReservedSound(names[1..], name);
    }
  }

  /** On an ascending list the scan is membership. */
  lemma {:induction false} IsReservedSorted(names: seq<string>, name: string)
    requires Sorted(names)
    ensures IsReserved(names, name) <==> name in names
    decreases |names|
  {
    if names != [] {
      CompareSpec(names[0], name);
      SortedTail(names);
      IsReservedSorted(names[1..], name);
      assert names == [names[0]] + names[1..];
      if Compare(names[0], name) == GT {
        forall k | 0 <= k < |names| ensures names[k] != name {
          CompareSpec(name, names[0]);
          CompareTrans(name, names[0], names[k]);
          CompareSpec(name, names[k]);
        }
      }
    }
  }

  // ---------------------------------------------------------------
  // The language's reserved names and operators
  // ---------------------------------------------------------------

  function LowerAll(names: seq<string>): (r: seq<string>)
    ensures |r| == |names| && forall k :: 0 <= k < |names| ==> r[k] == LowerString(names[k])
  {
    seq(|names|, k requires 0 <= k < |names| => LowerString(names[k]))
  }

  /** `theReservedNames`: the sorted reserved names, lowered afterwards when
      the language ignores case. */
  function TheReservedNames(caseSensitive: bool, reservedNames: seq<string>): seq<string>
  {
    var sortedNames := Isort(reservedNames);
    if caseSensitive then sortedNames else LowerAll(sortedNames)
  }

  /** `isReservedName(name)`. */
  function IsReservedName(caseSensitive: bool, reservedNames: seq<string>, name: string): bool
  {
    var caseName := if caseSensitive then name else LowerString(name);
    IsReserved(TheReservedNames(caseSensitive, reservedNames), caseName)
  }

  /** `isReservedOp(name)`. */
  function IsReservedOp(reservedOpNames: seq<string>, name: string): bool
  {
    IsReserved(Isort(reservedOpNames), name)
  }

  /** An operator is reserved exactly when it is listed. */
  lemma IsReservedOpSpec(reservedOpNames: seq<string>, name: string)
    ensures IsReservedOp(reservedOpNames, name) <==> name in reservedOpNames
  {
    IsortSpec(reservedOpNames);
    IsReservedSorted(Isort(reservedOpNames), name);
    SameMembers(Isort(reservedOpNames), reservedOpNames, name);
  }

  lemma SameMembers(a: seq<string>, b: seq<string>, s: string)
    requires multiset(a) == multiset(b)
    ensures s in a <==> s in b
  {
    assert s in a <==> s in multiset(a);
    assert s in b <==> s in multiset(b);
  }

  lemma LowerAllMember(s: string, xs: seq<string>)
    requires s in xs
    ensures LowerString(s) in LowerAll(xs)
  {
    var m :| 0 <= m < |xs| && xs[m] == s;
    assert LowerAll(xs)[m] == LowerString(s);
  }

  /** In a case-sensitive language a name is reserved exactly when it is
      listed.  In one that ignores case, a name reported reserved is always
      one whose lowered form is a lowered listed name, and the converse holds
      whenever the sorted names are still sorted once lowered (they are not
      always: see `LowerAfterSortMisses`). */
  lemma IsReservedNameSpec(caseSensitive: bool, reservedNames: seq<string>, name: string)
    ensures caseSensitive ==> (IsReservedName(caseSensitive, reservedNames, name) <==> name in reservedNames)
    ensures !caseSensitive && IsReservedName(caseSensitive, reservedNames, name)
      ==> LowerString(name) in LowerAll(reservedNames)
    ensures !caseSensitive && Sorted(LowerAll(Isort(reservedNames)))
      ==> (IsReservedName(caseSensitive, reservedNames, name) <==> LowerString(name) in LowerAll(reservedNames))
  {
    var sortedNames := Isort(reservedNames);
    IsortSpec(reservedNames);
    if caseSensitive {
      IsReservedSorted(sortedNames, name);
      SameMembers(sortedNames, reservedNames, name);
    } else {
      IsReservedSound(LowerAll(sortedNames), LowerString(name));
      LowerAllSameMembers(sortedNames, reservedNames, LowerString(name));
      if Sorted(LowerAll(sortedNames)) {
        IsReservedSorted(LowerAll(sortedNames), LowerString(name));
      }
    }
  }

  /** Two tables with the same names lower to tables with the same names. */
  lemma LowerAllSameMembers(a: seq<string>, b: seq<string>, s: string)
    requires multiset(a) == multiset(b)
    ensures s in LowerAll(a) <==> s in LowerAll(b)
  {
    if s in LowerAll(a) {
      var k :| 0 <= k < |a| && LowerAll(a)[k] == s;
      SameMembers(a, b, a[k]);
      LowerAllMember(a[k], b);
    }
    if s in LowerAll(b) {
      var k :| 0 <= k < |b| && LowerAll(b)[k] == s;
      SameMembers(a, b, b[k]);
      LowerAllMember(b[k], a);
    }
  }

  // ---------------------------------------------------------------
  // Finding: lowering after sorting
  // ---------------------------------------------------------------

  /** As written, a case-insensitive language with the reserved names "a" and
      "B" does not treat "a" as reserved: the sorted list is ["B", "a"], it
      lowers to ["b", "a"], and the scan stops at "b", which is greater. */
  lemma LowerAfterSortMisses()
    ensures "a" in ["a", "B"]
    ensures !IsReservedName(false, ["a", "B"], "a")
  {
    assert Compare("a", "B") == GT;
    assert Isort(["B"]) == ["B"];
    assert Isort(["a", "B"]) == Insert("a", ["B"]) == ["B", "a"];
    assert LowerString("B") == "b" && LowerString("a") == "a";
    assert LowerAll(["B", "a"]) == ["b", "a"];
    assert Compare("b", "a") == GT;
  }

  /** Corrected `theReservedNames`: lower first, then sort. */
  function TheReservedNamesFixed(caseSensitive: bool, reservedNames: seq<string>): seq<string>
  {
    Isort(if caseSensitive then reservedNames else LowerAll(reservedNames))
  }

  function IsReservedNameFixed(caseSensitive: bool, reservedNames: seq<string>, name: string): bool
  {
    var caseName := if caseSensitive then name else LowerString(name);
    IsReserved(TheReservedNamesFixed(caseSensitive, reservedNames), caseName)
  }

  /** Corrected: a name is reserved exactly when it is listed, up to case when
      the language ignores case. */
  lemma IsReservedNameFixedSpec(caseSensitive: bool, reservedNames: seq<string>, name: string)
    ensures caseSensitive ==> (IsReservedNameFixed(caseSensitive, reservedNames, name) <==> name in reservedNames)
    ensures !caseSensitive ==> (IsReservedNameFixed(caseSensitive, reservedNames, name)
                                <==> LowerString(name) in LowerAll(reservedNames))
  {
    var table := if caseSensitive then reservedNames else LowerAll(reservedNames);
    var caseName := if caseSensitive then name else LowerString(name);
    IsortSpec(table);
    IsReservedSorted(Isort(table), caseName);
    SameMembers(Isort(table), table, caseName);
  }
}
