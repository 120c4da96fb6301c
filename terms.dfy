/**
 * The product term of the solver's Boolean algebra: the ELEM class
 * (hpsudoku.h, hpsudoku_elem.cpp).
 *
 * A term is a one-byte coefficient times a conjunction of at most two
 * signed literals. The C++ class mutates its fields in place; every list
 * operation copies terms by value, so each in-place operation without a loop
 * is modelled here as a function from the old term to the new one, and the
 * looping `operator*=` as a method proved equal to such a function.
 */
module Terms {

  /** The literal count `nvar`: the program never lets it leave 0..2. */
  type Degree = n: int | 0 <= n <= 2

  /** `value` is the coefficient, `nvar` the number of live slots,
      `var0` and `var1` the signed literal slots var[0] and var[1]. */
  datatype Elem = Elem(value: bv8, nvar: Degree, var0: int, var1: int)

  /** The term every field of which is 0 (the default constructor ELEM()). */
  const Zero := Elem(0, 0, 0, 0)

  function Abs(x: int): nat { if x < 0 then -x else x }

  /** var[i] */
  function Slot(e: Elem, i: nat): int
    requires i < 2
  {
    if i == 0 then e.var0 else e.var1
  }

  /** var[i] = l */
  function SetSlot(e: Elem, i: nat, l: int): Elem
    requires i < 2
  {
    if i == 0 then e.(var0 := l) else e.(var1 := l)
  }

  /** The literals held in the live slots var[0 .. nvar-1]. */
  function Live(e: Elem): set<int>
  {
    if e.nvar == 0 then {} else if e.nvar == 1 then {e.var0} else {e.var0, e.var1}
  }

  /** A degree-2 term names two different variables. */
  predicate DistinctVars(e: Elem)
  {
    e.nvar == 2 ==> e.var0 != e.var1 && e.var0 != -e.var1
  }

  /** Slots beyond `nvar` hold 0, as every constructor and operation leaves them. */
  predicate Tidy(e: Elem)
  {
    (e.nvar < 2 ==> e.var1 == 0) && (e.nvar == 0 ==> e.var0 == 0)
  }

  /** A term is well formed in the variable range [lo, hi) when its variables
      are distinct and every live literal names a variable of that range. */
  predicate InRange(e: Elem, lo: int, hi: int)
  {
    DistinctVars(e) && forall l :: l in Live(e) ==> lo <= Abs(l) < hi
  }

  lemma LiveSize(e: Elem)
    ensures |Live(e)| <= e.nvar
  {
  }

  // ---------------------------------------------------------------------
  // ELEM::sort (hpsudoku.h:114-130)

  /** Normalises the slot order of a two-literal term, collapsing a repeated
      literal and zeroing the pair (-k, k). */
  function ElemSort(e: Elem): (r: Elem)
    ensures e.nvar != 2 ==> r == e
    ensures r.nvar <= e.nvar
    ensures r.nvar == 2 ==> r.var0 < r.var1
    ensures r.value == e.value || r == Zero
    ensures Live(r) <= Live(e)
    ensures r.value != 0 ==> Live(r) == Live(e)
  {
    if e.nvar != 2 then e
    else if e.var0 > e.var1 then e.(var0 := e.var1, var1 := e.var0)
    else if e.var0 == e.var1 then e.(var1 := 0, nvar := 1)
    else if e.var0 == -e.var1 then Zero
    else e
  }

  /** Two equal literals collapse to one, the coefficient is kept. */
  lemma SortCollapsesDuplicate(e: Elem)
    requires e.nvar == 2 && e.var0 == e.var1
    ensures ElemSort(e) == Elem(e.value, 1, e.var0, 0)
  {
  }

  /** (-k, k) in ascending order becomes the zero term. */
  lemma SortZeroesContradiction(e: Elem)
    requires e.nvar == 2 && e.var0 < e.var1 && e.var0 == -e.var1
    ensures ElemSort(e) == Zero
  {
  }

  /** One call only swaps (k, -k); the second call zeroes it, so ElemSort is
      not idempotent. */
  lemma SortNotIdempotent(b: bv8, k: int)
    requires k > 0
    ensures ElemSort(Elem(b, 2, k, -k)) == Elem(b, 2, -k, k)
    ensures ElemSort(ElemSort(Elem(b, 2, k, -k))) == Zero
    ensures ElemSort(ElemSort(Elem(b, 2, k, -k))) != ElemSort(Elem(b, 2, k, -k))
  {
  }

  /** Two calls settle every term: a third changes nothing, and the result
      names distinct variables. */
  lemma SortTwiceSettles(e: Elem)
    ensures ElemSort(ElemSort(ElemSort(e))) == ElemSort(ElemSort(e))
    ensures DistinctVars(ElemSort(ElemSort(e)))
  {
  }

  /** On a term naming distinct variables one call already settles the term,
      and it keeps the literal set. */
  lemma SortDistinct(e: Elem)
    requires DistinctVars(e)
    ensures DistinctVars(ElemSort(e)) && ElemSort(ElemSort(e)) == ElemSort(e)
    ensures ElemSort(e).value == e.value && Live(ElemSort(e)) == Live(e)
  {
  }

  /** Sorting keeps freed slots at 0 and a term's range. */
  lemma SortKeepsShape(e: Elem, lo: int, hi: int)
    ensures Tidy(e) ==> Tidy(ElemSort(e))
    ensures InRange(e, lo, hi) ==> InRange(ElemSort(e), lo, hi)
  {
    if InRange(e, lo, hi) {
      SortDistinct(e);
    }
  }

  // ---------------------------------------------------------------------
  // Constructors and copy (hpsudoku_elem.cpp:31-86)

  /** ELEM(value, v0) */
  function Single(value: bv8, v0: int): (r: Elem)
    ensures Live(r) == {v0} && Tidy(r)
  {
    Elem(value, 1, v0, 0)
  }

  /** ELEM(value, v0, v1): both slots filled, then sorted. */
  function Pair(value: bv8, v0: int, v1: int): (r: Elem)
    ensures v0 != v1 && v0 != -v1 ==>
      r.nvar == 2 && r.value == value && r.var0 < r.var1 && Live(r) == {v0, v1}
    ensures v0 == v1 ==> r == Single(value, v0)
    ensures Tidy(r)
  {
    ElemSort(Elem(value, 2, v0, v1))
  }

  /** The copy constructor and operator= between distinct terms: the fields are
      copied and the copy is sorted. */
  function Copy(e: Elem): (r: Elem)
    ensures r.nvar <= e.nvar && Live(r) <= Live(e)
    ensures DistinctVars(e) ==> r.value == e.value && Live(r) == Live(e)
  {
    SortDistinctIfDistinct(e);
    ElemSort(e)
  }

  lemma SortDistinctIfDistinct(e: Elem)
    ensures DistinctVars(e) ==> ElemSort(e).value == e.value && Live(ElemSort(e)) == Live(e)
  {
    if DistinctVars(e) {
      SortDistinct(e);
    }
  }

  // ---------------------------------------------------------------------
  // find_var (hpsudoku_elem.cpp:147-155)

  /** The first live slot holding `l`, or -1. */
  function FindVar(e: Elem, l: int): (r: int)
    ensures -1 <= r < e.nvar
    ensures r >= 0 ==> Slot(e, r) == l && (r == 1 ==> e.var0 != l)
    ensures r == -1 <==> l !in Live(e)
  {
    if e.nvar >= 1 && e.var0 == l then 0
    else if e.nvar == 2 && e.var1 == l then 1
    else -1
  }

  /** The loop of find_var, over the live slots in order. */
  method FindVarLoop(e: Elem, l: int) returns (r: int)
    ensures r == FindVar(e, l)
  {
    var x := 0;
    while x != e.nvar
      invariant 0 <= x <= e.nvar
      invariant forall k :: 0 <= k < x ==> Slot(e, k) != l
    {
      if Slot(e, x) == l {
        return x;
      }
      x := x + 1;
    }
    return -1;
  }

  /** The opposite literal. */
  function Negate(l: int): int
  {
    -l
  }

  // ---------------------------------------------------------------------
  // expand (hpsudoku_elem.cpp:157-180)

  /** Partially evaluates the term with literal `v` assumed true. */
  function Expand(e: Elem, v: int): (r: Elem)
    ensures v in Live(e) ==>
      r.nvar == e.nvar - 1 && r.value == e.value && (e.nvar == 2 ==> r.var1 == 0) &&
      (r.nvar == 0 ==> r.var0 == 0) &&
      (r.nvar == 1 ==> r.var0 == (if e.var0 == v then e.var1 else e.var0))
    ensures v !in Live(e) && -v in Live(e) ==> r == Zero
    ensures v !in Live(e) && -v !in Live(e) ==> r == e
  {
    var nor := FindVar(e, v);
    var inv := FindVar(e, -v);
    if nor >= 0 then
      if e.nvar == 2 then
        if nor == 0 then e.(var0 := e.var1, var1 := 0, nvar := 1)
        else e.(var1 := 0, nvar := 1)
      else
        e.(var0 := 0, nvar := 0)
    else if inv >= 0 then
      Zero
    else
      e
  }

  /** Degree-0 terms are fixed points of Expand. */
  lemma ExpandConstant(e: Elem, v: int)
    requires e.nvar == 0
    ensures Expand(e, v) == e
  {
  }

  /** On a term naming distinct variables, Expand removes the variable of `v`
      entirely, introduces nothing, and is idempotent. */
  lemma ExpandEliminates(e: Elem, v: int)
    requires DistinctVars(e)
    ensures v !in Live(Expand(e, v)) && -v !in Live(Expand(e, v))
    ensures Live(Expand(e, v)) <= Live(e) && DistinctVars(Expand(e, v))
    ensures Expand(Expand(e, v), v) == Expand(e, v)
  {
  }

  /** A repeated literal shows the distinct-variable condition is needed:
      expanding (v, v) twice differs from expanding it once. */
  lemma ExpandTwiceOnDuplicate(b: bv8, v: int)
    ensures Expand(Elem(b, 2, v, v), v) == Elem(b, 1, v, 0)
    ensures Expand(Expand(Elem(b, 2, v, v), v), v) == Elem(b, 0, 0, 0)
  {
  }

  /** Expand keeps freed slots at 0. */
  lemma ExpandTidy(e: Elem, v: int)
    requires Tidy(e)
    ensures Tidy(Expand(e, v))
  {
  }

  /** Expanding a term in range [lo, hi) by a literal of variable lo leaves it
      in range [lo + 1, hi); by a literal of variable hi - 1, in [lo, hi - 1). */
  lemma ExpandNarrows(e: Elem, v: int, lo: int, hi: int)
    requires InRange(e, lo, hi)
    ensures Abs(v) == lo ==> InRange(Expand(e, v), lo + 1, hi)
    ensures Abs(v) == hi - 1 ==> InRange(Expand(e, v), lo, hi - 1)
    ensures InRange(Expand(e, v), lo, hi)
  {
    ExpandEliminates(e, v);
    var r := Expand(e, v);
    forall l | l in Live(r) ensures Abs(l) != Abs(v) {
      assert l != v && l != -v;
    }
  }

  // ---------------------------------------------------------------------
  // compare (hpsudoku_elem.cpp:110-145)

  /** The comparison mode: CMP_VAR, CMP_VAL or CMP_BOTH (the default). */
  datatype Cmp = CmpVar | CmpVal | CmpBoth

  predicate ByVars(c: Cmp) { c != CmpVal }
  predicate ByValue(c: Cmp) { c != CmpVar }

  /** Three-way comparison: degree, then var[1] for degree 2, then var[0]
      for degree >= 1, then (unless CMP_VAR) the coefficient. */
  function Compare(a: Elem, b: Elem, cmp: Cmp): (r: int)
    ensures -1 <= r <= 1
    ensures ByVars(cmp) && KeyLess(KeyOf(a), KeyOf(b)) ==> r == -1
    ensures ByVars(cmp) && KeyLess(KeyOf(b), KeyOf(a)) ==> r == 1
    ensures !ByVars(cmp) || KeyOf(a) == KeyOf(b) ==>
      r == (if ByValue(cmp) && a.value > b.value then 1 else if ByValue(cmp) && a.value < b.value then -1 else 0)
  {
    if ByVars(cmp) && a.nvar > b.nvar then 1
    else if ByVars(cmp) && a.nvar < b.nvar then -1
    else if ByVars(cmp) && a.nvar == 2 && a.var1 > b.var1 then 1
    else if ByVars(cmp) && a.nvar == 2 && a.var1 < b.var1 then -1
    else if ByVars(cmp) && a.nvar >= 1 && a.var0 > b.var0 then 1
    else if ByVars(cmp) && a.nvar >= 1 && a.var0 < b.var0 then -1
    else if ByValue(cmp) && a.value > b.value then 1
    else if ByValue(cmp) && a.value < b.value then -1
    else 0
  }

  /** The literal signature CMP_VAR looks at: degree, the live var[1], the live var[0]. */
  datatype Key = Key(degree: int, high: int, low: int)

  function KeyOf(e: Elem): Key
  {
    Key(e.nvar, if e.nvar == 2 then e.var1 else 0, if e.nvar >= 1 then e.var0 else 0)
  }

  /** Lexicographic order on signatures. */
  predicate KeyLess(j: Key, k: Key)
  {
    j.degree < k.degree ||
    (j.degree == k.degree && (j.high < k.high || (j.high == k.high && j.low < k.low)))
  }

  /** KeyLess is a strict total order. */
  lemma KeyLessOrder(i: Key, j: Key, k: Key)
    ensures !KeyLess(i, i)
    ensures KeyLess(i, j) && KeyLess(j, k) ==> KeyLess(i, k)
    ensures i == j || KeyLess(i, j) || KeyLess(j, i)
    ensures !(KeyLess(i, j) && KeyLess(j, i))
  {
  }

  /** CMP_VAR compares exactly the signatures, lexicographically. */
  lemma CompareByVars(a: Elem, b: Elem)
    ensures Compare(a, b, CmpVar) == 0 <==> KeyOf(a) == KeyOf(b)
    ensures Compare(a, b, CmpVar) < 0 <==> KeyLess(KeyOf(a), KeyOf(b))
    ensures Compare(a, b, CmpVar) > 0 <==> KeyLess(KeyOf(b), KeyOf(a))
  {
  }

  /** CMP_BOTH orders by signature first and the coefficient second. */
  lemma CompareBoth(a: Elem, b: Elem)
    ensures Compare(a, b, CmpBoth) == 0 <==> KeyOf(a) == KeyOf(b) && a.value == b.value
    ensures KeyOf(a) != KeyOf(b) ==> Compare(a, b, CmpBoth) == Compare(a, b, CmpVar)
    ensures KeyOf(a) == KeyOf(b) ==> Compare(a, b, CmpBoth) == Compare(a, b, CmpVal)
  {
  }

  /** Every mode is antisymmetric and reflexive. */
  lemma CompareAntisymmetric(a: Elem, b: Elem, cmp: Cmp)
    ensures Compare(a, b, cmp) == -Compare(b, a, cmp)
    ensures Compare(a, a, cmp) == 0
  {
  }

  /** Tidy terms are determined by signature and coefficient. */
  lemma TidyDeterminedByKey(a: Elem, b: Elem)
    requires Tidy(a) && Tidy(b) && KeyOf(a) == KeyOf(b) && a.value == b.value
    ensures a == b
  {
  }

  // ---------------------------------------------------------------------
  // operator*= (hpsudoku_elem.cpp:88-108) and operator* (hpsudoku.h:72-76)

  /** var[nvar++] = l */
  function Push(e: Elem, l: int): (r: Elem)
    requires e.nvar < 2
    ensures Live(r) == Live(e) + {l}
  {
    SetSlot(e, e.nvar, l).(nvar := e.nvar + 1)
  }

  /** One round of the loop of operator*=: absorbing literal `l` of the other
      term either keeps the term (the literal is present), appends `l`, or
      zeroes the coefficient and stops (the negation is present, or both slots
      are taken). The flag says whether the loop stops. */
  function Absorb(e: Elem, l: int): (Elem, bool)
  {
    if FindVar(e, l) >= 0 then (e, false)
    else if FindVar(e, -l) >= 0 || e.nvar == 2 then (e.(value := 0), true)
    else (Push(e, l), false)
  }

  /** The loop of `a *= b`: absorb b's literals in order until one stops it. */
  function AbsorbAll(a: Elem, b: Elem): (Elem, bool)
  {
    var s1 := if b.nvar >= 1 then Absorb(a, b.var0) else (a, false);
    if !s1.1 && b.nvar == 2 then Absorb(s1.0, b.var1) else s1
  }

  /** `a *= b` before its final sort: the loop, then the AND of the coefficients. */
  function TimesRaw(a: Elem, b: Elem): Elem
  {
    var s := AbsorbAll(a, b);
    s.0.(value := s.0.value & b.value)
  }

  /** `a *= b` */
  function Times(a: Elem, b: Elem): Elem
  {
    ElemSort(TimesRaw(a, b))
  }

  /** The loop of operator*= after its first `n` iterations: the term, and
      whether the loop has stopped. */
  function AbsorbFirst(a: Elem, b: Elem, n: nat): (Elem, bool)
    requires n <= b.nvar
  {
    if n == 0 then (a, false)
    else
      var s := AbsorbFirst(a, b, n - 1);
      if s.1 then s else Absorb(s.0, Slot(b, n - 1))
  }

  /** Running the loop over all of b's literals is AbsorbAll. */
  lemma AbsorbFirstAll(a: Elem, b: Elem)
    ensures AbsorbFirst(a, b, b.nvar) == AbsorbAll(a, b)
  {
    if b.nvar == 2 {
      assert AbsorbFirst(a, b, 1) == Absorb(a, b.var0);
    }
  }

  /** operator*=: the loop, the AND of the coefficients, then the sort. */
  method MulAssign(a: Elem, b: Elem) returns (r: Elem)
    ensures r == Times(a, b)
  {
    r := AbsorbLoop(a, b);
    r := r.(value := r.value & b.value);
    r := ElemSort(r);
  }

  /** The loop of operator*=; the `nvar == 2` test ahead of `var[nvar++]` is
      what keeps the degree within 2. */
  method AbsorbLoop(a: Elem, b: Elem) returns (r: Elem)
    ensures r == AbsorbAll(a, b).0
  {
    r := a;
    var x := 0;
    while x != b.nvar
      invariant 0 <= x <= b.nvar
      invariant AbsorbFirst(a, b, x) == (r, false)
    {
      var stop;
      r, stop := AbsorbStep(r, Slot(b, x));
      if stop {
        if x + 1 < b.nvar {
          assert AbsorbFirst(a, b, x + 2) == (r, true);
        }
        break;
      }
      x := x + 1;
    }
    AbsorbFirstAll(a, b);
  }

  /** The body of the loop of operator*=: a literal already present is
      skipped, a clashing one or one past degree 2 zeroes the coefficient
      and stops the loop, any other is stored in the next slot. */
  method AbsorbStep(e: Elem, l: int) returns (r: Elem, stop: bool)
    ensures (r, stop) == Absorb(e, l)
  {
    if FindVar(e, l) >= 0 {
      return e, false;
    }
    if FindVar(e, -l) >= 0 || e.nvar == 2 {
      return e.(value := 0), true;
    }
    r := SetSlot(e, e.nvar, l).(nvar := e.nvar + 1);
    stop := false;
  }

  /** One absorption adds at most its literal; if it stops, the coefficient is
      0; if not, it adds exactly its literal and keeps the coefficient. */
  lemma AbsorbFacts(e: Elem, l: int)
    ensures Live(Absorb(e, l).0) <= Live(e) + {l}
    ensures Absorb(e, l).1 ==> Absorb(e, l).0.value == 0
    ensures !Absorb(e, l).1 ==> Live(Absorb(e, l).0) == Live(e) + {l}
    ensures !Absorb(e, l).1 ==> Absorb(e, l).0.value == e.value
  {
  }

  /** The unsorted product: its literals come from the factors, all of them
      when the coefficient survives, and the coefficient is the AND or 0. */
  lemma AbsorbAllFacts(a: Elem, b: Elem)
    ensures Live(AbsorbAll(a, b).0) <= Live(a) + Live(b)
    ensures AbsorbAll(a, b).1 ==> AbsorbAll(a, b).0.value == 0
    ensures !AbsorbAll(a, b).1 ==> Live(AbsorbAll(a, b).0) == Live(a) + Live(b)
    ensures !AbsorbAll(a, b).1 ==> AbsorbAll(a, b).0.value == a.value
  {
    if b.nvar >= 1 {
      var s1 := Absorb(a, b.var0);
      AbsorbFacts(a, b.var0);
      if !s1.1 && b.nvar == 2 {
        AbsorbFacts(s1.0, b.var1);
        assert Live(b) == {b.var0} + {b.var1};
      }
    }
  }

  lemma TimesRawFacts(a: Elem, b: Elem)
    ensures Live(TimesRaw(a, b)) <= Live(a) + Live(b)
    ensures TimesRaw(a, b).value == a.value & b.value || TimesRaw(a, b).value == 0
    ensures TimesRaw(a, b).value != 0 ==> Live(TimesRaw(a, b)) == Live(a) + Live(b)
  {
    AbsorbAllFacts(a, b);
    var s := AbsorbAll(a, b);
    assert Live(TimesRaw(a, b)) == Live(s.0);
  }

  /** The coefficient of a product is the AND of the coefficients, or 0. */
  lemma TimesValue(a: Elem, b: Elem)
    ensures Times(a, b).value == a.value & b.value || Times(a, b).value == 0
  {
    TimesRawFacts(a, b);
  }

  /** A product never names a literal neither factor names. */
  lemma TimesLiveSubset(a: Elem, b: Elem)
    ensures Live(Times(a, b)) <= Live(a) + Live(b)
  {
    TimesRawFacts(a, b);
  }

  /** A product that survives holds exactly the union of the factors' literals. */
  lemma TimesUnion(a: Elem, b: Elem)
    requires Times(a, b).value != 0
    ensures Live(Times(a, b)) == Live(a) + Live(b)
  {
    TimesRawFacts(a, b);
  }

  /** A literal of b whose negation (but not itself) is in a forces the
      product to zero. */
  lemma TimesConflict(a: Elem, b: Elem, l: int)
    requires l in Live(b) && -l in Live(a) && l !in Live(a)
    ensures Times(a, b).value == 0
  {
    var s1 := Absorb(a, b.var0);
    AbsorbFacts(a, b.var0);
    if b.var0 != l {
      assert b.nvar == 2 && b.var1 == l;
      if !s1.1 {
        assert l !in Live(s1.0) && -l in Live(s1.0);
      }
    }
  }

  /** More than two distinct literals between the factors force the product to
      zero: the degree cap. */
  lemma TimesDegreeCap(a: Elem, b: Elem)
    requires |Live(a) + Live(b)| > 2
    ensures Times(a, b).value == 0
  {
    if Times(a, b).value != 0 {
      TimesUnion(a, b);
      LiveSize(Times(a, b));
    }
  }

  /** A literal set holding some non-zero literal together with its negation. */
  predicate Clash(s: set<int>)
  {
    exists l :: l in s && l != 0 && -l in s
  }

  /** The coefficient of a product of terms naming distinct variables: 0 when
      the factors clash or hold more than two literals between them, and the
      AND of the coefficients otherwise. */
  lemma TimesCoefficient(a: Elem, b: Elem)
    requires DistinctVars(a) && DistinctVars(b)
    ensures Times(a, b).value ==
      if Clash(Live(a) + Live(b)) || |Live(a) + Live(b)| > 2 then 0 else a.value & b.value
  {
    if Clash(Live(a) + Live(b)) {
      var l :| l in Live(a) + Live(b) && l != 0 && -l in Live(a) + Live(b);
      if l in Live(b) && -l in Live(a) && l !in Live(a) {
        TimesConflict(a, b, l);
      } else if -l in Live(b) && l in Live(a) && -l !in Live(a) {
        TimesConflict(a, b, -l);
      }
    } else if |Live(a) + Live(b)| > 2 {
      TimesDegreeCap(a, b);
    } else {
      TimesSurvives(a, b);
    }
  }

  /** Without a clash and within two literals, the product keeps the AND of
      the coefficients. */
  lemma TimesSurvives(a: Elem, b: Elem)
    requires DistinctVars(a) && DistinctVars(b) && |Live(a) + Live(b)| <= 2
    requires forall l :: l in Live(a) + Live(b) && l != 0 ==> -l !in Live(a) + Live(b)
    ensures Times(a, b).value == a.value & b.value
  {
    AbsorbAllKeeps(a, b, Live(a) + Live(b));
    SortKeepsValue(TimesRaw(a, b), Live(a) + Live(b));
  }

  /** Under the same conditions the loop of operator*= runs to its end,
      keeping the coefficient and staying within the literal set. */
  lemma AbsorbAllKeeps(a: Elem, b: Elem, u: set<int>)
    requires DistinctVars(a) && Live(a) + Live(b) <= u && |u| <= 2
    requires forall m :: m in u && m != 0 ==> -m !in u
    ensures !AbsorbAll(a, b).1 && AbsorbAll(a, b).0.value == a.value && Live(AbsorbAll(a, b).0) <= u
    ensures AbsorbAll(a, b).0.nvar == 2 ==> AbsorbAll(a, b).0.var0 != AbsorbAll(a, b).0.var1
  {
    if b.nvar >= 1 {
      AbsorbKeeps(a, b.var0, u);
      AbsorbFacts(a, b.var0);
      if b.nvar == 2 {
        var e := Absorb(a, b.var0).0;
        AbsorbKeeps(e, b.var1, u);
        AbsorbFacts(e, b.var1);
      }
    }
  }

  /** ELEM::sort keeps the coefficient of a term whose literals lie in a
      clash-free set and whose two slots differ. */
  lemma SortKeepsValue(e: Elem, u: set<int>)
    requires Live(e) <= u && forall m :: m in u && m != 0 ==> -m !in u
    requires e.nvar == 2 ==> e.var0 != e.var1
    ensures ElemSort(e).value == e.value
  {
  }

  /** Absorbing a literal does not stop the loop of operator*= when the term
      and the literal lie in a clash-free set of at most two literals. */
  lemma AbsorbKeeps(e: Elem, l: int, u: set<int>)
    requires Live(e) + {l} <= u && |u| <= 2
    requires forall m :: m in u && m != 0 ==> -m !in u
    requires e.nvar == 2 ==> e.var0 != e.var1
    ensures !Absorb(e, l).1
    ensures Absorb(e, l).0.nvar == 2 ==> Absorb(e, l).0.var0 != Absorb(e, l).0.var1
  {
    if FindVar(e, l) < 0 && e.nvar == 2 {
      assert Live(e) + {l} == {e.var0, e.var1, l};
      assert |{e.var0, e.var1, l}| == 3;
      SubsetSize(Live(e) + {l}, u);
    }
  }

  lemma SubsetSize(x: set<int>, y: set<int>)
    requires x <= y
    ensures |x| <= |y|
  {
    assert y == x + (y - x);
  }

  /** The term `*p1 * *p2` that HEAD::operator*= stores: a copy of p2 times p1,
      copied once more into the list. */
  function Product(p1: Elem, p2: Elem): (r: Elem)
  {
    ElemSort(Times(Copy(p2), p1))
  }

  /** ELEM::operator* (`*p1 * *p2`): a copy of p2, multiplied in place by p1. */
  method Multiply(p1: Elem, p2: Elem) returns (r: Elem)
    ensures r == Times(Copy(p2), p1)
    ensures ElemSort(r) == Product(p1, p2)
  {
    r := MulAssign(Copy(p2), p1);
  }

  /** A stored product is settled, names distinct variables and names no
      literal outside its factors. */
  lemma ProductShape(p1: Elem, p2: Elem)
    ensures ElemSort(Product(p1, p2)) == Product(p1, p2)
    ensures DistinctVars(Product(p1, p2))
    ensures Live(Product(p1, p2)) <= Live(p1) + Live(p2)
  {
    TimesLiveSubset(Copy(p2), p1);
    SortTwiceSettles(TimesRaw(Copy(p2), p1));
  }

  /** A product of terms in range [lo, hi) is in range [lo, hi). */
  lemma ProductInRange(p1: Elem, p2: Elem, lo: int, hi: int)
    requires InRange(p1, lo, hi) && InRange(p2, lo, hi)
    ensures InRange(Product(p1, p2), lo, hi)
  {
    ProductShape(p1, p2);
  }
}
