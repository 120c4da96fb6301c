/**
 * The list operations of HEAD (hpsudoku.h, hpsudoku_head.cpp) as functions of
 * the lists they read: expand, operator+=, operator*=, value and compare,
 * and the properties the elimination solver relies on.
 */
module Algebra {
  import opened Terms
  import opened Formulas

  predicate AllInRange(s: seq<Elem>, lo: int, hi: int)
  {
    forall i :: 0 <= i < |s| ==> InRange(s[i], lo, hi)
  }

  predicate AllDistinct(s: seq<Elem>)
  {
    forall i :: 0 <= i < |s| ==> DistinctVars(s[i])
  }

  predicate AllTidy(s: seq<Elem>)
  {
    forall i :: 0 <= i < |s| ==> Tidy(s[i])
  }

  predicate AllSettled(s: seq<Elem>)
  {
    forall i :: 0 <= i < |s| ==> Settled(s[i])
  }

  lemma AllInRangeAppend(a: seq<Elem>, b: seq<Elem>, lo: int, hi: int)
    requires AllInRange(a, lo, hi) && AllInRange(b, lo, hi)
    ensures AllInRange(a + b, lo, hi)
  {
    forall i | 0 <= i < |a + b| ensures InRange((a + b)[i], lo, hi) {
      if i >= |a| {
        assert (a + b)[i] == b[i - |a|];
      }
    }
  }

  lemma AllTidyAppend(a: seq<Elem>, b: seq<Elem>)
    requires AllTidy(a) && AllTidy(b)
    ensures AllTidy(a + b)
  {
    forall i | 0 <= i < |a + b| ensures Tidy((a + b)[i]) {
      if i >= |a| {
        assert (a + b)[i] == b[i - |a|];
      }
    }
  }

  /** Canonicalisation keeps a list within its variable range. */
  lemma CanonicalInRange(s: seq<Elem>, lo: int, hi: int)
    requires AllInRange(s, lo, hi)
    ensures AllInRange(Canonical(s), lo, hi)
  {
    var P := (e: Elem) => InRange(e, lo, hi);
    forall i | 0 <= i < |s| ensures P(ElemSort(s[i])) {
      SortKeepsShape(s[i], lo, hi);
    }
    CanonicalKeeps(P, s);
  }

  /** Canonicalisation keeps freed slots at 0. */
  lemma CanonicalTidy(s: seq<Elem>)
    requires AllTidy(s)
    ensures AllTidy(Canonical(s))
  {
    var P := (e: Elem) => Tidy(e);
    forall i | 0 <= i < |s| ensures P(ElemSort(s[i])) {
      SortKeepsShape(s[i], 0, 0);
    }
    CanonicalKeeps(P, s);
  }

  // ---------------------------------------------------------------------
  // Uniqueness of the canonical form

  /** Two canonical lists of tidy terms with the same OR per signature are
      equal: the canonical form is determined by its content. */
  lemma {:induction false} CanonicalUnique(x: seq<Elem>, y: seq<Elem>)
    requires StrictlySorted(x) && NoZero(x) && AllTidy(x)
    requires StrictlySorted(y) && NoZero(y) && AllTidy(y)
    requires forall k :: OrKey(x, k) == OrKey(y, k)
    ensures x == y
  {
    if x == [] && y == [] {
      return;
    }
    if x == [] || y == [] {
      var z := if x == [] then y else x;
      StrictOrKey(z, KeyOf(z[0]));
      return;
    }
    var kx, ky := KeyOf(x[0]), KeyOf(y[0]);
    StrictOrKey(x, kx);
    StrictOrKey(y, ky);
    StrictOrKey(x, ky);
    StrictOrKey(y, kx);
    KeyLessOrder(kx, ky, kx);
    TidyDeterminedByKey(x[0], y[0]);
    var xt, yt := x[1..], y[1..];
    forall k ensures OrKey(xt, k) == OrKey(yt, k) {
      if k == kx {
        forall i | 0 <= i < |xt| ensures KeyOf(xt[i]) != k {
          assert xt[i] == x[i + 1];
          KeyLessOrder(kx, KeyOf(x[i + 1]), kx);
        }
        forall i | 0 <= i < |yt| ensures KeyOf(yt[i]) != k {
          assert yt[i] == y[i + 1];
          KeyLessOrder(ky, KeyOf(y[i + 1]), ky);
        }
        OrKeyAbsent(xt, k);
        OrKeyAbsent(yt, k);
      } else {
        assert OrKey(x, k) == Contrib(x[0], k) | OrKey(xt, k);
        assert OrKey(y, k) == Contrib(y[0], k) | OrKey(yt, k);
      }
    }
    assert StrictlySorted(xt) && StrictlySorted(yt) by {
      forall i, j | 0 <= i < j < |xt| ensures KeyLess(KeyOf(xt[i]), KeyOf(xt[j])) {
        assert xt[i] == x[i + 1] && xt[j] == x[j + 1];
      }
      forall i, j | 0 <= i < j < |yt| ensures KeyLess(KeyOf(yt[i]), KeyOf(yt[j])) {
        assert yt[i] == y[i + 1] && yt[j] == y[j + 1];
      }
    }
    CanonicalUnique(xt, yt);
    assert x == [x[0]] + xt && y == [y[0]] + yt;
  }

  // ---------------------------------------------------------------------
  // HEAD::expand (hpsudoku_head.cpp:54-63)

  /** Every term expanded under `v`. */
  function ExpandEach(s: seq<Elem>, v: int): (r: seq<Elem>)
    ensures |r| == |s|
    ensures forall i :: 0 <= i < |s| ==> r[i] == Expand(s[i], v)
  {
    if s == [] then [] else [Expand(s[0], v)] + ExpandEach(s[1..], v)
  }

  /** HEAD::expand: expand every term, then canonicalise. */
  function ExpandList(s: seq<Elem>, v: int): seq<Elem>
  {
    Canonical(ExpandEach(s, v))
  }

  /** After expanding a list whose terms name distinct variables, no term
      mentions `v` or `-v`, and the terms still name distinct variables. */
  lemma ExpandListEliminates(s: seq<Elem>, v: int)
    requires AllDistinct(s)
    ensures forall i :: 0 <= i < |ExpandList(s, v)| ==>
      v !in Live(ExpandList(s, v)[i]) && -v !in Live(ExpandList(s, v)[i]) &&
      DistinctVars(ExpandList(s, v)[i])
  {
    var P := (e: Elem) => DistinctVars(e) && v !in Live(e) && -v !in Live(e);
    var t := ExpandEach(s, v);
    forall i | 0 <= i < |t| ensures P(ElemSort(t[i])) {
      ExpandEliminates(s[i], v);
      SortDistinct(t[i]);
    }
    CanonicalKeeps(P, t);
  }

  /** No term of `s` mentions the variable of literal `l`, in either sign. */
  predicate Absent(s: seq<Elem>, l: int)
  {
    forall i :: 0 <= i < |s| ==> l !in Live(s[i]) && -l !in Live(s[i])
  }

  /** Expanding never brings back a variable that no term mentions. */
  lemma ExpandListKeepsAbsent(s: seq<Elem>, v: int, l: int)
    requires AllDistinct(s) && Absent(s, l)
    ensures Absent(ExpandList(s, v), l)
  {
    var P := (e: Elem) => l !in Live(e) && -l !in Live(e);
    var t := ExpandEach(s, v);
    forall i | 0 <= i < |t| ensures P(ElemSort(t[i])) {
      ExpandEliminates(s[i], v);
      SortDistinct(t[i]);
    }
    CanonicalKeeps(P, t);
  }

  /** Expanding twice by the same literal is expanding once. */
  lemma ExpandListIdempotent(s: seq<Elem>, v: int)
    requires AllDistinct(s)
    ensures ExpandList(ExpandList(s, v), v) == ExpandList(s, v)
  {
    var t := ExpandEach(s, v);
    var c := ExpandList(s, v);
    forall i | 0 <= i < |t| ensures DistinctVars(t[i]) {
      ExpandEliminates(s[i], v);
    }
    ExpandListEliminates(s, v);
    assert ExpandEach(c, v) == c;
    CanonicalSettled(t);
    CanonicalStrict(t);
    CanonicalOfCanonical(c);
  }

  /** Expanding by a literal of the lowest variable of the range removes that
      variable from the range; by one of the highest, that one. */
  lemma ExpandListInRange(s: seq<Elem>, v: int, lo: int, hi: int)
    requires AllInRange(s, lo, hi)
    ensures AllInRange(ExpandList(s, v), lo, hi)
    ensures Abs(v) == lo ==> AllInRange(ExpandList(s, v), lo + 1, hi)
    ensures Abs(v) == hi - 1 ==> AllInRange(ExpandList(s, v), lo, hi - 1)
  {
    var t := ExpandEach(s, v);
    var lo', hi' := if Abs(v) == lo then lo + 1 else lo, if Abs(v) == hi - 1 && Abs(v) != lo then hi - 1 else hi;
    forall i | 0 <= i < |t| ensures InRange(t[i], lo, hi) {
      ExpandNarrows(s[i], v, lo, hi);
    }
    CanonicalInRange(t, lo, hi);
    if Abs(v) == lo {
      forall i | 0 <= i < |t| ensures InRange(t[i], lo + 1, hi) {
        ExpandNarrows(s[i], v, lo, hi);
      }
      CanonicalInRange(t, lo + 1, hi);
    }
    if Abs(v) == hi - 1 {
      forall i | 0 <= i < |t| ensures InRange(t[i], lo, hi - 1) {
        ExpandNarrows(s[i], v, lo, hi);
      }
      CanonicalInRange(t, lo, hi - 1);
    }
  }

  // ---------------------------------------------------------------------
  // HEAD::operator+= (hpsudoku_head.cpp:81-90), operator+ (hpsudoku.h:147-151)

  /** `s += other`: copies of other's terms appended, then canonicalised. */
  function AddList(s: seq<Elem>, other: seq<Elem>): seq<Elem>
  {
    Canonical(s + SortEach(other))
  }

  /** The sum keeps every signature's OR of both operands. */
  lemma AddListOr(s: seq<Elem>, other: seq<Elem>, k: Key)
    requires AllSettled(s) && AllSettled(other)
    ensures OrKey(AddList(s, other), k) == OrKey(s, k) | OrKey(other, k)
  {
    assert SortEach(other) == other;
    assert SortEach(s + other) == s + other;
    CanonicalOr(s + other, k);
    OrKeyAppend(s, other, k);
  }

  // ---------------------------------------------------------------------
  // HEAD::operator*= (hpsudoku_head.cpp:92-109), operator* (hpsudoku.h:165-169)

  /** The products of `p1` with every term of `other`, in order. */
  function Row(p1: Elem, other: seq<Elem>): (r: seq<Elem>)
    ensures |r| == |other|
    ensures forall j :: 0 <= j < |other| ==> r[j] == Product(p1, other[j])
  {
    if other == [] then [] else [Product(p1, other[0])] + Row(p1, other[1..])
  }

  /** The row of `b + [x]` is the row of `b` followed by one more product. */
  lemma {:induction false} RowSnoc(p1: Elem, b: seq<Elem>, x: Elem)
    ensures Row(p1, b + [x]) == Row(p1, b) + [Product(p1, x)]
  {
    if b != [] {
      assert (b + [x])[1..] == b[1..] + [x];
      RowSnoc(p1, b[1..], x);
    }
  }

  /** The row of a prefix one longer has one more product. */
  lemma RowPrefix(p1: Elem, b: seq<Elem>, j: nat)
    requires j < |b|
    ensures Row(p1, b[..j + 1]) == Row(p1, b[..j]) + [Product(p1, b[j])]
  {
    assert b[..j + 1] == b[..j] + [b[j]];
    RowSnoc(p1, b[..j], b[j]);
  }

  /** Every pairwise product, row by row. */
  function AllProducts(a: seq<Elem>, b: seq<Elem>): seq<Elem>
  {
    if a == [] then [] else Row(a[0], b) + AllProducts(a[1..], b)
  }

  /** The outer loop of operator*=: each row is appended to `acc` and `acc`
      is canonicalised. */
  function MulRows(a: seq<Elem>, b: seq<Elem>, acc: seq<Elem>): seq<Elem>
  {
    if a == [] then acc else MulRows(a[1..], b, Canonical(acc + Row(a[0], b)))
  }

  /** One row of the outer loop. */
  lemma MulRowsStep(a: seq<Elem>, b: seq<Elem>, acc: seq<Elem>)
    requires a != []
    ensures MulRows(a, b, acc) == MulRows(a[1..], b, Canonical(acc + Row(a[0], b)))
  {
  }

  /** `a *= b`: the rows accumulated into an empty list, moved into `a`. */
  function MulList(a: seq<Elem>, b: seq<Elem>): seq<Elem>
  {
    MulRows(a, b, [])
  }

  lemma RowSettled(p1: Elem, b: seq<Elem>)
    ensures AllSettled(Row(p1, b)) && AllDistinct(Row(p1, b))
  {
    forall j | 0 <= j < |b| ensures Settled(Row(p1, b)[j]) && DistinctVars(Row(p1, b)[j]) {
      ProductShape(p1, b[j]);
    }
  }

  lemma {:induction false} AllProductsSettled(a: seq<Elem>, b: seq<Elem>)
    ensures AllSettled(AllProducts(a, b))
  {
    if a != [] {
      RowSettled(a[0], b);
      AllProductsSettled(a[1..], b);
    }
  }

  lemma CanonicalOfSettled(s: seq<Elem>)
    requires AllSettled(s)
    ensures AllSettled(Canonical(s))
  {
    var P := (e: Elem) => Settled(e);
    forall e: Elem, v: bv8 | P(e) ensures P(e.(value := v)) {
      SettledValue(e, v);
    }
    CanonicalKeeps(P, s);
  }

  lemma AllSettledAppend(a: seq<Elem>, b: seq<Elem>)
    requires AllSettled(a) && AllSettled(b)
    ensures AllSettled(a + b) && SortEach(a + b) == a + b
  {
    forall i | 0 <= i < |a + b| ensures Settled((a + b)[i]) {
      if i >= |a| {
        assert (a + b)[i] == b[i - |a|];
      }
    }
  }

  lemma {:induction false} MulRowsOr(a: seq<Elem>, b: seq<Elem>, acc: seq<Elem>, k: Key)
    requires AllSettled(acc)
    ensures OrKey(MulRows(a, b, acc), k) == OrKey(acc, k) | OrKey(AllProducts(a, b), k)
  {
    if a != [] {
      var row := Row(a[0], b);
      RowSettled(a[0], b);
      AllSettledAppend(acc, row);
      var acc' := Canonical(acc + row);
      CanonicalOfSettled(acc + row);
      CanonicalOr(acc + row, k);
      OrKeyAppend(acc, row, k);
      MulRowsOr(a[1..], b, acc', k);
      OrKeyAppend(row, AllProducts(a[1..], b), k);
    }
  }

  /** `a *= b` holds, per signature, the OR of all pairwise products. */
  lemma MulListOr(a: seq<Elem>, b: seq<Elem>, k: Key)
    ensures OrKey(MulList(a, b), k) == OrKey(AllProducts(a, b), k)
  {
    MulRowsOr(a, b, [], k);
  }

  /** `a *= b` is canonical. */
  lemma MulListCanonical(a: seq<Elem>, b: seq<Elem>)
    ensures StrictlySorted(MulList(a, b)) && NoZero(MulList(a, b))
  {
    MulRowsCanonical(a, b, []);
  }

  /** `a *= b` is empty when either operand is. */
  lemma MulListEmpty(a: seq<Elem>, b: seq<Elem>)
    requires a == [] || b == []
    ensures MulList(a, b) == []
  {
    if a != [] {
      MulRowsEmpty(a, []);
    }
  }

  lemma {:induction false} MulRowsCanonical(a: seq<Elem>, b: seq<Elem>, acc: seq<Elem>)
    requires StrictlySorted(acc) && NoZero(acc)
    ensures StrictlySorted(MulRows(a, b, acc)) && NoZero(MulRows(a, b, acc))
  {
    if a != [] {
      CanonicalStrict(acc + Row(a[0], b));
      MulRowsCanonical(a[1..], b, Canonical(acc + Row(a[0], b)));
    }
  }

  lemma {:induction false} MulRowsEmpty(a: seq<Elem>, acc: seq<Elem>)
    requires acc == []
    ensures MulRows(a, [], acc) == []
  {
    if a != [] {
      assert acc + Row(a[0], []) == [];
      CanonicalShrinks([]);
      MulRowsEmpty(a[1..], []);
    }
  }

  lemma ProductTidy(p1: Elem, p2: Elem)
    requires Tidy(p1) && Tidy(p2)
    ensures Tidy(Product(p1, p2))
  {
    var a := Copy(p2);
    SortKeepsShape(p2, 0, 0);
    var s1 := if p1.nvar >= 1 then Absorb(a, p1.var0) else (a, false);
    assert Tidy(s1.0);
    var s2 := AbsorbAll(a, p1);
    assert Tidy(s2.0);
    SortKeepsShape(TimesRaw(a, p1), 0, 0);
    SortKeepsShape(Times(a, p1), 0, 0);
  }

  lemma {:induction false} AllProductsTidy(a: seq<Elem>, b: seq<Elem>)
    requires AllTidy(a) && AllTidy(b)
    ensures AllTidy(AllProducts(a, b))
  {
    if a != [] {
      forall j | 0 <= j < |b| ensures Tidy(Row(a[0], b)[j]) {
        ProductTidy(a[0], b[j]);
      }
      AllProductsTidy(a[1..], b);
      AllTidyAppend(Row(a[0], b), AllProducts(a[1..], b));
    }
  }

  lemma {:induction false} MulRowsTidy(a: seq<Elem>, b: seq<Elem>, acc: seq<Elem>)
    requires AllTidy(a) && AllTidy(b) && AllTidy(acc)
    ensures AllTidy(MulRows(a, b, acc))
  {
    if a != [] {
      forall j | 0 <= j < |b| ensures Tidy(Row(a[0], b)[j]) {
        ProductTidy(a[0], b[j]);
      }
      AllTidyAppend(acc, Row(a[0], b));
      CanonicalTidy(acc + Row(a[0], b));
      MulRowsTidy(a[1..], b, Canonical(acc + Row(a[0], b)));
    }
  }

  /** For tidy operands, `a *= b` is exactly the canonical form of all
      pairwise products: canonicalising row by row changes nothing. */
  lemma MulListIsCanonicalProducts(a: seq<Elem>, b: seq<Elem>)
    requires AllTidy(a) && AllTidy(b)
    ensures MulList(a, b) == Canonical(AllProducts(a, b))
  {
    var p := AllProducts(a, b);
    MulListCanonical(a, b);
    CanonicalStrict(p);
    MulRowsTidy(a, b, []);
    AllProductsTidy(a, b);
    CanonicalTidy(p);
    AllProductsSettled(a, b);
    assert SortEach(p) == p;
    forall k ensures OrKey(MulList(a, b), k) == OrKey(Canonical(p), k) {
      MulListOr(a, b, k);
      CanonicalOr(p, k);
    }
    CanonicalUnique(MulList(a, b), Canonical(p));
  }

  lemma {:induction false} MulRowsInRange(a: seq<Elem>, b: seq<Elem>, acc: seq<Elem>, lo: int, hi: int)
    requires AllInRange(a, lo, hi) && AllInRange(b, lo, hi) && AllInRange(acc, lo, hi)
    ensures AllInRange(MulRows(a, b, acc), lo, hi)
  {
    if a != [] {
      var row := Row(a[0], b);
      forall j | 0 <= j < |b| ensures InRange(row[j], lo, hi) {
        ProductInRange(a[0], b[j], lo, hi);
      }
      AllInRangeAppend(acc, row, lo, hi);
      CanonicalInRange(acc + row, lo, hi);
      MulRowsInRange(a[1..], b, Canonical(acc + row), lo, hi);
    }
  }

  /** A product of lists within a variable range stays within it. */
  lemma MulListInRange(a: seq<Elem>, b: seq<Elem>, lo: int, hi: int)
    requires AllInRange(a, lo, hi) && AllInRange(b, lo, hi)
    ensures AllInRange(MulList(a, b), lo, hi)
  {
    MulRowsInRange(a, b, [], lo, hi);
  }

  lemma SortEachInRange(s: seq<Elem>, lo: int, hi: int)
    requires AllInRange(s, lo, hi)
    ensures AllInRange(SortEach(s), lo, hi)
  {
    forall i | 0 <= i < |s| ensures InRange(SortEach(s)[i], lo, hi) {
      SortKeepsShape(s[i], lo, hi);
    }
  }

  // ---------------------------------------------------------------------
  // HEAD::value (hpsudoku.h:210-216)

  /** The first term's coefficient when it has no literals, otherwise 0. */
  function ListValue(s: seq<Elem>): (r: bv8)
    ensures r != 0 ==> s != [] && s[0].nvar == 0 && r == s[0].value
    ensures s == [] || s[0].nvar != 0 ==> r == 0
  {
    if s == [] || s[0].nvar != 0 then 0 else s[0].value
  }

  /** A canonical list without literals has at most one term, and its value
      is 0 exactly when it is empty. */
  lemma ResidualValue(s: seq<Elem>, lo: int)
    requires StrictlySorted(s) && NoZero(s) && AllInRange(s, lo, lo)
    ensures |s| <= 1
    ensures forall i :: 0 <= i < |s| ==> s[i].nvar == 0
    ensures ListValue(s) == 0 <==> s == []
  {
    forall i | 0 <= i < |s| ensures s[i].nvar == 0 {
      LiveSize(s[i]);
    }
    assert |s| > 1 ==> KeyLess(KeyOf(s[0]), KeyOf(s[1]));
  }

  // ---------------------------------------------------------------------
  // HEAD::compare (hpsudoku_head.cpp:176-190)

  /** Lexicographic comparison of two lists by ELEM::compare with CMP_BOTH;
      a proper prefix compares below. */
  function ListCompare(a: seq<Elem>, b: seq<Elem>): (r: int)
    ensures -1 <= r <= 1
  {
    if a == [] || b == [] then
      (if a != [] then 1 else 0) - (if b != [] then 1 else 0)
    else if Compare(a[0], b[0], CmpBoth) != 0 then
      Compare(a[0], b[0], CmpBoth)
    else
      ListCompare(a[1..], b[1..])
  }

  /** The list order is antisymmetric, and two lists compare equal exactly
      when they have the same length and equal signatures and coefficients
      position by position. */
  lemma {:induction false} ListCompareOrder(a: seq<Elem>, b: seq<Elem>)
    ensures ListCompare(a, b) == -ListCompare(b, a)
    ensures ListCompare(a, b) == 0 <==>
      |a| == |b| &&
      forall i :: 0 <= i < |a| ==> KeyOf(a[i]) == KeyOf(b[i]) && a[i].value == b[i].value
  {
    if a != [] && b != [] {
      CompareAntisymmetric(a[0], b[0], CmpBoth);
      CompareBoth(a[0], b[0]);
      ListCompareOrder(a[1..], b[1..]);
      if Compare(a[0], b[0], CmpBoth) == 0 && |a| == |b| {
        assert forall i :: 1 <= i < |a| ==> a[i] == a[1..][i - 1] && b[i] == b[1..][i - 1];
      }
    }
  }
}
