/**
 * The value semantics of the formula, the HEAD list of terms
 * (hpsudoku.h, hpsudoku_head.cpp): what each list operation computes, as a
 * function of the old list, and the properties proved about it. The class
 * that updates a list in place is in module Heads.
 */
module Formulas {
  import opened Terms

  // ---------------------------------------------------------------------
  // Copying and per-term sorting

  /** Every term passed through ELEM::sort: what the first loop of HEAD::sort
      does in place, and what copying a list (the HEAD copy constructor,
      operator=, operator+=) produces, since an ELEM copy sorts itself. */
  function SortEach(s: seq<Elem>): (r: seq<Elem>)
    ensures |r| == |s|
    ensures forall i :: 0 <= i < |s| ==> r[i] == ElemSort(s[i])
  {
    if s == [] then [] else [ElemSort(s[0])] + SortEach(s[1..])
  }

  lemma SortEachAppend(a: seq<Elem>, b: seq<Elem>)
    ensures SortEach(a + b) == SortEach(a) + SortEach(b)
  {
    var l, r := SortEach(a + b), SortEach(a) + SortEach(b);
    assert |l| == |r|;
    forall i | 0 <= i < |l| ensures l[i] == r[i] {
      if i < |a| {
        assert (a + b)[i] == a[i];
      } else {
        assert (a + b)[i] == b[i - |a|];
      }
    }
  }

  /** A term that ELEM::sort leaves alone. */
  predicate Settled(e: Elem)
  {
    ElemSort(e) == e
  }

  lemma SettledValue(e: Elem, v: bv8)
    requires Settled(e)
    ensures Settled(e.(value := v))
  {
  }

  // ---------------------------------------------------------------------
  // Orders on lists

  /** Non-decreasing under compare(..., CMP_VAR). */
  predicate Sorted(s: seq<Elem>)
  {
    forall i, j :: 0 <= i < j < |s| ==> !KeyLess(KeyOf(s[j]), KeyOf(s[i]))
  }

  /** Strictly increasing under compare(..., CMP_VAR): no signature twice. */
  predicate StrictlySorted(s: seq<Elem>)
  {
    forall i, j :: 0 <= i < j < |s| ==> KeyLess(KeyOf(s[i]), KeyOf(s[j]))
  }

  predicate NoZero(s: seq<Elem>)
  {
    forall i :: 0 <= i < |s| ==> s[i].value != 0
  }

  /** The OR of the coefficients of the terms of `s` with signature `k`: the
      coefficient the canonical form gives that signature. */
  function OrKey(s: seq<Elem>, k: Key): bv8
  {
    if s == [] then 0 else Contrib(s[0], k) | OrKey(s[1..], k)
  }

  /** The coefficient a term contributes to signature `k`. */
  function Contrib(e: Elem, k: Key): bv8
  {
    if KeyOf(e) == k then e.value else 0
  }

  lemma {:induction false} OrKeyAppend(a: seq<Elem>, b: seq<Elem>, k: Key)
    ensures OrKey(a + b, k) == OrKey(a, k) | OrKey(b, k)
  {
    if a == [] {
      assert a + b == b;
    } else {
      assert (a + b)[1..] == a[1..] + b;
      OrKeyAppend(a[1..], b, k);
    }
  }

  /** A signature no term of `s` has contributes nothing. */
  lemma {:induction false} OrKeyAbsent(s: seq<Elem>, k: Key)
    requires forall i :: 0 <= i < |s| ==> KeyOf(s[i]) != k
    ensures OrKey(s, k) == 0
  {
    if s != [] {
      OrKeyAbsent(s[1..], k);
    }
  }

  // ---------------------------------------------------------------------
  // Stable sort by signature: stands for the libc mergesort call

  /** Inserts `e` after every term whose signature is not greater. */
  function Insert(e: Elem, s: seq<Elem>): (r: seq<Elem>)
    ensures |r| == |s| + 1
    ensures multiset(r) == multiset(s) + multiset{e}
  {
    if s == [] then [e]
    else if KeyLess(KeyOf(e), KeyOf(s[0])) then [e] + s
    else
      assert s == [s[0]] + s[1..];
      [s[0]] + Insert(e, s[1..])
  }

  /** Stable insertion sort by signature. */
  function SortByKey(s: seq<Elem>): (r: seq<Elem>)
    ensures |r| == |s|
    ensures multiset(r) == multiset(s)
  {
    if s == [] then []
    else
      assert s == s[..|s| - 1] + [s[|s| - 1]];
      Insert(s[|s| - 1], SortByKey(s[..|s| - 1]))
  }

  lemma {:induction false} InsertSorted(e: Elem, s: seq<Elem>)
    requires Sorted(s)
    ensures Sorted(Insert(e, s))
  {
    if s != [] && !KeyLess(KeyOf(e), KeyOf(s[0])) {
      InsertSorted(e, s[1..]);
      var r := Insert(e, s[1..]);
      forall j | 0 <= j < |r| ensures !KeyLess(KeyOf(r[j]), KeyOf(s[0])) {
        assert r[j] in multiset(r);
        if r[j] != e {
          assert r[j] in multiset(s[1..]);
          var m :| 0 <= m < |s[1..]| && s[1..][m] == r[j];
          assert s[1 + m] == r[j];
        }
      }
    }
  }

  /** The sort stand-in returns a sorted permutation of its input. */
  lemma {:induction false} SortByKeySorted(s: seq<Elem>)
    ensures Sorted(SortByKey(s))
    ensures multiset(SortByKey(s)) == multiset(s)
  {
    if s != [] {
      SortByKeySorted(s[..|s| - 1]);
      InsertSorted(s[|s| - 1], SortByKey(s[..|s| - 1]));
    }
  }

  /** A sorted list is its own sorted form. */
  lemma {:induction false} SortByKeyOfSorted(s: seq<Elem>)
    requires Sorted(s)
    ensures SortByKey(s) == s
  {
    if s != [] {
      var init := s[..|s| - 1];
      SortByKeyOfSorted(init);
      InsertAtEnd(s[|s| - 1], init);
      assert init + [s[|s| - 1]] == s;
    }
  }

  lemma {:induction false} InsertAtEnd(e: Elem, s: seq<Elem>)
    requires forall i :: 0 <= i < |s| ==> !KeyLess(KeyOf(e), KeyOf(s[i]))
    ensures Insert(e, s) == s + [e]
  {
    if s != [] {
      InsertAtEnd(e, s[1..]);
      assert [s[0]] + (s[1..] + [e]) == s + [e];
    }
  }

  lemma {:induction false} OrKeyInsert(e: Elem, s: seq<Elem>, k: Key)
    ensures OrKey(Insert(e, s), k) == OrKey([e] + s, k)
  {
    if s != [] && !KeyLess(KeyOf(e), KeyOf(s[0])) {
      OrKeyInsert(e, s[1..], k);
      assert ([s[0]] + Insert(e, s[1..]))[1..] == Insert(e, s[1..]);
      assert ([e] + s)[1..] == s;
      assert ([e] + s[1..])[1..] == s[1..];
    }
  }

  /** Sorting keeps each signature's OR. */
  lemma {:induction false} OrKeySort(s: seq<Elem>, k: Key)
    ensures OrKey(SortByKey(s), k) == OrKey(s, k)
  {
    if s != [] {
      var init := s[..|s| - 1];
      OrKeySort(init, k);
      OrKeyInsert(s[|s| - 1], SortByKey(init), k);
      assert ([s[|s| - 1]] + SortByKey(init))[1..] == SortByKey(init);
      OrKeyAppend(init, [s[|s| - 1]], k);
      assert init + [s[|s| - 1]] == s;
    }
  }

  // ---------------------------------------------------------------------
  // Merging runs of equal signature (hpsudoku_head.cpp:155-169)

  /** `e` if its coefficient is non-zero, otherwise nothing. */
  function Keep(e: Elem): seq<Elem>
  {
    if e.value != 0 then [e] else []
  }

  /** The merge loop: `carry` is array[n]; a successor with the same
      signature absorbs carry's coefficient by OR, otherwise carry is kept
      when non-zero. */
  function Merge(carry: Elem, rest: seq<Elem>): seq<Elem>
    decreases |rest|
  {
    if rest == [] then Keep(carry)
    else if KeyOf(rest[0]) == KeyOf(carry) then
      Merge(rest[0].(value := rest[0].value | carry.value), rest[1..])
    else
      Keep(carry) + Merge(rest[0], rest[1..])
  }

  /** One step of the merge loop. */
  lemma MergeUnfold(carry: Elem, rest: seq<Elem>)
    requires rest != []
    ensures KeyOf(rest[0]) == KeyOf(carry) ==>
      Merge(carry, rest) == Merge(rest[0].(value := rest[0].value | carry.value), rest[1..])
    ensures KeyOf(rest[0]) != KeyOf(carry) ==>
      Merge(carry, rest) == Keep(carry) + Merge(rest[0], rest[1..])
  {
  }

  lemma OrKeyCons(e: Elem, s: seq<Elem>, k: Key)
    ensures OrKey([e] + s, k) == (if KeyOf(e) == k then e.value else 0) | OrKey(s, k)
  {
    assert ([e] + s)[1..] == s;
  }

  lemma OrKeyKeep(e: Elem, k: Key)
    ensures OrKey(Keep(e), k) == Contrib(e, k)
  {
  }

  lemma {:induction false} MergeOr(carry: Elem, rest: seq<Elem>, k: Key)
    ensures OrKey(Merge(carry, rest), k) == Contrib(carry, k) | OrKey(rest, k)
    decreases |rest|
  {
    if rest == [] {
      OrKeyKeep(carry, k);
    } else if KeyOf(rest[0]) == KeyOf(carry) {
      var c := rest[0].(value := rest[0].value | carry.value);
      MergeOr(c, rest[1..], k);
      MergeOrSame(carry, rest, k);
    } else {
      MergeOr(rest[0], rest[1..], k);
      MergeOrDiff(carry, rest, k);
    }
  }

  lemma MergeOrSame(carry: Elem, rest: seq<Elem>, k: Key)
    requires rest != [] && KeyOf(rest[0]) == KeyOf(carry)
    requires OrKey(Merge(rest[0].(value := rest[0].value | carry.value), rest[1..]), k)
      == Contrib(rest[0].(value := rest[0].value | carry.value), k) | OrKey(rest[1..], k)
    ensures OrKey(Merge(carry, rest), k) == Contrib(carry, k) | OrKey(rest, k)
  {
    MergeSameStep(carry, rest, k);
    ContribAbsorb(carry, rest, k);
  }

  lemma MergeSameStep(carry: Elem, rest: seq<Elem>, k: Key)
    requires rest != [] && KeyOf(rest[0]) == KeyOf(carry)
    ensures OrKey(Merge(carry, rest), k)
      == OrKey(Merge(rest[0].(value := rest[0].value | carry.value), rest[1..]), k)
  {
  }

  lemma ContribAbsorb(carry: Elem, rest: seq<Elem>, k: Key)
    requires rest != [] && KeyOf(rest[0]) == KeyOf(carry)
    ensures Contrib(rest[0].(value := rest[0].value | carry.value), k) | OrKey(rest[1..], k)
      == Contrib(carry, k) | OrKey(rest, k)
  {
    if KeyOf(carry) == k {
      OrAssoc(rest[0].value, carry.value, OrKey(rest[1..], k));
    }
  }

  lemma MergeOrDiff(carry: Elem, rest: seq<Elem>, k: Key)
    requires rest != [] && KeyOf(rest[0]) != KeyOf(carry)
    requires OrKey(Merge(rest[0], rest[1..]), k) == Contrib(rest[0], k) | OrKey(rest[1..], k)
    ensures OrKey(Merge(carry, rest), k) == Contrib(carry, k) | OrKey(rest, k)
  {
    OrKeyAppend(Keep(carry), Merge(rest[0], rest[1..]), k);
    OrKeyKeep(carry, k);
  }

  lemma OrAssoc(a: bv8, b: bv8, c: bv8)
    ensures (a | b) | c == b | (a | c)
  {
  }

  lemma {:induction false} MergeLength(carry: Elem, rest: seq<Elem>)
    ensures |Merge(carry, rest)| <= |rest| + 1
    decreases |rest|
  {
    if rest != [] {
      if KeyOf(rest[0]) == KeyOf(carry) {
        MergeLength(rest[0].(value := rest[0].value | carry.value), rest[1..]);
      } else {
        MergeLength(rest[0], rest[1..]);
      }
    }
  }

  /** Merging a sorted list gives a strictly sorted list without zero
      coefficients, none of whose signatures is below carry's. */
  lemma {:induction false} MergeStrict(carry: Elem, rest: seq<Elem>)
    requires Sorted([carry] + rest)
    ensures StrictlySorted(Merge(carry, rest)) && NoZero(Merge(carry, rest))
    ensures forall i :: 0 <= i < |Merge(carry, rest)| ==>
      !KeyLess(KeyOf(Merge(carry, rest)[i]), KeyOf(carry))
    decreases |rest|
  {
    if rest == [] {
      KeyLessOrder(KeyOf(carry), KeyOf(carry), KeyOf(carry));
    } else {
      SortedTail(carry, rest);
      if KeyOf(rest[0]) == KeyOf(carry) {
        SortedAbsorb(carry, rest);
        MergeStrict(rest[0].(value := rest[0].value | carry.value), rest[1..]);
      } else {
        MergeStrict(rest[0], rest[1..]);
        KeepStrict(carry, rest[0], Merge(rest[0], rest[1..]));
      }
    }
  }

  /** The tail of a sorted list is sorted, and its head is not below the
      first element. */
  lemma SortedTail(carry: Elem, rest: seq<Elem>)
    requires Sorted([carry] + rest) && rest != []
    ensures Sorted([rest[0]] + rest[1..]) && !KeyLess(KeyOf(rest[0]), KeyOf(carry))
  {
    var s := [carry] + rest;
    assert rest[0] == s[1] && carry == s[0];
    assert !KeyLess(KeyOf(s[1]), KeyOf(s[0]));
    assert [rest[0]] + rest[1..] == s[1..];
    forall i, j | 0 <= i < j < |s[1..]| ensures !KeyLess(KeyOf(s[1..][j]), KeyOf(s[1..][i])) {
      assert s[1..][j] == s[j + 1] && s[1..][i] == s[i + 1];
    }
  }

  /** Absorbing the first element into a successor of the same signature
      keeps the list sorted. */
  lemma SortedAbsorb(carry: Elem, rest: seq<Elem>)
    requires Sorted([carry] + rest) && rest != [] && KeyOf(rest[0]) == KeyOf(carry)
    ensures Sorted([rest[0].(value := rest[0].value | carry.value)] + rest[1..])
  {
    var s := [carry] + rest;
    var c := rest[0].(value := rest[0].value | carry.value);
    assert KeyOf(c) == KeyOf(s[0]);
    forall i, j | 0 <= i < j < |[c] + rest[1..]|
      ensures !KeyLess(KeyOf(([c] + rest[1..])[j]), KeyOf(([c] + rest[1..])[i]))
    {
      assert ([c] + rest[1..])[j] == s[j + 1];
      if i > 0 {
        assert ([c] + rest[1..])[i] == s[i + 1];
      } else {
        assert !KeyLess(KeyOf(s[j + 1]), KeyOf(s[0]));
      }
    }
  }

  /** Keeping a term whose signature is below all of a strictly sorted
      list's keeps it strictly sorted. */
  lemma KeepStrict(carry: Elem, next: Elem, m: seq<Elem>)
    requires !KeyLess(KeyOf(next), KeyOf(carry)) && KeyOf(next) != KeyOf(carry)
    requires StrictlySorted(m) && NoZero(m)
    requires forall i :: 0 <= i < |m| ==> !KeyLess(KeyOf(m[i]), KeyOf(next))
    ensures StrictlySorted(Keep(carry) + m) && NoZero(Keep(carry) + m)
    ensures forall i :: 0 <= i < |Keep(carry) + m| ==> !KeyLess(KeyOf((Keep(carry) + m)[i]), KeyOf(carry))
  {
    KeyLessOrder(KeyOf(carry), KeyOf(next), KeyOf(carry));
    forall j | 0 <= j < |m| ensures KeyLess(KeyOf(carry), KeyOf(m[j])) {
      KeyLessOrder(KeyOf(carry), KeyOf(next), KeyOf(m[j]));
      KeyLessOrder(KeyOf(next), KeyOf(m[j]), KeyOf(carry));
    }
    forall j | 0 <= j < |m| ensures !KeyLess(KeyOf(m[j]), KeyOf(carry)) {
      KeyLessOrder(KeyOf(carry), KeyOf(m[j]), KeyOf(carry));
    }
  }

  /** Merging a strictly sorted list without zero coefficients changes nothing. */
  lemma {:induction false} MergeOfStrict(carry: Elem, rest: seq<Elem>)
    requires StrictlySorted([carry] + rest) && NoZero([carry] + rest)
    ensures Merge(carry, rest) == [carry] + rest
    decreases |rest|
  {
    var s := [carry] + rest;
    if rest != [] {
      assert rest[0] == s[1] && carry == s[0];
      assert KeyOf(rest[0]) != KeyOf(carry) by {
        assert KeyLess(KeyOf(s[0]), KeyOf(s[1]));
        KeyLessOrder(KeyOf(carry), KeyOf(rest[0]), KeyOf(carry));
      }
      assert [rest[0]] + rest[1..] == s[1..];
      assert StrictlySorted(s[1..]) && NoZero(s[1..]) by {
        forall i, j | 0 <= i < j < |s[1..]| ensures KeyLess(KeyOf(s[1..][i]), KeyOf(s[1..][j])) {
          assert s[1..][i] == s[i + 1] && s[1..][j] == s[j + 1];
        }
      }
      MergeOfStrict(rest[0], rest[1..]);
      assert Keep(carry) == [carry];
    }
  }

  /** Every property of a term that does not depend on its coefficient
      survives merging. */
  lemma {:induction false} MergeKeeps(P: Elem -> bool, carry: Elem, rest: seq<Elem>)
    requires forall e: Elem, v: bv8 {:trigger P(e.(value := v))} :: P(e) ==> P(e.(value := v))
    requires P(carry) && forall i :: 0 <= i < |rest| ==> P(rest[i])
    ensures forall i :: 0 <= i < |Merge(carry, rest)| ==> P(Merge(carry, rest)[i])
    decreases |rest|
  {
    if rest != [] {
      if KeyOf(rest[0]) == KeyOf(carry) {
        var c := rest[0].(value := rest[0].value | carry.value);
        assert P(c);
        MergeKeeps(P, c, rest[1..]);
      } else {
        MergeKeeps(P, rest[0], rest[1..]);
      }
    }
  }

  // ---------------------------------------------------------------------
  // HEAD::sort (hpsudoku_head.cpp:131-174)

  /** The canonical form: sort each term, stable-sort by signature, merge runs
      by OR and drop zero coefficients. */
  function Canonical(s: seq<Elem>): seq<Elem>
  {
    var t := SortByKey(SortEach(s));
    if t == [] then [] else Merge(t[0], t[1..])
  }

  /** The canonical form is strictly sorted: no signature occurs twice. */
  lemma CanonicalStrict(s: seq<Elem>)
    ensures StrictlySorted(Canonical(s)) && NoZero(Canonical(s))
  {
    var t := SortByKey(SortEach(s));
    SortByKeySorted(SortEach(s));
    if t != [] {
      assert [t[0]] + t[1..] == t;
      MergeStrict(t[0], t[1..]);
    }
  }

  /** The canonical form keeps, per signature, the OR of the coefficients of
      the per-term-sorted input. */
  lemma CanonicalOr(s: seq<Elem>, k: Key)
    ensures OrKey(Canonical(s), k) == OrKey(SortEach(s), k)
  {
    var t := SortByKey(SortEach(s));
    OrKeySort(SortEach(s), k);
    if t != [] {
      MergeOr(t[0], t[1..], k);
    }
  }

  /** In a strictly sorted list without zeros, a term's coefficient is its
      signature's OR, and a missing signature has OR 0. */
  lemma {:induction false} StrictOrKey(c: seq<Elem>, k: Key)
    requires StrictlySorted(c) && NoZero(c)
    ensures forall i :: 0 <= i < |c| && KeyOf(c[i]) == k ==> c[i].value == OrKey(c, k)
    ensures (forall i :: 0 <= i < |c| ==> KeyOf(c[i]) != k) <==> OrKey(c, k) == 0
  {
    if c != [] {
      StrictOrKey(c[1..], k);
      if KeyOf(c[0]) == k {
        forall i | 1 <= i < |c| ensures KeyOf(c[i]) != k {
          KeyLessOrder(KeyOf(c[0]), KeyOf(c[i]), KeyOf(c[0]));
        }
        OrKeyAbsent(c[1..], k);
      }
      assert forall i :: 1 <= i < |c| ==> c[i] == c[1..][i - 1];
    }
  }

  /** A signature survives canonicalisation iff the OR of the coefficients of
      the per-term-sorted input terms with that signature is non-zero; the
      survivor carries that OR. */
  lemma CanonicalSurvivor(s: seq<Elem>, k: Key)
    ensures (exists i :: 0 <= i < |Canonical(s)| && KeyOf(Canonical(s)[i]) == k)
      <==> OrKey(SortEach(s), k) != 0
    ensures forall i :: 0 <= i < |Canonical(s)| && KeyOf(Canonical(s)[i]) == k ==>
      Canonical(s)[i].value == OrKey(SortEach(s), k)
  {
    CanonicalStrict(s);
    CanonicalOr(s, k);
    StrictOrKey(Canonical(s), k);
  }

  /** Canonicalisation never adds terms and leaves an empty list empty. */
  lemma CanonicalShrinks(s: seq<Elem>)
    ensures |Canonical(s)| <= |s|
    ensures s == [] ==> Canonical(s) == []
  {
    var t := SortByKey(SortEach(s));
    if t != [] {
      MergeLength(t[0], t[1..]);
    }
  }

  /** A list already canonical, whose terms ELEM::sort leaves alone, is its
      own canonical form. */
  lemma CanonicalOfCanonical(s: seq<Elem>)
    requires StrictlySorted(s) && NoZero(s)
    requires forall i :: 0 <= i < |s| ==> Settled(s[i])
    ensures Canonical(s) == s
  {
    assert SortEach(s) == s;
    SortByKeyOfSorted(s);
    if s != [] {
      assert [s[0]] + s[1..] == s;
      MergeOfStrict(s[0], s[1..]);
    }
  }

  /** Every coefficient-independent property that the per-term-sorted input
      has, the canonical form has. */
  lemma CanonicalKeeps(P: Elem -> bool, s: seq<Elem>)
    requires forall e: Elem, v: bv8 {:trigger P(e.(value := v))} :: P(e) ==> P(e.(value := v))
    requires forall i :: 0 <= i < |s| ==> P(ElemSort(s[i]))
    ensures forall i :: 0 <= i < |Canonical(s)| ==> P(Canonical(s)[i])
  {
    var n := SortEach(s);
    var t := SortByKey(n);
    SortByKeySorted(n);
    forall i | 0 <= i < |t| ensures P(t[i]) {
      assert t[i] in multiset(n);
      var j :| 0 <= j < |n| && n[j] == t[i];
    }
    if t != [] {
      MergeKeeps(P, t[0], t[1..]);
    }
  }

  /** Canonicalising a list whose terms name distinct variables yields
      settled terms naming distinct variables. */
  lemma CanonicalSettled(s: seq<Elem>)
    requires forall i :: 0 <= i < |s| ==> DistinctVars(s[i])
    ensures forall i :: 0 <= i < |Canonical(s)| ==>
      Settled(Canonical(s)[i]) && DistinctVars(Canonical(s)[i])
  {
    var P := (e: Elem) => Settled(e) && DistinctVars(e);
    forall e: Elem, v: bv8 | P(e) ensures P(e.(value := v)) {
      SettledValue(e, v);
    }
    forall i | 0 <= i < |s| ensures P(ElemSort(s[i])) {
      SortDistinct(s[i]);
    }
    CanonicalKeeps(P, s);
  }

  /** Canonicalisation is idempotent on lists whose terms name distinct
      variables. */
  lemma CanonicalIdempotent(s: seq<Elem>)
    requires forall i :: 0 <= i < |s| ==> DistinctVars(s[i])
    ensures Canonical(Canonical(s)) == Canonical(s)
  {
    CanonicalSettled(s);
    CanonicalStrict(s);
    CanonicalOfCanonical(Canonical(s));
  }

  /** Without that condition it is not: the raw term (1, -1) is only swapped
      by the first pass and zeroed by the second. */
  lemma CanonicalNotIdempotent()
    ensures Canonical([Elem(1, 2, 1, -1)]) == [Elem(1, 2, -1, 1)]
    ensures Canonical(Canonical([Elem(1, 2, 1, -1)])) == []
  {
    assert SortEach([Elem(1, 2, 1, -1)]) == [Elem(1, 2, -1, 1)];
    assert SortEach([Elem(1, 2, -1, 1)]) == [Zero];
  }
}
