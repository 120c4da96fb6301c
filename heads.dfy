/**
 * HEAD (hpsudoku.h, hpsudoku_head.cpp): a singly linked tail queue of ELEM
 * terms, modelled as a class whose list is a sequence field. Every method
 * is proved equal to the list function of module Algebra or Formulas that
 * describes it; the properties of those functions are proved there.
 */
module Heads {
  import opened Wrappers
  import opened Terms
  import opened Formulas
  import opened Algebra

  /** The merge loop of HEAD::sort over the array of sorted terms: a term
      whose successor has the same signature ORs its coefficient into the
      successor; any other term is kept when its coefficient is non-zero. */
  method MergeRun(arr: array<Elem>) returns (out: seq<Elem>)
    requires arr.Length > 0
    modifies arr
    ensures out == Merge(old(arr[0]), old(arr[1..]))
  {
    ghost var sorted := arr[..];
    var num := arr.Length;
    out := [];
    var n := 0;
    while n != num - 1
      invariant 0 <= n <= num - 1
      invariant arr[n + 1..] == sorted[n + 1..]
      invariant out + Merge(arr[n], sorted[n + 1..]) == Merge(sorted[0], sorted[1..])
    {
      var kept := MergeStep(arr, n);
      assert sorted[n + 1..][1..] == sorted[n + 2..];
      out := out + kept;
      n := n + 1;
    }
    if arr[num - 1].value != 0 {
      out := out + [arr[num - 1]];
    }
  }

  /** One iteration of the merge loop at index n: what it appends to the
      result, and the successor absorbing the coefficient of a term with
      the same signature. */
  method MergeStep(arr: array<Elem>, n: nat) returns (kept: seq<Elem>)
    requires n + 1 < arr.Length
    modifies arr
    ensures arr[n + 2..] == old(arr[n + 2..])
    ensures kept + Merge(arr[n + 1], arr[n + 2..]) == Merge(old(arr[n]), old(arr[n + 1..]))
  {
    CompareByVars(arr[n + 1], arr[n]);
    MergeUnfold(arr[n], arr[n + 1..]);
    assert arr[n + 1..][1..] == arr[n + 2..];
    if Compare(arr[n + 1], arr[n], CmpVar) == 0 {
      arr[n + 1] := arr[n + 1].(value := arr[n + 1].value | arr[n].value);
      kept := [];
    } else if arr[n].value != 0 {
      kept := [arr[n]];
    } else {
      kept := [];
    }
  }

  /** The temporary `ELEM *` array that HEAD::sort hands to mergesort. */
  method ToArray(s: seq<Elem>) returns (arr: array<Elem>)
    ensures fresh(arr) && arr[..] == s
  {
    arr := new Elem[|s|](i requires 0 <= i < |s| => s[i]);
  }

  class Head {
    var elems: seq<Elem>

    /** HEAD(): an empty list. */
    constructor ()
      ensures elems == []
    {
      elems := [];
    }

    /** HEAD(const HEAD &): every element copied through ELEM's copy
        constructor, in order. */
    constructor Clone(other: Head)
      ensures elems == SortEach(other.elems)
    {
      var s := other.elems;
      elems := [];
      new;
      AppendCopies(s);
    }

    /** insert_tail */
    method InsertTail(e: Elem)
      modifies this
      ensures elems == old(elems) + [e]
    {
      elems := elems + [e];
    }

    /** remove_head: the first element, unlinked, or none. */
    method RemoveHead() returns (r: Option<Elem>)
      modifies this
      ensures old(elems) == [] ==> r == None && elems == []
      ensures old(elems) != [] ==> r == Some(old(elems)[0]) && elems == old(elems)[1..]
    {
      if elems == [] {
        return None;
      }
      r := Some(elems[0]);
      elems := elems[1..];
    }

    /** count */
    method Count() returns (n: nat)
      ensures n == |elems|
    {
      n := 0;
      var rest := elems;
      while rest != []
        invariant n + |rest| == |elems|
      {
        rest := rest[1..];
        n := n + 1;
      }
    }

    /** value: the coefficient of a literal-free first element, otherwise 0. */
    function Value(): bv8
      reads this
    {
      ListValue(elems)
    }

    /** compare: both lists walked in step; the first pair that differs
        under ELEM::compare with CMP_BOTH decides, and otherwise the longer
        list compares above. */
    method CompareTo(other: Head) returns (r: int)
      ensures r == ListCompare(elems, other.elems)
    {
      var i := 0;
      while i < |elems| && i < |other.elems|
        invariant i <= |elems| && i <= |other.elems|
        invariant ListCompare(elems[i..], other.elems[i..]) == ListCompare(elems, other.elems)
      {
        var ret := Compare(elems[i], other.elems[i], CmpBoth);
        if ret != 0 {
          return ret;
        }
        assert elems[i..][1..] == elems[i + 1..] && other.elems[i..][1..] == other.elems[i + 1..];
        i := i + 1;
      }
      r := (if i < |elems| then 1 else 0) - (if i < |other.elems| then 1 else 0);
    }

    /** The copy loop shared by the copy constructor, operator= and +=:
        a fresh copy of every element of `s` appended in order. */
    method AppendCopies(s: seq<Elem>)
      modifies this
      ensures elems == old(elems) + SortEach(s)
    {
      var i := 0;
      while i != |s|
        invariant 0 <= i <= |s|
        invariant elems == old(elems) + SortEach(s)[..i]
      {
        assert SortEach(s)[..i + 1] == SortEach(s)[..i] + [ElemSort(s[i])];
        elems := elems + [ElemSort(s[i])];
        i := i + 1;
      }
    }

    /** operator+=(const ELEM &): a copy of `e` appended, without sorting. */
    method AddElem(e: Elem)
      modifies this
      ensures elems == old(elems) + [ElemSort(e)]
    {
      InsertTail(ElemSort(e));
    }

    /** sort: each term put in ELEM::sort normal form, the list ordered by
        signature, equal signatures merged by OR, zero coefficients dropped. */
    method Sort()
      modifies this
      ensures elems == Canonical(old(elems))
    {
      var num := SortTerms();
      if num == 0 {
        return;
      }
      var sorted := SortByKey(elems);
      assert Canonical(old(elems)) == Merge(sorted[0], sorted[1..]);
      var arr := ToArray(sorted);
      elems := MergeRun(arr);
    }

    /** The first loop of sort: every term put in ELEM::sort normal form,
        and the list counted. */
    method SortTerms() returns (num: nat)
      modifies this
      ensures elems == SortEach(old(elems)) && num == |elems|
    {
      num := 0;
      while num != |elems|
        invariant 0 <= num <= |elems| == |old(elems)|
        invariant forall j :: 0 <= j < num ==> elems[j] == ElemSort(old(elems)[j])
        invariant forall j :: num <= j < |elems| ==> elems[j] == old(elems)[j]
      {
        elems := elems[num := ElemSort(elems[num])];
        num := num + 1;
      }
    }

    /** expand: every term expanded under `v`, then sorted. */
    method Expand(v: int)
      modifies this
      ensures elems == ExpandList(old(elems), v)
    {
      var i := 0;
      while i != |elems|
        invariant 0 <= i <= |elems| == |old(elems)|
        invariant forall j :: 0 <= j < i ==> elems[j] == Terms.Expand(old(elems)[j], v)
        invariant forall j :: i <= j < |elems| ==> elems[j] == old(elems)[j]
      {
        elems := elems[i := Terms.Expand(elems[i], v)];
        i := i + 1;
      }
      assert elems == ExpandEach(old(elems), v);
      Sort();
    }

    /** operator=: a no-op on itself, otherwise the list replaced by copies
        of the other's elements. */
    method Assign(other: Head)
      modifies this
      ensures other == this ==> elems == old(elems)
      ensures other != this ==> elems == SortEach(old(other.elems))
    {
      if other == this {
        return;
      }
      var s := other.elems;
      elems := [];
      AppendCopies(s);
    }

    /** operator+=(const HEAD &): copies of the other's elements appended,
        then sorted. Adding a non-empty list to itself walks a list that
        grows as it is walked and never ends, so the operand must be another
        list or the list must be empty. */
    method AddAssign(other: Head)
      requires other != this || elems == []
      modifies this
      ensures elems == AddList(old(elems), other.elems)
      ensures other.elems == old(other.elems)
    {
      AppendCopies(other.elems);
      Sort();
    }

    /** operator+(const HEAD &): a copy of `other` with this list added. */
    method Plus(other: Head) returns (r: Head)
      ensures fresh(r)
      ensures r.elems == AddList(SortEach(other.elems), elems)
    {
      r := new Head.Clone(other);
      r.AddAssign(this);
    }

    /** operator+(const ELEM &): a copy of this list with a copy of `e`
        appended. */
    method PlusElem(e: Elem) returns (r: Head)
      ensures fresh(r)
      ensures r.elems == SortEach(elems) + [ElemSort(e)]
    {
      r := new Head.Clone(this);
      r.AddElem(e);
    }

    /** move_to: `to` emptied, then every element of this list moved to its
        tail. Moving a list to itself empties it. */
    method MoveTo(to: Head)
      modifies this, to
      ensures to != this ==> to.elems == old(elems) && elems == []
      ensures to == this ==> elems == []
    {
      while to.elems != []
        invariant to != this ==> elems == old(elems)
        decreases |to.elems|
      {
        var dropped := to.RemoveHead();
      }
      while elems != []
        invariant to != this ==> to.elems + elems == old(elems)
        invariant to == this ==> elems == []
        decreases |elems|
      {
        var p := RemoveHead();
        to.InsertTail(p.value);
      }
    }

    /** The inner loop of operator*=: the products `*p1 * *p2` for every
        term p2 of `b`, copied onto the tail. */
    method AppendRow(p1: Elem, b: seq<Elem>)
      modifies this
      ensures elems == old(elems) + Row(p1, b)
    {
      var j := 0;
      while j != |b|
        invariant 0 <= j <= |b|
        invariant elems == old(elems) + Row(p1, b[..j])
      {
        var p := Multiply(p1, b[j]);
        RowPrefix(p1, b, j);
        AddElem(p);
        j := j + 1;
      }
      assert b[..j] == b;
    }

    /** The outer loop of operator*=: for each term of `a`, its products with
        every term of `b` are appended, and the list is sorted. */
    method AppendRows(a: seq<Elem>, b: seq<Elem>)
      modifies this
      ensures elems == MulRows(a, b, old(elems))
    {
      var i := 0;
      while i != |a|
        invariant 0 <= i <= |a|
        invariant MulRows(a[i..], b, elems) == MulRows(a, b, old(elems))
      {
        ghost var acc := elems;
        AppendRow(a[i], b);
        Sort();
        MulRowsStep(a[i..], b, acc);
        assert a[i..][0] == a[i] && a[i..][1..] == a[i + 1..];
        i := i + 1;
      }
      assert a[i..] == [];
    }

    /** operator*=: the products accumulated in a temporary list, which is
        then moved into this one. */
    method MulAssign(other: Head)
      modifies this
      ensures elems == MulList(old(elems), old(other.elems))
    {
      var temp := new Head();
      temp.AppendRows(elems, other.elems);
      temp.MoveTo(this);
    }

    /** operator*(const HEAD &): a copy of `other` multiplied by this list. */
    method Times(other: Head) returns (r: Head)
      ensures fresh(r)
      ensures r.elems == MulList(SortEach(other.elems), elems)
    {
      r := new Head.Clone(other);
      r.MulAssign(this);
    }
  }
}
