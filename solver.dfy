/**
 * hpsudoku_solve (hpsudoku.cpp:30-72): variable elimination over a HEAD of
 * 2-SAT terms. Variables v_start, v_start+1, ... are eliminated one at a
 * time; the terms set aside for each variable are expanded backwards to
 * choose its sign.
 */
module Solver {
  import opened Wrappers
  import opened Terms
  import opened Formulas
  import opened Algebra
  import opened Heads

  // ---------------------------------------------------------------------
  // The partition loop (hpsudoku.cpp:42-49)

  /** The list a term is moved to while eliminating `v`. */
  datatype Bucket = ToTrue | ToFalse | ToRest

  function BucketOf(e: Elem, v: int): (b: Bucket)
    ensures b == ToTrue <==> v in Live(e)
    ensures b == ToFalse <==> v !in Live(e) && -v in Live(e)
    ensures b == ToRest <==> v !in Live(e) && -v !in Live(e)
  {
    if FindVar(e, v) >= 0 then ToTrue
    else if FindVar(e, -v) >= 0 then ToFalse
    else ToRest
  }

  /** The terms of `s` that go to bucket `b`, in their order in `s`. */
  function Pick(s: seq<Elem>, v: int, b: Bucket): (r: seq<Elem>)
    ensures |r| <= |s|
  {
    if s == [] then []
    else Pick(s[..|s| - 1], v, b) + (if BucketOf(s[|s| - 1], v) == b then [s[|s| - 1]] else [])
  }

  /** Each bucket holds only terms that belong there. */
  lemma {:induction false} PickBucket(s: seq<Elem>, v: int, b: Bucket)
    ensures forall e :: e in Pick(s, v, b) ==> e in s && BucketOf(e, v) == b
  {
    if s != [] {
      PickBucket(s[..|s| - 1], v, b);
    }
  }

  /** Every term lands in exactly one bucket: the three buckets together
      hold exactly the terms of `s`. */
  lemma {:induction false} PickPartition(s: seq<Elem>, v: int)
    ensures multiset(Pick(s, v, ToTrue)) + multiset(Pick(s, v, ToFalse)) +
      multiset(Pick(s, v, ToRest)) == multiset(s)
  {
    if s != [] {
      var init, last := s[..|s| - 1], s[|s| - 1];
      PickPartition(init, v);
      assert multiset(s) == multiset(init) + multiset{last} by {
        assert s == init + [last];
      }
      PickLast(s, v, ToTrue);
      PickLast(s, v, ToFalse);
      PickLast(s, v, ToRest);
    }
  }

  lemma PickLast(s: seq<Elem>, v: int, b: Bucket)
    requires s != []
    ensures multiset(Pick(s, v, b)) == multiset(Pick(s[..|s| - 1], v, b)) +
      if BucketOf(s[|s| - 1], v) == b then multiset{s[|s| - 1]} else multiset{}
  {
  }

  /** Draining `head` into three new lists t, f and r. */
  method Split(head: Head, v: int) returns (t: Head, f: Head, r: Head)
    modifies head
    ensures fresh(t) && fresh(f) && fresh(r) && t != f && f != r && t != r
    ensures head.elems == []
    ensures t.elems == Pick(old(head.elems), v, ToTrue)
    ensures f.elems == Pick(old(head.elems), v, ToFalse)
    ensures r.elems == Pick(old(head.elems), v, ToRest)
  {
    t := new Head();
    f := new Head();
    r := new Head();
    ghost var s := head.elems;
    ghost var k := 0;
    while true
      invariant 0 <= k <= |s| && head.elems == s[k..]
      invariant fresh(t) && fresh(f) && fresh(r) && t != f && f != r && t != r
      invariant t.elems == Pick(s[..k], v, ToTrue)
      invariant f.elems == Pick(s[..k], v, ToFalse)
      invariant r.elems == Pick(s[..k], v, ToRest)
      decreases |head.elems|
    {
      var e := head.RemoveHead();
      if e.None? {
        break;
      }
      assert s[..k + 1][..k] == s[..k] && s[..k + 1][k] == e.value;
      if FindVar(e.value, v) >= 0 {
        t.InsertTail(e.value);
      } else if FindVar(e.value, -v) >= 0 {
        f.InsertTail(e.value);
      } else {
        r.InsertTail(e.value);
      }
      k := k + 1;
    }
    assert s[..k] == s;
  }

  // ---------------------------------------------------------------------
  // The forward pass (hpsudoku.cpp:35-57)

  /** The terms set aside for `v`: those holding `v`, expanded under `v`. */
  function Residual(s: seq<Elem>, v: int): seq<Elem>
  {
    ExpandList(Pick(s, v, ToTrue), v)
  }

  /** `head = r + (t * f)`, with t and f expanded under `v` and `-v`. */
  function Eliminate(s: seq<Elem>, v: int): seq<Elem>
  {
    var t := Residual(s, v);
    var f := ExpandList(Pick(s, v, ToFalse), Negate(v));
    SortEach(AddList(SortEach(MulList(SortEach(f), t)), Pick(s, v, ToRest)))
  }

  /** The list after `num` rounds of `step`, from variable `v` on. */
  function Rounds(step: (seq<Elem>, int) -> seq<Elem>, s: seq<Elem>, v: int, num: nat): seq<Elem>
    decreases num
  {
    if num == 0 then s else Rounds(step, step(s, v), v + 1, num - 1)
  }

  /** One more round is one more step, at the variable `w` that follows
      the last one. */
  lemma {:induction false} RoundsStep(step: (seq<Elem>, int) -> seq<Elem>, s: seq<Elem>, v: int, x: nat, w: int)
    requires w == v + x
    ensures Rounds(step, s, v, x + 1) == step(Rounds(step, s, v, x), w)
    decreases x
  {
    if x > 0 {
      RoundsStep(step, step(s, v), v + 1, x - 1, w);
    }
  }

  /** `head` after eliminating `num` variables from `v` on. */
  function HeadAfter(s: seq<Elem>, v: int, num: nat): seq<Elem>
  {
    Rounds(Eliminate, s, v, num)
  }

  /** What `take` sets aside in round `x`, at variable `v + x`. */
  function Taken(step: (seq<Elem>, int) -> seq<Elem>, take: (seq<Elem>, int) -> seq<Elem>,
                 s: seq<Elem>, v: int, x: nat): seq<Elem>
  {
    take(Rounds(step, s, v, x), v + x)
  }

  /** h_result[x]: the residual of variable `v + x`, set aside in round `x`. */
  function Entry(s: seq<Elem>, v: int, x: nat): seq<Elem>
  {
    Taken(Eliminate, Residual, s, v, x)
  }

  /** What `take` sets aside in each of `num` rounds. */
  function Collected(step: (seq<Elem>, int) -> seq<Elem>, take: (seq<Elem>, int) -> seq<Elem>,
                     s: seq<Elem>, v: int, num: nat): (hs: seq<seq<Elem>>)
    ensures |hs| == num
  {
    seq(num, x requires 0 <= x < num => Taken(step, take, s, v, x))
  }

  /** h_result after eliminating `num` variables from `v` on. */
  function Forward(s: seq<Elem>, v: int, num: nat): (hs: seq<seq<Elem>>)
    ensures |hs| == num
  {
    Collected(Eliminate, Residual, s, v, num)
  }

  // ---------------------------------------------------------------------
  // The backward pass (hpsudoku.cpp:59-69)

  /** The literal chosen for `v` from its residual: `v` when the residual's
      value is 0, `-v` otherwise. */
  function Decide(h: seq<Elem>, v: int): int
  {
    if ListValue(h) == 0 then v else -v
  }

  /** Every list of `hs` expanded under `lit` by `expand`. */
  function ExpandAll(expand: (seq<Elem>, int) -> seq<Elem>, hs: seq<seq<Elem>>, lit: int): (r: seq<seq<Elem>>)
    ensures |r| == |hs|
    ensures forall i :: 0 <= i < |hs| ==> r[i] == expand(hs[i], lit)
  {
    seq(|hs|, i requires 0 <= i < |hs| => expand(hs[i], lit))
  }

  /** The literals chosen from the last list down: each choice is expanded
      by `expand` into all earlier lists before they are consulted. */
  function Back(expand: (seq<Elem>, int) -> seq<Elem>, hs: seq<seq<Elem>>, vStart: int): (r: seq<int>)
    ensures |r| == |hs|
    decreases |hs|
  {
    if hs == [] then []
    else
      var n := |hs| - 1;
      var lit := Decide(hs[n], vStart + n);
      Back(expand, ExpandAll(expand, hs[..n], lit), vStart) + [lit]
  }

  /** The lists as they stand when their literal is chosen. */
  function ConsultedBy(expand: (seq<Elem>, int) -> seq<Elem>, hs: seq<seq<Elem>>, vStart: int): (r: seq<seq<Elem>>)
    ensures |r| == |hs|
    decreases |hs|
  {
    if hs == [] then []
    else
      var n := |hs| - 1;
      var lit := Decide(hs[n], vStart + n);
      ConsultedBy(expand, ExpandAll(expand, hs[..n], lit), vStart) + [hs[n]]
  }

  /** v_result: the last residual decides its variable first, and the
      choice is expanded into all earlier residuals. */
  function Backward(hs: seq<seq<Elem>>, vStart: int): seq<int>
  {
    Back(ExpandList, hs, vStart)
  }

  /** The residuals as they stand when their variable is decided. */
  function Consulted(hs: seq<seq<Elem>>, vStart: int): seq<seq<Elem>>
  {
    ConsultedBy(ExpandList, hs, vStart)
  }

  /** One round of the first loop of hpsudoku_solve: the head is split,
      t and f are expanded, and `head = r + (t * f)`; t is returned to be
      moved into h_result. */
  method EliminateStep(head: Head, v: int) returns (t: Head)
    modifies head
    ensures fresh(t)
    ensures t.elems == Residual(old(head.elems), v)
    ensures head.elems == Eliminate(old(head.elems), v)
  {
    ghost var s := head.elems;
    var f, r;
    t, f, r := Split(head, v);
    t.Expand(v);
    f.Expand(Negate(v));
    ghost var te, fe, re := t.elems, f.elems, r.elems;
    var p := t.Times(f);
    var q := r.Plus(p);
    head.Assign(q);
    EliminateUnfold(s, v, te, fe, re);
  }

  lemma EliminateUnfold(s: seq<Elem>, v: int, te: seq<Elem>, fe: seq<Elem>, re: seq<Elem>)
    requires te == Residual(s, v)
    requires fe == ExpandList(Pick(s, v, ToFalse), Negate(v))
    requires re == Pick(s, v, ToRest)
    ensures Eliminate(s, v) == SortEach(AddList(SortEach(MulList(SortEach(fe), te)), re))
  {
  }

  /** `step` and `take` are the two results of EliminateStep. The trigger
      keeps the definitions of Eliminate and Residual out of the loop's proof. */
  ghost predicate IsRound(step: (seq<Elem>, int) -> seq<Elem>, take: (seq<Elem>, int) -> seq<Elem>)
  {
    forall s, v {:trigger Eliminate(s, v)} :: step(s, v) == Eliminate(s, v) && take(s, v) == Residual(s, v)
  }

  /** EliminateStep, stated through `step` and `take`. */
  method Advance(head: Head, ghost step: (seq<Elem>, int) -> seq<Elem>, ghost take: (seq<Elem>, int) -> seq<Elem>,
                 v: int) returns (t: seq<Elem>)
    requires IsRound(step, take)
    modifies head
    ensures head.elems == step(old(head.elems), v)
    ensures t == take(old(head.elems), v)
  {
    var h := EliminateStep(head, v);
    t := h.elems;
  }

  /** Round `x` of the first loop of hpsudoku_solve, on variable
      `vStart + x`: the head moves on to the next round, and what is set
      aside is entry `x` of h_result. */
  method Round(head: Head, ghost step: (seq<Elem>, int) -> seq<Elem>, ghost take: (seq<Elem>, int) -> seq<Elem>,
               ghost s0: seq<Elem>, vStart: int, x: nat) returns (t: seq<Elem>)
    requires IsRound(step, take) && head.elems == Rounds(step, s0, vStart, x)
    modifies head
    ensures head.elems == Rounds(step, s0, vStart, x + 1)
    ensures t == Taken(step, take, s0, vStart, x)
  {
    var v := vStart + x;
    RoundsStep(step, s0, vStart, x, v);
    t := Advance(head, step, take, v);
  }

  /** The loop of the forward pass, for any `step` and `take` that one
      round computes. */
  method FillForward(head: Head, ghost step: (seq<Elem>, int) -> seq<Elem>, ghost take: (seq<Elem>, int) -> seq<Elem>,
                 vStart: int, num: nat) returns (hResult: array<seq<Elem>>)
    requires IsRound(step, take)
    modifies head
    ensures fresh(hResult) && hResult.Length == num
    ensures forall j :: 0 <= j < num ==> hResult[j] == Taken(step, take, old(head.elems), vStart, j)
    ensures head.elems == Rounds(step, old(head.elems), vStart, num)
  {
    hResult := new seq<Elem>[num](_ => []);
    ghost var s0 := head.elems;
    var x := 0;
    while x != num
      invariant 0 <= x <= num
      invariant head.elems == Rounds(step, s0, vStart, x)
      invariant forall j :: 0 <= j < x ==> hResult[j] == Taken(step, take, s0, vStart, j)
    {
      var t := Round(head, step, take, s0, vStart, x);
      hResult[x] := t;
      x := x + 1;
    }
  }

  /** The first loop of hpsudoku_solve. */
  method ForwardPass(head: Head, vStart: int, num: nat) returns (hResult: array<seq<Elem>>)
    modifies head
    ensures fresh(hResult) && hResult.Length == num
    ensures forall j :: 0 <= j < num ==> hResult[j] == Entry(old(head.elems), vStart, j)
    ensures head.elems == HeadAfter(old(head.elems), vStart, num)
  {
    hResult := FillForward(head, Eliminate, Residual, vStart, num);
  }

  /** `expand` is HEAD::expand. The trigger keeps the definition of
      ExpandList out of the loop's proof. */
  ghost predicate IsExpand(expand: (seq<Elem>, int) -> seq<Elem>)
  {
    forall s, lit {:trigger ExpandList(s, lit)} :: expand(s, lit) == ExpandList(s, lit)
  }

  /** The inner loop of the second loop of hpsudoku_solve: the first `n`
      residuals expanded under `lit`, the others untouched. */
  method ExpandPrefix(hResult: array<seq<Elem>>, n: nat, lit: int, ghost expand: (seq<Elem>, int) -> seq<Elem>)
    requires n <= hResult.Length && IsExpand(expand)
    modifies hResult
    ensures forall j :: 0 <= j < n ==> hResult[j] == expand(old(hResult[j]), lit)
    ensures forall j :: n <= j < hResult.Length ==> hResult[j] == old(hResult[j])
  {
    ghost var before := hResult[..];
    var y := 0;
    while y != n
      invariant 0 <= y <= n
      invariant forall j :: 0 <= j < y ==> hResult[j] == expand(before[j], lit)
      invariant forall j :: y <= j < hResult.Length ==> hResult[j] == before[j]
    {
      hResult[y] := ExpandList(hResult[y], lit);
      y := y + 1;
    }
  }

  /** One pass of the second loop, read off the definition of Back. */
  lemma BackStep(expand: (seq<Elem>, int) -> seq<Elem>, hs: seq<seq<Elem>>, vStart: int, w: int)
    requires hs != [] && w == vStart + |hs| - 1
    ensures Back(expand, hs, vStart) ==
      Back(expand, ExpandAll(expand, hs[..|hs| - 1], Decide(hs[|hs| - 1], w)), vStart) +
      [Decide(hs[|hs| - 1], w)]
  {
  }

  /** Lists expanded one by one under `lit` are ExpandAll of the prefix they
      came from. */
  lemma ExpandAllPrefix(expand: (seq<Elem>, int) -> seq<Elem>, before: seq<seq<Elem>>, after: seq<seq<Elem>>,
                        lit: int)
    requires |after| <= |before|
    requires forall j :: 0 <= j < |after| ==> after[j] == expand(before[j], lit)
    ensures after == ExpandAll(expand, before[..|after|], lit)
  {
    var e := ExpandAll(expand, before[..|after|], lit);
    forall j | 0 <= j < |after| ensures after[j] == e[j] {
      assert before[..|after|][j] == before[j];
    }
  }

  /** One pass of the second loop on values: once the first `n` lists are
      expanded under the chosen literal and the literal is stored, the
      choices still to make are those of Back on the expanded lists. */
  lemma BackRoundValues(expand: (seq<Elem>, int) -> seq<Elem>, before: seq<seq<Elem>>, after: seq<seq<Elem>>,
                        vStart: int, lit: int)
    requires before != [] && |after| == |before| - 1
    requires lit == Decide(before[|before| - 1], vStart + |before| - 1)
    requires after == ExpandAll(expand, before[..|after|], lit)
    ensures Back(expand, before, vStart) == Back(expand, after, vStart) + [lit]
  {
    BackStep(expand, before, vStart, vStart + |after|);
  }

  /** One pass of the second loop, on h_result[n] and variable `v`: the
      literal is chosen and expanded into h_result[0..n). */
  method BackRound(hResult: array<seq<Elem>>, vResult: array<int>, vStart: int, n: nat, v: int,
                   ghost expand: (seq<Elem>, int) -> seq<Elem>)
    requires n < hResult.Length == vResult.Length && v == vStart + n && IsExpand(expand)
    modifies hResult, vResult
    ensures Back(expand, hResult[..n], vStart) + vResult[n..] ==
      Back(expand, old(hResult[..n + 1]), vStart) + old(vResult[n + 1..])
  {
    ghost var before := hResult[..n + 1];
    ghost var tail := vResult[n + 1..];
    var lit := if ListValue(hResult[n]) == 0 then v else -v;
    vResult[n] := lit;
    assert vResult[n..] == [lit] + tail;
    ExpandPrefix(hResult, n, lit, expand);
    ExpandAllPrefix(expand, before, hResult[..n], lit);
    BackRoundValues(expand, before, hResult[..n], vStart, lit);
    ghost var b := Back(expand, hResult[..n], vStart);
    assert b + ([lit] + tail) == (b + [lit]) + tail;
  }

  /** The second loop of hpsudoku_solve, for any `expand` that is
      HEAD::expand. */
  method BackLoop(hResult: array<seq<Elem>>, vResult: array<int>, vStart: int,
                  ghost expand: (seq<Elem>, int) -> seq<Elem>)
    requires vResult.Length == hResult.Length && IsExpand(expand)
    modifies hResult, vResult
    ensures vResult[..] == Back(expand, old(hResult[..]), vStart)
  {
    ghost var target := Back(expand, hResult[..], vStart);
    var n := hResult.Length;
    var v := vStart + n;
    assert hResult[..n] == hResult[..];
    while n != 0
      invariant 0 <= n <= hResult.Length && v == vStart + n
      invariant Back(expand, hResult[..n], vStart) + vResult[n..] == target
    {
      n := n - 1;
      v := v - 1;
      BackRound(hResult, vResult, vStart, n, v, expand);
    }
    assert vResult[..] == vResult[0..];
  }

  /** The second loop of hpsudoku_solve: from the last variable down, the
      residual's value picks the sign, and the chosen literal is expanded
      into every earlier residual. */
  method BackwardPass(hResult: array<seq<Elem>>, vResult: array<int>, vStart: int)
    requires vResult.Length == hResult.Length
    modifies hResult, vResult
    ensures vResult[..] == Backward(old(hResult[..]), vStart)
  {
    BackLoop(hResult, vResult, vStart, ExpandList);
  }

  /** hpsudoku_solve: the forward pass fills h_result, the backward pass
      fills v_result. The final head is left as the forward pass made it;
      nothing checks whether the rules were satisfiable. */
  method Solve(head: Head, vResult: array<int>, vStart: int, num: nat)
    requires vResult.Length == num
    modifies head, vResult
    ensures head.elems == HeadAfter(old(head.elems), vStart, num)
    ensures vResult[..] == Backward(Forward(old(head.elems), vStart, num), vStart)
  {
    var hResult := ForwardPass(head, vStart, num);
    assert hResult[..] == Forward(old(head.elems), vStart, num);
    BackwardPass(hResult, vResult, vStart);
  }

  // ---------------------------------------------------------------------
  // What the passes guarantee when every variable lies in
  // [vStart, vStart + num), as hpsudoku_read arranges

  /** A bucket holds terms of the list it was drawn from. */
  lemma PickInRange(s: seq<Elem>, v: int, b: Bucket, lo: int, hi: int)
    requires AllInRange(s, lo, hi)
    ensures AllInRange(Pick(s, v, b), lo, hi)
  {
    PickBucket(s, v, b);
    var r := Pick(s, v, b);
    forall i | 0 <= i < |r| ensures InRange(r[i], lo, hi) {
      assert r[i] in r;
    }
  }

  /** The terms that mention neither `v` nor `-v` lose the lowest variable
      `v` of the range. */
  lemma RestInRange(s: seq<Elem>, v: int, hi: int)
    requires v >= 0 && AllInRange(s, v, hi)
    ensures AllInRange(Pick(s, v, ToRest), v + 1, hi)
  {
    PickBucket(s, v, ToRest);
    var r := Pick(s, v, ToRest);
    forall i | 0 <= i < |r| ensures InRange(r[i], v + 1, hi) {
      assert r[i] in r;
    }
  }

  /** `head = r + (t * f)` on lists over [lo, hi) stays over [lo, hi). */
  lemma CombineInRange(t: seq<Elem>, f: seq<Elem>, r: seq<Elem>, lo: int, hi: int)
    requires AllInRange(t, lo, hi) && AllInRange(f, lo, hi) && AllInRange(r, lo, hi)
    ensures AllInRange(SortEach(AddList(SortEach(MulList(SortEach(f), t)), r)), lo, hi)
  {
    SortEachInRange(f, lo, hi);
    var m := MulList(SortEach(f), t);
    MulListInRange(SortEach(f), t, lo, hi);
    SortEachInRange(m, lo, hi);
    SortEachInRange(r, lo, hi);
    AllInRangeAppend(SortEach(m), SortEach(r), lo, hi);
    CanonicalInRange(SortEach(m) + SortEach(r), lo, hi);
    SortEachInRange(AddList(SortEach(m), r), lo, hi);
  }

  /** The residual of the lowest variable `v` of the range lies above it
      and is in canonical form. */
  lemma ResidualInRange(s: seq<Elem>, v: int, hi: int)
    requires v >= 1 && AllInRange(s, v, hi)
    ensures AllInRange(Residual(s, v), v + 1, hi)
    ensures StrictlySorted(Residual(s, v)) && NoZero(Residual(s, v))
  {
    var t0 := Pick(s, v, ToTrue);
    PickInRange(s, v, ToTrue, v, hi);
    ExpandListInRange(t0, v, v, hi);
    CanonicalStrict(ExpandEach(t0, v));
  }

  /** The three lists a round on [v, hi) combines lie over [v + 1, hi). */
  lemma PartsInRange(s: seq<Elem>, v: int, hi: int)
    requires v >= 1 && AllInRange(s, v, hi)
    ensures AllInRange(Residual(s, v), v + 1, hi)
    ensures AllInRange(ExpandList(Pick(s, v, ToFalse), Negate(v)), v + 1, hi)
    ensures AllInRange(Pick(s, v, ToRest), v + 1, hi)
  {
    ResidualInRange(s, v, hi);
    PickInRange(s, v, ToFalse, v, hi);
    ExpandListInRange(Pick(s, v, ToFalse), Negate(v), v, hi);
    RestInRange(s, v, hi);
  }

  /** One round on a list over [v, hi) leaves a head over [v + 1, hi). */
  lemma EliminateInRange(s: seq<Elem>, v: int, hi: int)
    requires v >= 1 && AllInRange(s, v, hi)
    ensures AllInRange(Eliminate(s, v), v + 1, hi)
  {
    var t, f, r := Residual(s, v), ExpandList(Pick(s, v, ToFalse), Negate(v)), Pick(s, v, ToRest);
    PartsInRange(s, v, hi);
    CombineInRange(t, f, r, v + 1, hi);
    EliminateUnfold(s, v, t, f, r);
  }

  /** `step` and `take` narrow the range by its lowest variable, and what
      `take` sets aside is in canonical form. */
  ghost predicate Narrows(step: (seq<Elem>, int) -> seq<Elem>, take: (seq<Elem>, int) -> seq<Elem>, hi: int)
  {
    forall s, v {:trigger step(s, v)} {:trigger take(s, v)} :: v >= 1 && AllInRange(s, v, hi) ==>
      AllInRange(step(s, v), v + 1, hi) && AllInRange(take(s, v), v + 1, hi) &&
      StrictlySorted(take(s, v)) && NoZero(take(s, v))
  }

  /** One round of elimination narrows the range. */
  lemma RoundNarrows(step: (seq<Elem>, int) -> seq<Elem>, take: (seq<Elem>, int) -> seq<Elem>, hi: int)
    requires IsRound(step, take)
    ensures Narrows(step, take, hi)
  {
    forall s, v | v >= 1 && AllInRange(s, v, hi)
      ensures AllInRange(step(s, v), v + 1, hi) && AllInRange(take(s, v), v + 1, hi) &&
        StrictlySorted(take(s, v)) && NoZero(take(s, v))
    {
      EliminateInRange(s, v, hi);
      ResidualInRange(s, v, hi);
    }
  }

  /** After `x` rounds from `vStart` the list holds only variables of
      [vStart + x, hi): the first `x` variables are gone. */
  lemma {:induction false} RoundsInRange(step: (seq<Elem>, int) -> seq<Elem>, take: (seq<Elem>, int) -> seq<Elem>,
                                         s: seq<Elem>, vStart: int, hi: int, x: nat)
    requires vStart >= 1 && AllInRange(s, vStart, hi) && IsRound(step, take)
    ensures AllInRange(Rounds(step, s, vStart, x), vStart + x, hi)
    ensures AllInRange(Taken(step, take, s, vStart, x), vStart + x + 1, hi)
    ensures StrictlySorted(Taken(step, take, s, vStart, x)) && NoZero(Taken(step, take, s, vStart, x))
  {
    RoundNarrows(step, take, hi);
    if x > 0 {
      RoundsInRange(step, take, s, vStart, hi, x - 1);
      RoundsStep(step, s, vStart, x - 1, vStart + (x - 1));
    }
  }

  /** After `x` rounds neither the head nor h_result[x] mentions any of
      the variables vStart .. vStart + x, and h_result[x] is canonical. */
  lemma EntryInRange(s: seq<Elem>, vStart: int, hi: int, x: nat)
    requires vStart >= 1 && AllInRange(s, vStart, hi)
    ensures AllInRange(HeadAfter(s, vStart, x), vStart + x, hi)
    ensures AllInRange(Entry(s, vStart, x), vStart + x + 1, hi)
    ensures StrictlySorted(Entry(s, vStart, x)) && NoZero(Entry(s, vStart, x))
  {
    RoundsInRange(Eliminate, Residual, s, vStart, hi, x);
  }

  // ---------------------------------------------------------------------
  // What the backward pass chooses

  /** Entry `i` of v_result is decided by h_result[i] as it stands when
      the second loop reaches it. */
  lemma {:induction false} BackDecides(expand: (seq<Elem>, int) -> seq<Elem>, hs: seq<seq<Elem>>, vStart: int)
    ensures forall i :: 0 <= i < |hs| ==>
      Back(expand, hs, vStart)[i] == Decide(ConsultedBy(expand, hs, vStart)[i], vStart + i)
    decreases |hs|
  {
    if hs != [] {
      var n := |hs| - 1;
      var lit := Decide(hs[n], vStart + n);
      BackDecides(expand, ExpandAll(expand, hs[..n], lit), vStart);
    }
  }

  /** v_result[i] is variable vStart + i, positive exactly when the
      consulted residual has value 0. */
  lemma BackwardSigns(hs: seq<seq<Elem>>, vStart: int)
    requires vStart >= 1
    ensures |Backward(hs, vStart)| == |Consulted(hs, vStart)| == |hs|
    ensures forall i :: 0 <= i < |hs| ==> Abs(Backward(hs, vStart)[i]) == vStart + i
    ensures forall i :: 0 <= i < |hs| ==>
      (Backward(hs, vStart)[i] > 0 <==> ListValue(Consulted(hs, vStart)[i]) == 0)
  {
    BackDecides(ExpandList, hs, vStart);
  }

  /** Expanding a canonical list over [lo, hi) by its highest variable
      leaves a canonical list over [lo, hi - 1). */
  ghost predicate DropsTop(expand: (seq<Elem>, int) -> seq<Elem>)
  {
    forall s, lit, lo, hi :: AllInRange(s, lo, hi) && Abs(lit) == hi - 1 ==>
      AllInRange(expand(s, lit), lo, hi - 1) && StrictlySorted(expand(s, lit)) && NoZero(expand(s, lit))
  }

  lemma ExpandDropsTop(expand: (seq<Elem>, int) -> seq<Elem>)
    requires IsExpand(expand)
    ensures DropsTop(expand)
  {
    forall s, lit, lo, hi | AllInRange(s, lo, hi) && Abs(lit) == hi - 1
      ensures AllInRange(expand(s, lit), lo, hi - 1) &&
        StrictlySorted(expand(s, lit)) && NoZero(expand(s, lit))
    {
      ExpandListInRange(s, lit, lo, hi);
      CanonicalStrict(ExpandEach(s, lit));
    }
  }

  /** h_result as the forward pass leaves it on variables of
      [vStart, vStart + |hs|): entry i holds only the variables after
      vStart + i, in canonical form. */
  ghost predicate Staircase(hs: seq<seq<Elem>>, vStart: int)
  {
    forall i :: 0 <= i < |hs| ==>
      AllInRange(hs[i], vStart + i + 1, vStart + |hs|) && StrictlySorted(hs[i]) && NoZero(hs[i])
  }

  /** When the second loop reaches h_result[i], every later variable has
      been expanded away: no variable is left. */
  lemma {:induction false} ConsultedEmptyRange(expand: (seq<Elem>, int) -> seq<Elem>, hs: seq<seq<Elem>>, vStart: int)
    requires vStart >= 0 && DropsTop(expand) && Staircase(hs, vStart)
    ensures forall i :: 0 <= i < |hs| ==>
      AllInRange(ConsultedBy(expand, hs, vStart)[i], vStart + i + 1, vStart + i + 1) &&
      StrictlySorted(ConsultedBy(expand, hs, vStart)[i]) && NoZero(ConsultedBy(expand, hs, vStart)[i])
    decreases |hs|
  {
    if hs != [] {
      var n := |hs| - 1;
      var lit := Decide(hs[n], vStart + n);
      var rest := ExpandAll(expand, hs[..n], lit);
      forall i | 0 <= i < n
        ensures AllInRange(rest[i], vStart + i + 1, vStart + n) && StrictlySorted(rest[i]) && NoZero(rest[i])
      {
        assert AllInRange(hs[i], vStart + i + 1, vStart + n + 1);
      }
      ConsultedEmptyRange(expand, rest, vStart);
    }
  }

  /** On a staircase, each consulted list is empty or one literal-free
      term, and the literal chosen from it is positive exactly when it is
      empty. */
  lemma ChoosesBy(expand: (seq<Elem>, int) -> seq<Elem>, hs: seq<seq<Elem>>, vStart: int)
    requires vStart >= 1 && DropsTop(expand) && Staircase(hs, vStart)
    ensures forall i :: 0 <= i < |hs| ==>
      var c := ConsultedBy(expand, hs, vStart)[i];
      |c| <= 1 && (forall j :: 0 <= j < |c| ==> c[j].nvar == 0) &&
      Back(expand, hs, vStart)[i] == if c == [] then vStart + i else -(vStart + i)
  {
    ConsultedEmptyRange(expand, hs, vStart);
    BackDecides(expand, hs, vStart);
    var c: seq<seq<Elem>> := ConsultedBy(expand, hs, vStart);
    forall i | 0 <= i < |hs|
      ensures |c[i]| <= 1 && (forall j :: 0 <= j < |c[i]| ==> c[i][j].nvar == 0) &&
        Back(expand, hs, vStart)[i] == if c[i] == [] then vStart + i else -(vStart + i)
    {
      ResidualValue(c[i], vStart + i + 1);
    }
  }

  /** The forward pass, for any `step` and `take` that make one round,
      leaves a staircase in h_result. */
  lemma CollectedStaircase(step: (seq<Elem>, int) -> seq<Elem>, take: (seq<Elem>, int) -> seq<Elem>,
                           s: seq<Elem>, vStart: int, num: nat)
    requires vStart >= 1 && AllInRange(s, vStart, vStart + num) && IsRound(step, take)
    ensures Staircase(Collected(step, take, s, vStart, num), vStart)
  {
    var hs := Collected(step, take, s, vStart, num);
    forall i | 0 <= i < num
      ensures AllInRange(hs[i], vStart + i + 1, vStart + num) && StrictlySorted(hs[i]) && NoZero(hs[i])
    {
      RoundsInRange(step, take, s, vStart, vStart + num, i);
    }
  }

  /** The two passes, for any `step` and `take` that make one round and
      any `expand` that is HEAD::expand. */
  lemma ChoosesAfterRounds(step: (seq<Elem>, int) -> seq<Elem>, take: (seq<Elem>, int) -> seq<Elem>,
                           expand: (seq<Elem>, int) -> seq<Elem>, s: seq<Elem>, vStart: int, num: nat)
    requires vStart >= 1 && AllInRange(s, vStart, vStart + num)
    requires IsRound(step, take) && IsExpand(expand)
    ensures forall i :: 0 <= i < num ==>
      var c := ConsultedBy(expand, Collected(step, take, s, vStart, num), vStart)[i];
      |c| <= 1 && (forall j :: 0 <= j < |c| ==> c[j].nvar == 0) &&
      Back(expand, Collected(step, take, s, vStart, num), vStart)[i] == if c == [] then vStart + i else -(vStart + i)
  {
    CollectedStaircase(step, take, s, vStart, num);
    ExpandDropsTop(expand);
    ChoosesBy(expand, Collected(step, take, s, vStart, num), vStart);
  }

  /** hpsudoku_solve on rules over [vStart, vStart + num): each h_result[i],
      when consulted, is empty or a single literal-free term, and v_result[i]
      is vStart + i exactly when it is empty, -(vStart + i) otherwise. */
  lemma SolveChooses(s: seq<Elem>, vStart: int, num: nat)
    requires vStart >= 1 && AllInRange(s, vStart, vStart + num)
    ensures |Consulted(Forward(s, vStart, num), vStart)| == |Backward(Forward(s, vStart, num), vStart)| == num
    ensures forall i :: 0 <= i < num ==>
      var c := Consulted(Forward(s, vStart, num), vStart)[i];
      |c| <= 1 && (forall j :: 0 <= j < |c| ==> c[j].nvar == 0) &&
      Backward(Forward(s, vStart, num), vStart)[i] == if c == [] then vStart + i else -(vStart + i)
  {
    ChoosesAfterElimination(s, vStart, num);
  }

  lemma ChoosesAfterElimination(s: seq<Elem>, vStart: int, num: nat)
    requires vStart >= 1 && AllInRange(s, vStart, vStart + num)
    ensures forall i :: 0 <= i < num ==>
      var c := ConsultedBy(ExpandList, Collected(Eliminate, Residual, s, vStart, num), vStart)[i];
      |c| <= 1 && (forall j :: 0 <= j < |c| ==> c[j].nvar == 0) &&
      Back(ExpandList, Collected(Eliminate, Residual, s, vStart, num), vStart)[i] ==
        if c == [] then vStart + i else -(vStart + i)
  {
    ChoosesAfterRounds(Eliminate, Residual, ExpandList, s, vStart, num);
  }
}
