# hpsudoku in Dafny

A model of the solving core of hpsudoku, a Sudoku solver that encodes a
puzzle as 2-SAT-style rules and solves it by eliminating variables one at a
time.

The model has three layers, one module each (plus the shared `Wrappers`):

- **Terms** (`terms.dfy`) models the `ELEM` term. An `ELEM` is a one-byte
  coefficient times a conjunction of at most two signed literals. The
  datatype `Elem(value: bv8, nvar, var0, var1)` has the fields of the C++
  class. `ELEM::sort`, `expand`, the constructors, `operator=` and
  `compare` have no loop, so each is a function from the old term to the
  new one. `find_var` loops over the live slots; the method `FindVarLoop`
  is that loop, proved equal to the function `FindVar`. `operator*=` loops
  over the other term's literals, so it is the method `MulAssign`, proved
  equal to the function `Times`.
- **Formulas, Algebra and Heads** (`formulas.dfy`, `algebra.dfy`,
  `heads.dfy`) model the `HEAD` list of terms.
  - `Formulas` defines the canonical form (`Canonical`) that `HEAD::sort`
    computes and proves its properties. These are strict order, no zero
    coefficients, the OR-per-signature content, uniqueness and idempotence.
  - `Algebra` defines `expand`, `+=`, `*=`, `value` and `compare` as list
    functions, with their properties.
  - `Heads.Head` is a class whose list is the field `elems`. Its methods
    update the list in place with the loops of the C++ source. Each method
    is proved equal to the list function that specifies it. The merge loop
    of `HEAD::sort` runs over an `array`, as in the source.
- **Solver and Sudoku** (`solver.dfy`, `sudoku.dfy`) model the two files'
  top-level code.
  - `Solver` models `hpsudoku_solve`. The forward pass partitions the
    head, expands the buckets and multiplies them. It fills `h_result`,
    which is an array of lists here. The backward pass fills `v_result`.
    Both passes are methods proved against the functions `Forward` and
    `Backward`.
  - `Sudoku` models `hpsudoku_variable` and `hpsudoku_read`:
    - line validation;
    - the three families of rules;
    - the expansion of the given digits;
    - the decoding of the solver's answer.

    `Read` composes these and is proved equal to `ReadSpec`. `ReadOutcome`
    states what that outcome means.

The three `errx` exits of `hpsudoku_read` become the values of
`Sudoku.Error`, returned in a `Result`. The puzzle line is a `seq<char>`.
Reading past its end yields the NUL terminator. The cell map is a flat
sequence of `size * size` digits and the solver's result a flat sequence
of `size^3` signed variables, both in the source's row-major layout.

Canonicalising is idempotent only on some lists:

- Canonicalising is not idempotent on every list. A raw two-literal term
  `(k, -k)` with `k > 0` is only swapped by the first `ELEM::sort`. The
  second call zeroes it (`Formulas.CanonicalNotIdempotent`).
- Canonicalising is idempotent once every term names two different
  variables (`Formulas.CanonicalIdempotent`). Every list the solver builds
  satisfies this (`Sudoku.EncodeSettlesGivens`).

## Model

| member | source | states |
|---|---|---|
| Terms.ElemSort | hpsudoku.h:114-130 | a term with fewer than two literals is left as it is. Otherwise the degree never grows, and a two-literal result has var[0] < var[1]. The coefficient is kept unless the term becomes all zero. No literal is added, and a non-zero result keeps the literal set. |
| Terms.SortCollapsesDuplicate | hpsudoku.h:120-122 | two equal literals collapse to one, with the coefficient kept and the freed slot 0 |
| Terms.SortZeroesContradiction | hpsudoku.h:123-128 | the ordered pair (-k, k) becomes the all-zero term |
| Terms.SortNotIdempotent | hpsudoku.h:116-127 | (k, -k) with k > 0 is only swapped by one call and zeroed by the second, so sort is not idempotent |
| Terms.SortTwiceSettles | hpsudoku.h:114-130 | after two calls a third changes nothing, and the term names distinct variables |
| Terms.SortDistinct | hpsudoku.h:114-130 | on a term naming distinct variables one call settles it and keeps its coefficient and literal set |
| Terms.SortKeepsShape | hpsudoku.h:114-130 | sorting keeps freed slots at 0 and keeps a term within its variable range |
| Terms.Single | hpsudoku_elem.cpp:55-61 | ELEM(value, v0) holds exactly the literal v0, with the unused slot 0 |
| Terms.Pair | hpsudoku_elem.cpp:63-71 | ELEM(value, v0, v1) on two different variables keeps the coefficient and holds {v0, v1} in increasing order. A repeated literal gives the one-literal term. |
| Terms.Copy | hpsudoku_elem.cpp:73-86 | copying never adds literals. On a term naming distinct variables it keeps the coefficient and the literal set. |
| Terms.FindVar | hpsudoku_elem.cpp:147-155 | the result is -1 exactly when the literal is not live. Otherwise it is the first live slot that holds the literal. |
| Terms.FindVarLoop | hpsudoku_elem.cpp:147-155 | the slot loop of find_var computes FindVar. It returns the first live slot holding the literal, or -1. |
| Terms.Expand | hpsudoku_elem.cpp:157-180 | with `v` live: <br>• the degree drops by one; <br>• the coefficient is kept; <br>• the surviving literal moves to var[0] and the freed slot is 0. <br>With only `-v` live the result is the zero term; with neither it is unchanged. |
| Terms.ExpandConstant | hpsudoku_elem.cpp:157-180 | degree-0 terms are fixed points of expand |
| Terms.ExpandEliminates | hpsudoku_elem.cpp:157-180 | on a term naming distinct variables, `v` and `-v` are gone afterwards. No literal is added, and expanding twice equals expanding once. |
| Terms.ExpandTwiceOnDuplicate | hpsudoku_elem.cpp:163-172 | on a repeated literal (v, v), expanding twice differs from expanding once |
| Terms.ExpandTidy | hpsudoku_elem.cpp:163-178 | expand keeps freed slots at 0 |
| Terms.ExpandNarrows | hpsudoku_elem.cpp:157-180 | expanding by the lowest (or highest) variable of a term's range removes that variable from the range |
| Terms.Compare | hpsudoku_elem.cpp:110-145 | under CMP_VAR or CMP_BOTH, the lower signature (nvar, then var[1], then var[0]) compares -1 and the higher 1. Otherwise, or on equal signatures, CMP_VAL and CMP_BOTH compare the coefficients; a tie gives 0. |
| Terms.KeyLessOrder | hpsudoku_elem.cpp:114-136 | the signature order used by CMP_VAR is a strict total order |
| Terms.CompareByVars | hpsudoku_elem.cpp:114-136 | CMP_VAR compares (nvar, var[1] if two literals, var[0] if any) lexicographically, with both directions of each outcome |
| Terms.CompareBoth | hpsudoku_elem.cpp:110-145 | CMP_BOTH returns 0 exactly for equal signature and coefficient. It orders by signature first, then by coefficient. |
| Terms.CompareAntisymmetric | hpsudoku_elem.cpp:110-145 | compare(a, b) == -compare(b, a) and compare(a, a) == 0 in every mode |
| Terms.MulAssign | hpsudoku_elem.cpp:88-108 | operator*= computes Times: the literal loop, the AND of the coefficients, then sort |
| Terms.AbsorbLoop | hpsudoku_elem.cpp:93-103 | the loop over the other term's literals, including its early break, computes AbsorbAll |
| Terms.AbsorbStep | hpsudoku_elem.cpp:94-102 | one iteration of the loop computes Absorb. What Absorb does is stated by Terms.AbsorbFacts. |
| Terms.AbsorbFacts | hpsudoku_elem.cpp:94-102 | one iteration adds at most its literal. When it stops, the coefficient is 0; otherwise it adds exactly its literal and keeps the coefficient. |
| Terms.AbsorbAllFacts | hpsudoku_elem.cpp:93-103 | the loop draws its literals from the two factors. If it runs to the end, it holds all of them and keeps the coefficient. If it breaks, the coefficient is 0. |
| Terms.TimesValue | hpsudoku_elem.cpp:93-106 | the product's coefficient is `value & other.value`, or 0. Terms.TimesCoefficient says which. |
| Terms.TimesCoefficient | hpsudoku_elem.cpp:93-106 | for factors naming distinct variables, the product's coefficient is 0 exactly in two cases: the factors' literals include some l and -l, or they number more than two. Otherwise it is `value & other.value`. |
| Terms.TimesSurvives | hpsudoku_elem.cpp:93-106 | without a clash and with at most two literals between the factors, the loop never zeroes the coefficient, so the product keeps `value & other.value` |
| Terms.TimesLiveSubset | hpsudoku_elem.cpp:93-106 | a product names no literal that neither factor names |
| Terms.TimesUnion | hpsudoku_elem.cpp:93-106 | a product with a non-zero coefficient holds exactly the union of the factors' literals |
| Terms.TimesConflict | hpsudoku_elem.cpp:94-100 | a literal of the other term whose negation (but not itself) is present forces the coefficient to 0 |
| Terms.TimesDegreeCap | hpsudoku_elem.cpp:96-102 | more than two distinct literals between the factors force the coefficient to 0. The degree never exceeds 2. |
| Terms.Multiply | hpsudoku.h:72-76 | `*p1 * *p2` is a copy of p2 multiplied in place by p1, and its stored copy is Product |
| Terms.ProductShape | hpsudoku_head.cpp:99-102 | a stored product is settled under sort, names distinct variables and names no literal outside its factors |
| Terms.ProductInRange | hpsudoku_head.cpp:99-102 | the product of two terms within a variable range stays within it |
| Formulas.SortEach | hpsudoku_head.cpp:138-141 | the first loop of sort (and every list copy) keeps the length and passes term i through ELEM::sort |
| Formulas.SortByKeySorted | hpsudoku_head.cpp:153 | the stand-in for mergesort returns a permutation of its input that is sorted by signature |
| Formulas.SortByKeyOfSorted | hpsudoku_head.cpp:153 | the sort leaves an already sorted list unchanged, as a stable sort does |
| Formulas.OrKeySort | hpsudoku_head.cpp:153 | sorting keeps each signature's OR of coefficients |
| Formulas.MergeOr | hpsudoku_head.cpp:155-169 | the merge loop keeps, per signature, the OR of the coefficients it was given |
| Formulas.MergeLength | hpsudoku_head.cpp:155-169 | merging never adds terms |
| Formulas.MergeStrict | hpsudoku_head.cpp:155-169 | merging a sorted array gives a strictly sorted list without zero coefficients |
| Formulas.MergeOfStrict | hpsudoku_head.cpp:155-169 | merging a strictly sorted list without zeros changes nothing |
| Formulas.MergeKeeps | hpsudoku_head.cpp:155-169 | every term property that does not depend on the coefficient survives merging |
| Formulas.CanonicalStrict | hpsudoku_head.cpp:131-174 | after sort no two terms share a signature and no zero coefficient remains |
| Formulas.CanonicalOr | hpsudoku_head.cpp:131-174 | after sort each signature carries the OR of the coefficients of the per-term-sorted input |
| Formulas.CanonicalSurvivor | hpsudoku_head.cpp:155-169 | a signature survives sort if and only if that OR is non-zero, and the survivor carries the OR |
| Formulas.CanonicalShrinks | hpsudoku_head.cpp:138-144 | sort never increases the count and leaves an empty list empty |
| Formulas.CanonicalOfCanonical | hpsudoku_head.cpp:131-174 | sort is a no-op on a strictly sorted list without zeros whose terms are in ELEM::sort normal form |
| Formulas.CanonicalKeeps | hpsudoku_head.cpp:131-174 | every coefficient-independent property of the per-term-sorted input holds of the sorted list |
| Formulas.CanonicalSettled | hpsudoku_head.cpp:131-174 | sorting terms that name distinct variables yields settled terms naming distinct variables |
| Formulas.CanonicalIdempotent | hpsudoku_head.cpp:131-174 | sort applied twice equals sort applied once, for terms naming distinct variables |
| Formulas.CanonicalNotIdempotent | hpsudoku_head.cpp:138-141 | the raw term (1, -1) survives one sort swapped and is removed by the second |
| Algebra.CanonicalInRange | hpsudoku_head.cpp:131-174 | sort keeps a list within its variable range |
| Algebra.CanonicalTidy | hpsudoku_head.cpp:131-174 | sort keeps freed slots at 0 |
| Algebra.CanonicalUnique | hpsudoku_head.cpp:153-169 | two sorted lists of tidy terms with the same OR per signature are equal. The canonical form is determined by its content. |
| Algebra.ExpandEach | hpsudoku_head.cpp:59-60 | the loop of HEAD::expand keeps the length and expands term i |
| Algebra.ExpandListEliminates | hpsudoku_head.cpp:54-63 | after HEAD::expand(v) on terms naming distinct variables, no term mentions v or -v, and the terms still name distinct variables |
| Algebra.ExpandListKeepsAbsent | hpsudoku_head.cpp:54-63 | HEAD::expand never brings back a variable no term mentions |
| Algebra.ExpandListIdempotent | hpsudoku_head.cpp:54-63 | expanding twice by the same literal is expanding once |
| Algebra.ExpandListInRange | hpsudoku_head.cpp:54-63 | HEAD::expand keeps the range, and expanding by its lowest or highest variable removes that variable |
| Algebra.AddListOr | hpsudoku_head.cpp:81-90 | after +=, each signature carries the OR of both operands' coefficients |
| Algebra.Row | hpsudoku_head.cpp:100-102 | the inner loop of *= yields, in order, the product of p1 with each term of the other list |
| Algebra.MulListOr | hpsudoku_head.cpp:92-109 | after *=, each signature carries the OR of all pairwise products with that signature |
| Algebra.MulListCanonical | hpsudoku_head.cpp:92-109 | the result of *= is strictly sorted without zero coefficients |
| Algebra.MulListEmpty | hpsudoku_head.cpp:92-109 | *= yields the empty list when either operand is empty |
| Algebra.MulListIsCanonicalProducts | hpsudoku_head.cpp:92-109 | *= on tidy lists is exactly the canonical form of all pairwise products. Sorting row by row changes nothing. |
| Algebra.MulListInRange | hpsudoku_head.cpp:92-109 | *= on lists within a variable range stays within it |
| Algebra.ListValue | hpsudoku.h:210-216 | a non-zero value() is the coefficient of a first term without literals. An empty list, or one whose first term has literals, has value 0. |
| Algebra.ResidualValue | hpsudoku.h:210-216 | a sorted list without literals has at most one term, and its value is 0 exactly when it is empty |
| Algebra.ListCompareOrder | hpsudoku_head.cpp:176-190 | HEAD::compare is antisymmetric. It returns 0 exactly for lists of equal length with equal signatures and coefficients position by position. |
| Heads.MergeRun | hpsudoku_head.cpp:155-169 | the merge loop over the sorted array computes Merge |
| Heads.MergeStep | hpsudoku_head.cpp:156-164 | one iteration ORs into an equal-signature successor or keeps a non-zero term, and leaves the rest of the array alone |
| Heads.ToArray | hpsudoku_head.cpp:146-149 | the temporary `ELEM *` array holds the list's terms in order |
| Heads.Head.constructor | hpsudoku_head.cpp:31-34 | HEAD() is empty |
| Heads.Head.Clone | hpsudoku_head.cpp:36-44 | the copy constructor holds a sorted copy of each of the other's terms, in order |
| Heads.Head.InsertTail | hpsudoku.h:172-174 | insert_tail appends the term |
| Heads.Head.RemoveHead | hpsudoku.h:222-227 | remove_head returns the first term and leaves the rest in order. On an empty list it returns none and changes nothing. |
| Heads.Head.Count | hpsudoku.h:198-204 | count walks the list term by term and returns its length |
| Heads.Head.AppendCopies | hpsudoku_head.cpp:86-87 | the copy loop appends a sorted copy of each term, in order |
| Heads.Head.AddElem | hpsudoku.h:160-163 | += ELEM appends a copy without sorting the list |
| Heads.Head.Sort | hpsudoku_head.cpp:131-174 | HEAD::sort replaces the list with its canonical form |
| Heads.Head.SortTerms | hpsudoku_head.cpp:138-141 | the first loop puts every term in ELEM::sort normal form and counts the list |
| Heads.Head.Expand | hpsudoku_head.cpp:54-63 | HEAD::expand yields ExpandList of the old list |
| Heads.Head.Assign | hpsudoku_head.cpp:65-79 | operator= on itself changes nothing. Otherwise it replaces the list with copies of the other's terms. |
| Heads.Head.AddAssign | hpsudoku_head.cpp:81-90 | += appends copies, sorts, and leaves the other list unchanged |
| Heads.Head.Plus | hpsudoku.h:147-151 | operator+ returns a fresh copy of the other list with this one added |
| Heads.Head.PlusElem | hpsudoku.h:154-158 | operator+ ELEM returns a fresh copy with a copy of the term appended |
| Heads.Head.MoveTo | hpsudoku.h:188-196 | `to` holds exactly the source's former terms in order, and the source is empty. `to`'s old terms are discarded. Moving a list onto itself empties it. |
| Heads.Head.AppendRow | hpsudoku_head.cpp:100-102 | the inner loop appends Row(p1, other) |
| Heads.Head.AppendRows | hpsudoku_head.cpp:99-104 | the outer loop appends each row and sorts after each one |
| Heads.Head.MulAssign | hpsudoku_head.cpp:92-109 | *= replaces the list with MulList of the old operands |
| Heads.Head.Times | hpsudoku.h:165-169 | operator* returns a fresh copy of the other list multiplied by this one |
| Heads.Head.CompareTo | hpsudoku_head.cpp:176-190 | the lock-step walk of HEAD::compare computes ListCompare, whose order properties Algebra.ListCompareOrder states |
| Solver.BucketOf | hpsudoku.cpp:43-48 | a term goes to t if and only if it holds v; to f if and only if it holds -v but not v; otherwise to r |
| Solver.PickBucket | hpsudoku.cpp:42-49 | each bucket holds only terms of the head that belong there |
| Solver.PickPartition | hpsudoku.cpp:42-49 | the three buckets together hold exactly the head's terms, so every term lands in exactly one |
| Solver.Split | hpsudoku.cpp:38-49 | the partition loop drains the head into three fresh lists, each keeping the relative order |
| Solver.EliminateStep | hpsudoku.cpp:42-56 | one round sets head to r + (t * f) with t and f expanded, and returns the expanded t |
| Solver.FillForward | hpsudoku.cpp:35-57 | the first loop stores round x's residual in h_result[x] and leaves the head after num rounds |
| Solver.ForwardPass | hpsudoku.cpp:35-57 | the first loop of hpsudoku_solve, stated as Entry and HeadAfter |
| Solver.ExpandPrefix | hpsudoku.cpp:67-68 | the inner loop expands h_result[0..n) by the chosen literal and leaves the rest alone |
| Solver.BackRound | hpsudoku.cpp:60-68 | one pass of the second loop picks the sign from h_result[n].value() and expands it into the earlier entries |
| Solver.BackLoop | hpsudoku.cpp:59-69 | the second loop computes Back on h_result |
| Solver.BackwardPass | hpsudoku.cpp:59-69 | the second loop of hpsudoku_solve computes Backward of h_result |
| Solver.Solve | hpsudoku.cpp:31-72 | hpsudoku_solve fills v_result with Backward(Forward(...)). The head is left after num rounds, and nothing checks satisfiability. |
| Solver.EliminateInRange | hpsudoku.cpp:35-57 | a round on a head over [v, hi) leaves a head over [v + 1, hi) |
| Solver.EntryInRange | hpsudoku.cpp:35-57 | on a head over [vStart, hi): <br>• after x rounds the head mentions only variables from vStart + x on; <br>• h_result[x] mentions only variables from vStart + x + 1 on, and is strictly sorted without zero coefficients. |
| Solver.CollectedStaircase | hpsudoku.cpp:35-57 | on a head over [vStart, vStart + num), the forward pass leaves each h_result[i] strictly sorted without zeros and over the variables after vStart + i only |
| Solver.BackDecides | hpsudoku.cpp:59-65 | v_result[i] is decided by h_result[i] as it stands when the second loop reaches it |
| Solver.BackwardSigns | hpsudoku.cpp:59-65 | v_result[i] is ±(vStart + i), positive exactly when the consulted list's value is 0 |
| Solver.ConsultedEmptyRange | hpsudoku.cpp:59-69 | when the second loop consults h_result[i], every later variable has been expanded out of it. It has no literal left and is still strictly sorted without zeros. |
| Solver.SolveChooses | hpsudoku.cpp:59-69 | on rules over [vStart, vStart + num), each consulted h_result[i] is empty or one literal-free term. v_result[i] is vStart + i exactly when it is empty. |
| Sudoku.Variable | hpsudoku.cpp:74-79 | hpsudoku_variable is x·size² + y·size + z + 1: at least 1, and one more than the row-major flat index of result[x][y][z] |
| Sudoku.VariableIndex | hpsudoku.cpp:74-79 | the variable is one more than the flat index of result[x][y][z] |
| Sudoku.VariableRange | hpsudoku.cpp:74-79 | for coordinates below size, the variable lies in [1, size^3] |
| Sudoku.VariableInjective | hpsudoku.cpp:74-79 | for coordinates below size, equal variables mean equal coordinates, both directions |
| Sudoku.Digit | hpsudoku.cpp:100-114 | '1'..'9' give 1..9 and every other character 0 |
| Sudoku.SkipBlanks | hpsudoku.cpp:117-118 | the scan stops at the first non-blank position, having passed only spaces, tabs, CR and LF |
| Sudoku.ParseLine | hpsudoku.cpp:94-120 | line validation yields Parse: the map or the first error |
| Sudoku.ParseTooFew | hpsudoku.cpp:96-98 | "Too few numbers in line" if and only if a NUL lies among the first size^2 characters |
| Sudoku.ParseExtra | hpsudoku.cpp:117-120 | "Extra characters at end of line" if and only if the first non-blank character after them is not NUL |
| Sudoku.ParseDigits | hpsudoku.cpp:100-114 | on success the map has size^2 cells, each the digit of its character |
| Sudoku.BoxStartMod | hpsudoku.cpp:141-144 | `x - x % 3` is the first line of x's box |
| Sudoku.EmitValuePairs | hpsudoku.cpp:128-133 | the t loop appends its value rules |
| Sudoku.EmitValueCell | hpsudoku.cpp:127-134 | the z loop appends its value rules |
| Sudoku.EmitValueRow | hpsudoku.cpp:126-135 | the y loop appends its value rules |
| Sudoku.EmitValueRules | hpsudoku.cpp:125-136 | the value-rule loops append Emitted(ValueX) |
| Sudoku.EmitBoxPeers | hpsudoku.cpp:149-159 | the t loop appends its box rules, skipping the cell itself |
| Sudoku.EmitBoxCell | hpsudoku.cpp:146-160 | the z loop appends its box rules |
| Sudoku.EmitBoxRow | hpsudoku.cpp:143-161 | the y loop appends its box rules |
| Sudoku.EmitBoxValue | hpsudoku.cpp:140-162 | the x loop appends its box rules |
| Sudoku.EmitBoxRules | hpsudoku.cpp:139-163 | the box-rule loops append Emitted(BoxU) |
| Sudoku.EmitLinePairs | hpsudoku.cpp:169-179 | the t loop appends a row rule and a column rule per other line |
| Sudoku.EmitLineRow | hpsudoku.cpp:168-180 | the y loop appends its line rules |
| Sudoku.EmitLineValue | hpsudoku.cpp:167-181 | the x loop appends its line rules |
| Sudoku.EmitLineRules | hpsudoku.cpp:166-182 | the line-rule loops append Emitted(LineU) |
| Sudoku.RuleShape | hpsudoku.cpp:130-132 | ELEM(1, a, b) on two distinct variables in range is a well-formed rule naming exactly a and b |
| Sudoku.GridRule | hpsudoku.cpp:130-132 | the rule between two different grid points is well formed |
| Sudoku.BoxInside | hpsudoku.cpp:141-150 | for a size that is a multiple of 3, every box lies inside the grid |
| Sudoku.RulesShape | hpsudoku.cpp:124-182 | for a size that is a multiple of 3, every emitted rule has coefficient 1 and two distinct positive variables in increasing order in [1, size^3] |
| Sudoku.RulesInRange | hpsudoku.cpp:124-182 | for a size that is a multiple of 3, the rules lie in the variable range [1, size^3] |
| Sudoku.RulesDistinct | hpsudoku.cpp:124-182 | for a size that is a multiple of 3, every rule names two different variables |
| Sudoku.FoldAppend | hpsudoku.cpp:184-195 | expanding by a + b is expanding by a, then by b |
| Sudoku.ExpandStep | hpsudoku.cpp:190-192 | one call of head.expand |
| Sudoku.ExpandCell | hpsudoku.cpp:189-193 | the z loop expands by each value's literal of the cell |
| Sudoku.ExpandGivenRow | hpsudoku.cpp:186-194 | the y loop expands by the literals of each cell that holds a digit, skipping blanks |
| Sudoku.ExpandGivenRows | hpsudoku.cpp:185-195 | the x loop expands by every literal of the grid |
| Sudoku.ExpandGivens | hpsudoku.cpp:184-195 | the given-value loops expand the head by Givens, in order |
| Sudoku.GivensCover | hpsudoku.cpp:185-195 | for a cell holding a digit, each value's literal is among those the head is expanded by, and it names that value's variable. The literal is positive for the digit and negative for the others. |
| Sudoku.ExpandByInRange | hpsudoku.cpp:184-195 | the expansion keeps the variable range |
| Sudoku.FoldEliminates | hpsudoku.cpp:184-195 | after expanding by a list of literals no term mentions any of them, and the terms still name distinct variables |
| Sudoku.CanonicalSettled | hpsudoku.cpp:197-198 | the final sort keeps the terms naming distinct variables and brings back no eliminated variable |
| Sudoku.BuildHead | hpsudoku.cpp:122-198 | the rules emitted into an empty list, expanded by the givens and sorted, give Encode |
| Sudoku.EncodeInRange | hpsudoku.cpp:122-200 | for a size that is a multiple of 3, the solver is given only the variables 1 .. size^3 |
| Sudoku.EncodeSettlesGivens | hpsudoku.cpp:184-198 | for a size that is a multiple of 3, no term handed to the solver mentions a variable of a given cell, and every term names distinct variables |
| Sudoku.ScanCounts | hpsudoku.cpp:207-213 | the scan of a blank cell reports: <br>• a second positive slot exactly when two or more slots are positive; <br>• nothing exactly when no slot is; <br>• otherwise the digit of the only positive slot. |
| Sudoku.ScanSlots | hpsudoku.cpp:207-213 | the z loop of the decoder computes Scan |
| Sudoku.DecodeRow | hpsudoku.cpp:204-216 | the y loop fills the row's blank cells, or fails at a cell with no positive slot or several, and leaves other rows alone |
| Sudoku.Decode | hpsudoku.cpp:202-217 | the decoding loops compute DecodeGrid |
| Sudoku.CellValueMeaning | hpsudoku.cpp:205-216 | a given digit is kept. A blank cell fails exactly when it has no positive slot or several. Otherwise it takes the digit of its only positive slot. |
| Sudoku.DecodeGridMeaning | hpsudoku.cpp:202-217 | "Unsolvable" exactly when some blank cell has no positive slot or several. Otherwise the given digits are kept and each blank holds the digit of its only positive slot. |
| Sudoku.Read | hpsudoku.cpp:82-217 | hpsudoku_read without printing computes ReadSpec: parse, encode, solve over 1 .. size^3, decode |
| Sudoku.ReadOutcome | hpsudoku.cpp:82-217 | for a size that is a multiple of 3: <br>• a malformed line gives its error; <br>• slot i of the result is ±(i + 1), positive exactly when the list consulted for it is empty; <br>• "Unsolvable" exactly when a blank cell has no positive slot or several; <br>• otherwise givens are kept and each blank holds a digit in 1..size. |

## Left out

- Printing (`ELEM::print`, `HEAD::print`, the grid printer of hpsudoku_read) and `main`'s `getchar` loop with its 255-character buffer: input and output only. The line is a parameter of `Sudoku.Read`.
- The `printf("ERROR\n")` in ELEM::operator*=: a diagnostic on standard output. Only its `value = 0` effect is modelled.
- The process exits of `errx`: each becomes a `Failure` value of `Sudoku.Error`.
- `new`/`delete`, the `STAILQ` links and `foreach`: a list is a sequence, and an ELEM is a value, because every HEAD operation copies terms. The temporary `ELEM *` array of HEAD::sort is an `array<Elem>`.
- `insert_head`, `first`, `last`, `isConst` and the `<`, `==`, ... operators (one-line wrappers around `compare`): the core never calls them, except `first` inside `value`, which `Algebra.ListValue` models.
- The unused constructor `ELEM(uint8_t)`: it leaves the slots uninitialised and nothing calls it.
- ELEM::operator= on itself (its early return): terms are values here, so a term cannot be assigned to itself.
- libc `mergesort`: modelled by a stable insertion sort by signature (`Formulas.SortByKey`), proved sorted and a permutation. The source's merge loop then runs on its result.
- `h_result`: modelled as an `array<seq<Elem>>`, not an array of HEAD objects. `v_result` is an `array<int>`, and `result[size][size][size]` is read as a flat sequence.
- Semantic soundness of the elimination: the code neither checks nor promises that the chosen signs satisfy the rules, and it discards the final head. The model proves only what the code computes.
- Integer widths: `size_t` and `ssize_t` are unbounded integers. The grid sizes the program uses (9) stay far below any overflow. `uint8_t value` is a `bv8`.
- Heads.Head.AddAssign: requires `other != this || elems == []`. Adding a non-empty list to itself walks a list that grows as it is walked, which never ends (hpsudoku_head.cpp:86-87). An empty list added to itself is allowed. The only caller of `HEAD += HEAD` is `operator+` at hpsudoku.h:146-150, which adds to a fresh copy `temp`, never to the operand itself.
- Solver.EntryInRange: stated for heads whose variables all lie in [vStart, hi), which is what hpsudoku_read hands over. It is not stated for every head that merely lacks a variable paired with its negation.
- Solver.SolveChooses: the same range assumption. It says what each consulted list looks like, not that the assignment is a solution.
- Sudoku.RulesShape: only for sizes that are multiples of 3. For other sizes the box loops reach coordinates outside the grid. The program only uses size 9.
- Sudoku.RulesInRange: the same multiple-of-3 assumption as Sudoku.RulesShape.
- Sudoku.RulesDistinct: the same multiple-of-3 assumption.
- Sudoku.EncodeInRange: the same multiple-of-3 assumption.
- Sudoku.EncodeSettlesGivens: the same multiple-of-3 assumption.
- Sudoku.ReadOutcome: the same multiple-of-3 assumption, inherited from Sudoku.RulesShape.
