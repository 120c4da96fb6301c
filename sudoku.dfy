/**
 * The Sudoku encoder around the solver (hpsudoku.cpp): the numbering of the
 * cell variables, the validation of one input line, the 2-SAT rules, the
 * expansion of the given digits, and the decoding of the solver's answer.
 *
 * A grid of side `size` has one variable per cell (x, y) and value z, all
 * three below `size`. The cell map is a flat sequence of `size * size`
 * digits (0 for an empty cell), the solver's answer a flat sequence of
 * `size * size * size` signed variables.
 */
module Sudoku {
  import opened Wrappers
  import opened Terms
  import opened Formulas
  import opened Algebra
  import opened Heads
  import opened Solver

  /** The three `errx` exits of hpsudoku_read. */
  datatype Error = TooFewNumbers | ExtraCharacters | Unsolvable

  // ---------------------------------------------------------------------
  // Cell variables (hpsudoku.cpp:74-79)

  /** hpsudoku_variable: the variable "cell (x, y) holds value z + 1". */
  function Variable(size: nat, x: nat, y: nat, z: nat): (r: int)
    ensures r >= 1
    ensures r - 1 == (x * size + y) * size + z
  {
    x * size * size + y * size + z + 1
  }

  /** The variable of (x, y, z) is one more than the flat index of
      result[x][y][z], and the flat index of map[x][y] is x * size + y. */
  lemma VariableIndex(size: nat, x: nat, y: nat, z: nat)
    ensures Variable(size, x, y, z) == (x * size + y) * size + z + 1
  {
  }

  lemma MulMono(a: nat, b: nat, n: nat)
    requires a <= b
    ensures a * n <= b * n
  {
  }

  /** Two numbers written with the same base `n` and last digits below `n`
      agree in both parts. */
  lemma PlaceValue(a: nat, b: nat, c: nat, d: nat, n: nat)
    requires b < n && d < n && a * n + b == c * n + d
    ensures a == c && b == d
  {
    if a < c {
      MulMono(a + 1, c, n);
    } else if c < a {
      MulMono(c + 1, a, n);
    }
  }

  /** A flat cell index lies within the map, and its slots within the result. */
  lemma CellIndex(size: nat, x: nat, y: nat, z: nat)
    requires x < size && y < size && z < size
    ensures x * size + y < size * size
    ensures (x * size + y) * size + z < size * size * size
  {
    MulMono(x + 1, size, size);
    MulMono(x * size + y + 1, size * size, size);
  }

  /** For coordinates below `size`, the variable lies in [1, size^3]. */
  lemma VariableRange(size: nat, x: nat, y: nat, z: nat)
    requires x < size && y < size && z < size
    ensures 1 <= Variable(size, x, y, z) <= size * size * size
  {
    CellIndex(size, x, y, z);
    MulMono(0, x * size + y, size);
    VariableIndex(size, x, y, z);
  }

  /** For coordinates below `size`, distinct cells or values get distinct
      variables. */
  lemma VariableInjective(size: nat, x: nat, y: nat, z: nat, x': nat, y': nat, z': nat)
    requires x < size && y < size && z < size
    requires x' < size && y' < size && z' < size
    ensures Variable(size, x, y, z) == Variable(size, x', y', z') <==> x == x' && y == y' && z == z'
  {
    if Variable(size, x, y, z) == Variable(size, x', y', z') {
      SameVariable(size, x, y, z, x', y', z');
    }
  }

  lemma SameVariable(size: nat, x: nat, y: nat, z: nat, x': nat, y': nat, z': nat)
    requires y < size && z < size && y' < size && z' < size
    requires Variable(size, x, y, z) == Variable(size, x', y', z')
    ensures x == x' && y == y' && z == z'
  {
    var a, a' := x * size + y, x' * size + y';
    VariableIndex(size, x, y, z);
    VariableIndex(size, x', y', z');
    PlaceValue(a, z, a', z', size);
    PlaceValue(x, y, x', y', size);
  }

  // ---------------------------------------------------------------------
  // Line validation (hpsudoku.cpp:94-120)

  /** ptr[i] of the NUL-terminated line whose characters are `line`: past the
      end, the terminator. */
  function At(line: seq<char>, i: int): char
  {
    if 0 <= i < |line| then line[i] else '\0'
  }

  /** The characters the line may end with. */
  predicate Blank(c: char)
  {
    c == ' ' || c == '\t' || c == '\r' || c == '\n'
  }

  /** '1' to '9' give their digit, every other character an empty cell. */
  function Digit(c: char): (d: int)
    ensures 0 <= d <= 9
    ensures d != 0 <==> '1' <= c <= '9'
    ensures '1' <= c <= '9' ==> d == c as int - '0' as int
  {
    if '1' <= c <= '9' then c as int - '0' as int else 0
  }

  /** The first position at or after `x` whose character is not blank. */
  function SkipBlanks(line: seq<char>, x: nat): (r: nat)
    ensures x <= r && !Blank(At(line, r))
    ensures forall k :: x <= k < r ==> Blank(At(line, k))
    decreases |line| - x
  {
    if Blank(At(line, x)) then SkipBlanks(line, x + 1) else x
  }

  /** What validating a line yields: the cell map, or the first error. */
  ghost function Parse(size: nat, line: seq<char>): Result<seq<int>, Error>
  {
    var n := size * size;
    if exists i :: 0 <= i < n && At(line, i) == '\0' then Failure(TooFewNumbers)
    else if At(line, SkipBlanks(line, n)) != '\0' then Failure(ExtraCharacters)
    else Success(seq(n, i => Digit(At(line, i))))
  }

  /** The first half of hpsudoku_read: the zeroed map filled from the first
      `size * size` characters, then the tail checked. */
  method ParseLine(size: nat, line: seq<char>) returns (r: Result<seq<int>, Error>)
    ensures r == Parse(size, line)
  {
    var n := size * size;
    var grid := new int[n](_ => 0);
    var x := 0;
    while x != n
      invariant x <= n
      invariant forall i :: 0 <= i < x ==> At(line, i) != '\0' && grid[i] == Digit(At(line, i))
      invariant forall i :: x <= i < n ==> grid[i] == 0
    {
      if At(line, x) == '\0' {
        return Failure(TooFewNumbers);
      }
      var c := line[x];
      if '1' <= c <= '9' {
        grid[x] := c as int - '0' as int;
      }
      x := x + 1;
    }
    assert n == 0 || At(line, n - 1) != '\0';
    while Blank(At(line, x))
      invariant n <= x <= |line|
      invariant SkipBlanks(line, x) == SkipBlanks(line, n)
      decreases |line| - x
    {
      x := x + 1;
    }
    if At(line, x) != '\0' {
      return Failure(ExtraCharacters);
    }
    assert grid[..] == seq(n, i => Digit(At(line, i)));
    r := Success(grid[..]);
  }

  /** A terminator among the first `size * size` characters is "Too few
      numbers in line". */
  lemma ParseTooFew(size: nat, line: seq<char>)
    ensures Parse(size, line) == Failure(TooFewNumbers) <==>
      exists i :: 0 <= i < size * size && At(line, i) == '\0'
  {
  }

  /** Otherwise, a first non-blank character after them that is not the
      terminator is "Extra characters at end of line". */
  lemma ParseExtra(size: nat, line: seq<char>)
    ensures Parse(size, line) == Failure(ExtraCharacters) <==>
      (forall i :: 0 <= i < size * size ==> At(line, i) != '\0') &&
      exists j :: size * size <= j < |line| && !Blank(line[j]) && line[j] != '\0' &&
                  forall k :: size * size <= k < j ==> Blank(At(line, k))
  {
    var n := size * size;
    var r := SkipBlanks(line, n);
    if At(line, r) != '\0' {
      assert r < |line| && !Blank(line[r]) && line[r] != '\0';
    }
    forall j | n <= j < |line| && !Blank(line[j]) && line[j] != '\0' &&
               (forall k :: n <= k < j ==> Blank(At(line, k)))
      ensures j == r
    {
      assert At(line, j) == line[j];
    }
  }

  /** Otherwise the map holds the digit of each of the first `size * size`
      characters, all of which are present. */
  lemma ParseDigits(size: nat, line: seq<char>)
    ensures Parse(size, line).Success? ==>
      |Parse(size, line).value| == size * size <= |line| &&
      forall i :: 0 <= i < size * size ==> Parse(size, line).value[i] == Digit(line[i])
  {
    var n := size * size;
    if Parse(size, line).Success? {
      assert n == 0 || At(line, n - 1) != '\0';
    }
  }


  // ---------------------------------------------------------------------
  // Rule emission (hpsudoku.cpp:122-182)

  /** ELEM(1, a, b): the rule that variables a and b do not both hold. */
  function Rule(a: int, b: int): Elem
  {
    Pair(1, a, b)
  }

  /** The first row (or column) of the 3x3 box holding row (or column) x. */
  function BoxStart(x: nat): nat
  {
    if x < 3 then 0 else BoxStart(x - 3) + 3
  }

  /** `x - x % 3` is the first line of x's box. */
  lemma {:induction false} BoxStartMod(x: nat)
    ensures BoxStart(x) == x - x % 3
  {
    if x >= 3 {
      BoxStartMod(x - 3);
    }
  }

  /** One of the nested loops of hpsudoku.cpp:124-182 that append rules,
      with the indices of the loops around it. Each loop counts from
      `Start` up to `End`. */
  datatype Loop =
    | ValueX(size: nat)
    | ValueY(size: nat, x: nat)
    | ValueZ(size: nat, x: nat, y: nat)
    | ValueT(size: nat, x: nat, y: nat, z: nat)
    | BoxU(size: nat)
    | BoxX(size: nat, u: nat)
    | BoxY(size: nat, u: nat, x: nat)
    | BoxZ(size: nat, u: nat, x: nat, y: nat)
    | BoxT(size: nat, u: nat, x: nat, y: nat, z: nat)
    | LineU(size: nat)
    | LineX(size: nat, u: nat)
    | LineY(size: nat, u: nat, x: nat)
    | LineT(size: nat, u: nat, x: nat, y: nat)

  /** How many loops the loop holds, itself included. */
  function Depth(l: Loop): nat
  {
    match l
    case ValueX(_) => 4
    case ValueY(_, _) => 3
    case ValueZ(_, _, _) => 2
    case ValueT(_, _, _, _) => 1
    case BoxU(_) => 5
    case BoxX(_, _) => 4
    case BoxY(_, _, _) => 3
    case BoxZ(_, _, _, _) => 2
    case BoxT(_, _, _, _, _) => 1
    case LineU(_) => 4
    case LineX(_, _) => 3
    case LineY(_, _, _) => 2
    case LineT(_, _, _, _) => 1
  }

  /** The first index of the loop: `t = z + 1` for the value pairs, 0 otherwise. */
  function Start(l: Loop): nat
  {
    if l.ValueT? then l.z + 1 else 0
  }

  /** The bound of the loop: 3 for the two loops over a box, `size` otherwise. */
  function End(l: Loop): nat
  {
    if l.BoxZ? || l.BoxT? then 3 else l.size
  }

  /** The rules the iterations Start(l) .. hi - 1 of loop `l` append. */
  function Emitted(l: Loop, hi: nat): seq<Elem>
    decreases Depth(l), 1, hi
  {
    if hi <= Start(l) then [] else Emitted(l, hi - 1) + Step(l, hi - 1)
  }

  /** The rules iteration `i` of loop `l` appends: the whole inner loop, or,
      in an innermost loop, the rules of one pair of variables. */
  function Step(l: Loop, i: nat): seq<Elem>
    decreases Depth(l), 0
  {
    match l
    case ValueX(size) => Emitted(ValueY(size, i), size)
    case ValueY(size, x) => Emitted(ValueZ(size, x, i), size)
    case ValueZ(size, x, y) => Emitted(ValueT(size, x, y, i), size)
    case ValueT(size, x, y, z) =>
      [Rule(Variable(size, x, y, z), Variable(size, x, y, i))]
    case BoxU(size) => Emitted(BoxX(size, i), size)
    case BoxX(size, u) => Emitted(BoxY(size, u, i), size)
    case BoxY(size, u, x) => Emitted(BoxZ(size, u, x, i), 3)
    case BoxZ(size, u, x, y) => Emitted(BoxT(size, u, x, y, i), 3)
    case BoxT(size, u, x, y, z) =>
      var c, d := BoxStart(x) + z, BoxStart(y) + i;
      if c == x && d == y then [] else [Rule(Variable(size, x, y, u), Variable(size, c, d, u))]
    case LineU(size) => Emitted(LineX(size, i), size)
    case LineX(size, u) => Emitted(LineY(size, u, i), size)
    case LineY(size, u, x) => Emitted(LineT(size, u, x, i), size)
    case LineT(size, u, x, y) =>
      if i == x then []
      else [Rule(Variable(size, x, y, u), Variable(size, i, y, u)),
            Rule(Variable(size, y, x, u), Variable(size, y, i, u))]
  }

  /** Every rule hpsudoku_read emits, in order: one value per cell
      (hpsudoku.cpp:124-136), each value once per 3x3 box (138-163), each
      value once per row and per column (165-182). */
  function Rules(size: nat): seq<Elem>
  {
    Emitted(ValueX(size), size) + Emitted(BoxU(size), size) + Emitted(LineU(size), size)
  }

  /** The t loop of hpsudoku.cpp:128-133. */
  method EmitValuePairs(head: Head, size: nat, x: nat, y: nat, z: nat)
    requires z < size
    modifies head
    ensures head.elems == old(head.elems) + Emitted(ValueT(size, x, y, z), size)
  {
    var t := z + 1;
    while t != size
      invariant z + 1 <= t <= size
      invariant head.elems == old(head.elems) + Emitted(ValueT(size, x, y, z), t)
    {
      head.InsertTail(Rule(Variable(size, x, y, z), Variable(size, x, y, t)));
      t := t + 1;
    }
  }

  /** The z loop of hpsudoku.cpp:127-134. */
  method EmitValueCell(head: Head, size: nat, x: nat, y: nat)
    modifies head
    ensures head.elems == old(head.elems) + Emitted(ValueZ(size, x, y), size)
  {
    var z := 0;
    while z != size
      invariant z <= size
      invariant head.elems == old(head.elems) + Emitted(ValueZ(size, x, y), z)
    {
      EmitValuePairs(head, size, x, y, z);
      z := z + 1;
    }
  }

  /** The y loop of hpsudoku.cpp:126-135. */
  method EmitValueRow(head: Head, size: nat, x: nat)
    modifies head
    ensures head.elems == old(head.elems) + Emitted(ValueY(size, x), size)
  {
    var y := 0;
    while y != size
      invariant y <= size
      invariant head.elems == old(head.elems) + Emitted(ValueY(size, x), y)
    {
      EmitValueCell(head, size, x, y);
      y := y + 1;
    }
  }

  /** The x loop of hpsudoku.cpp:125-136. */
  method EmitValueRules(head: Head, size: nat)
    modifies head
    ensures head.elems == old(head.elems) + Emitted(ValueX(size), size)
  {
    var x := 0;
    while x != size
      invariant x <= size
      invariant head.elems == old(head.elems) + Emitted(ValueX(size), x)
    {
      EmitValueRow(head, size, x);
      x := x + 1;
    }
  }

  /** The t loop of hpsudoku.cpp:149-159, for c = a + z and the first
      column b of the box. */
  method EmitBoxPeers(head: Head, size: nat, u: nat, x: nat, y: nat, z: nat, c: nat, b: nat)
    requires c == BoxStart(x) + z && b == BoxStart(y)
    modifies head
    ensures head.elems == old(head.elems) + Emitted(BoxT(size, u, x, y, z), 3)
  {
    var t := 0;
    while t != 3
      invariant t <= 3
      invariant head.elems == old(head.elems) + Emitted(BoxT(size, u, x, y, z), t)
    {
      var d := b + t;
      BoxPeerNext(size, u, x, y, z, t);
      if !(c == x && d == y) {
        head.InsertTail(Rule(Variable(size, x, y, u), Variable(size, c, d, u)));
      }
      t := t + 1;
    }
  }

  /** One iteration of the t loop of hpsudoku.cpp:149-159. */
  lemma BoxPeerNext(size: nat, u: nat, x: nat, y: nat, z: nat, t: nat)
    ensures var c, d := BoxStart(x) + z, BoxStart(y) + t;
      Emitted(BoxT(size, u, x, y, z), t + 1) == Emitted(BoxT(size, u, x, y, z), t) +
        if c == x && d == y then [] else [Rule(Variable(size, x, y, u), Variable(size, c, d, u))]
  {
  }

  /** The z loop of hpsudoku.cpp:146-160; `a` and `b` are the first row
      and column of the cell's box. */
  method EmitBoxCell(head: Head, size: nat, u: nat, x: nat, y: nat, a: nat, b: nat)
    requires a == BoxStart(x) && b == BoxStart(y)
    modifies head
    ensures head.elems == old(head.elems) + Emitted(BoxZ(size, u, x, y), 3)
  {
    var z := 0;
    while z != 3
      invariant z <= 3
      invariant head.elems == old(head.elems) + Emitted(BoxZ(size, u, x, y), z)
    {
      EmitBoxPeers(head, size, u, x, y, z, a + z, b);
      z := z + 1;
    }
  }

  /** The y loop of hpsudoku.cpp:143-161; `a` is the first row of the
      box of row x. */
  method EmitBoxRow(head: Head, size: nat, u: nat, x: nat, a: nat)
    requires a == BoxStart(x)
    modifies head
    ensures head.elems == old(head.elems) + Emitted(BoxY(size, u, x), size)
  {
    var y := 0;
    while y != size
      invariant y <= size
      invariant head.elems == old(head.elems) + Emitted(BoxY(size, u, x), y)
    {
      var b := y - y % 3;
      BoxStartMod(y);
      EmitBoxCell(head, size, u, x, y, a, b);
      y := y + 1;
    }
  }

  /** The x loop of hpsudoku.cpp:140-162. */
  method EmitBoxValue(head: Head, size: nat, u: nat)
    modifies head
    ensures head.elems == old(head.elems) + Emitted(BoxX(size, u), size)
  {
    var x := 0;
    while x != size
      invariant x <= size
      invariant head.elems == old(head.elems) + Emitted(BoxX(size, u), x)
    {
      var a := x - x % 3;
      BoxStartMod(x);
      EmitBoxRow(head, size, u, x, a);
      x := x + 1;
    }
  }

  /** The u loop of hpsudoku.cpp:139-163. */
  method EmitBoxRules(head: Head, size: nat)
    modifies head
    ensures head.elems == old(head.elems) + Emitted(BoxU(size), size)
  {
    var u := 0;
    while u != size
      invariant u <= size
      invariant head.elems == old(head.elems) + Emitted(BoxU(size), u)
    {
      EmitBoxValue(head, size, u);
      u := u + 1;
    }
  }

  /** The t loop of hpsudoku.cpp:169-179. */
  method EmitLinePairs(head: Head, size: nat, u: nat, x: nat, y: nat)
    modifies head
    ensures head.elems == old(head.elems) + Emitted(LineT(size, u, x, y), size)
  {
    var t := 0;
    while t != size
      invariant t <= size
      invariant head.elems == old(head.elems) + Emitted(LineT(size, u, x, y), t)
    {
      if t != x {
        head.InsertTail(Rule(Variable(size, x, y, u), Variable(size, t, y, u)));
        head.InsertTail(Rule(Variable(size, y, x, u), Variable(size, y, t, u)));
      }
      t := t + 1;
    }
  }

  /** The y loop of hpsudoku.cpp:168-180. */
  method EmitLineRow(head: Head, size: nat, u: nat, x: nat)
    modifies head
    ensures head.elems == old(head.elems) + Emitted(LineY(size, u, x), size)
  {
    var y := 0;
    while y != size
      invariant y <= size
      invariant head.elems == old(head.elems) + Emitted(LineY(size, u, x), y)
    {
      EmitLinePairs(head, size, u, x, y);
      y := y + 1;
    }
  }

  /** The x loop of hpsudoku.cpp:167-181. */
  method EmitLineValue(head: Head, size: nat, u: nat)
    modifies head
    ensures head.elems == old(head.elems) + Emitted(LineX(size, u), size)
  {
    var x := 0;
    while x != size
      invariant x <= size
      invariant head.elems == old(head.elems) + Emitted(LineX(size, u), x)
    {
      EmitLineRow(head, size, u, x);
      x := x + 1;
    }
  }

  /** The u loop of hpsudoku.cpp:166-182. */
  method EmitLineRules(head: Head, size: nat)
    modifies head
    ensures head.elems == old(head.elems) + Emitted(LineU(size), size)
  {
    var u := 0;
    while u != size
      invariant u <= size
      invariant head.elems == old(head.elems) + Emitted(LineU(size), u)
    {
      EmitLineValue(head, size, u);
      u := u + 1;
    }
  }

  // ---------------------------------------------------------------------
  // The shape of the rules

  /** The indices a loop carries are coordinates of the grid, and the box
      offset of the t loop is below 3. */
  predicate InGrid(l: Loop)
  {
    match l
    case ValueX(size) => true
    case ValueY(size, x) => x < size
    case ValueZ(size, x, y) => x < size && y < size
    case ValueT(size, x, y, z) => x < size && y < size && z < size
    case BoxU(size) => true
    case BoxX(size, u) => u < size
    case BoxY(size, u, x) => u < size && x < size
    case BoxZ(size, u, x, y) => u < size && x < size && y < size
    case BoxT(size, u, x, y, z) => u < size && x < size && y < size && z < 3
    case LineU(size) => true
    case LineX(size, u) => u < size
    case LineY(size, u, x) => u < size && x < size
    case LineT(size, u, x, y) => u < size && x < size && y < size
  }

  /** A rule as the encoder means it: coefficient 1 and two distinct
      positive variables of the grid, in increasing order. */
  predicate WellFormedRule(size: nat, e: Elem)
  {
    e.value == 1 && e.nvar == 2 && 1 <= e.var0 < e.var1 <= size * size * size
  }

  /** The rule of two distinct variables of the grid is well formed and
      names exactly those two. */
  lemma RuleShape(size: nat, a: int, b: int)
    requires 1 <= a <= size * size * size && 1 <= b <= size * size * size && a != b
    ensures WellFormedRule(size, Rule(a, b)) && Live(Rule(a, b)) == {a, b}
  {
    var r := Rule(a, b);
    assert r.var0 in Live(r) && r.var1 in Live(r);
  }

  /** The rule between (x, y, z) and (x', y', z'), two different points of
      the grid, is well formed. */
  lemma GridRule(size: nat, x: nat, y: nat, z: nat, x': nat, y': nat, z': nat)
    requires x < size && y < size && z < size && x' < size && y' < size && z' < size
    requires x != x' || y != y' || z != z'
    ensures WellFormedRule(size, Rule(Variable(size, x, y, z), Variable(size, x', y', z')))
  {
    VariableRange(size, x, y, z);
    VariableRange(size, x', y', z');
    VariableInjective(size, x, y, z, x', y', z');
    RuleShape(size, Variable(size, x, y, z), Variable(size, x', y', z'));
  }

  /** When `size` is a multiple of 3, every box lies inside the grid. */
  lemma {:induction false} BoxInside(x: nat, size: nat)
    requires x < size && size % 3 == 0
    ensures BoxStart(x) + 3 <= size
  {
    if x >= 3 {
      BoxInside(x - 3, size - 3);
    }
  }

  lemma {:induction false} EmittedShape(l: Loop, hi: nat)
    requires l.size % 3 == 0 && InGrid(l) && hi <= End(l)
    ensures forall e :: e in Emitted(l, hi) ==> WellFormedRule(l.size, e)
    decreases Depth(l), 1, hi
  {
    if hi > Start(l) {
      EmittedShape(l, hi - 1);
      StepShape(l, hi - 1);
    }
  }

  lemma {:induction false} StepShape(l: Loop, i: nat)
    requires l.size % 3 == 0 && InGrid(l) && Start(l) <= i < End(l)
    ensures forall e :: e in Step(l, i) ==> WellFormedRule(l.size, e)
    decreases Depth(l), 0
  {
    match l
    case ValueX(size) => EmittedShape(ValueY(size, i), size);
    case ValueY(size, x) => EmittedShape(ValueZ(size, x, i), size);
    case ValueZ(size, x, y) => EmittedShape(ValueT(size, x, y, i), size);
    case ValueT(size, x, y, z) => GridRule(size, x, y, z, x, y, i);
    case BoxU(size) => EmittedShape(BoxX(size, i), size);
    case BoxX(size, u) => EmittedShape(BoxY(size, u, i), size);
    case BoxY(size, u, x) => EmittedShape(BoxZ(size, u, x, i), 3);
    case BoxZ(size, u, x, y) => EmittedShape(BoxT(size, u, x, y, i), 3);
    case BoxT(size, u, x, y, z) => BoxPeerShape(size, u, x, y, z, i);
    case LineU(size) => EmittedShape(LineX(size, i), size);
    case LineX(size, u) => EmittedShape(LineY(size, u, i), size);
    case LineY(size, u, x) => EmittedShape(LineT(size, u, x, i), size);
    case LineT(size, u, x, y) => LinePairShape(size, u, x, y, i);
  }

  lemma BoxPeerShape(size: nat, u: nat, x: nat, y: nat, z: nat, t: nat)
    requires size % 3 == 0 && u < size && x < size && y < size && z < 3 && t < 3
    ensures forall e :: e in Step(BoxT(size, u, x, y, z), t) ==> WellFormedRule(size, e)
  {
    BoxInside(x, size);
    BoxInside(y, size);
    var c, d := BoxStart(x) + z, BoxStart(y) + t;
    if !(c == x && d == y) {
      GridRule(size, x, y, u, c, d, u);
    }
  }

  lemma LinePairShape(size: nat, u: nat, x: nat, y: nat, t: nat)
    requires u < size && x < size && y < size && t < size
    ensures forall e :: e in Step(LineT(size, u, x, y), t) ==> WellFormedRule(size, e)
  {
    if t != x {
      GridRule(size, x, y, u, t, y, u);
      GridRule(size, y, x, u, y, t, u);
    }
  }

  /** When `size` is a multiple of 3, every emitted rule has coefficient 1
      and two distinct positive variables in [1, size^3]. */
  lemma RulesShape(size: nat)
    requires size % 3 == 0
    ensures forall e :: e in Rules(size) ==> WellFormedRule(size, e)
  {
    EmittedShape(ValueX(size), size);
    EmittedShape(BoxU(size), size);
    EmittedShape(LineU(size), size);
  }

  /** Hence the rules lie in the variable range [1, size^3 + 1). */
  lemma RulesInRange(size: nat)
    requires size % 3 == 0
    ensures AllInRange(Rules(size), 1, size * size * size + 1)
  {
    RulesShape(size);
    forall i | 0 <= i < |Rules(size)| ensures InRange(Rules(size)[i], 1, size * size * size + 1) {
      var e := Rules(size)[i];
      assert e in Rules(size);
      assert Live(e) == {e.var0, e.var1};
    }
  }

  // ---------------------------------------------------------------------
  // Given digits (hpsudoku.cpp:184-195)

  /** map[x][y], read from the flat map. */
  function GivenAt(size: nat, grid: seq<int>, x: nat, y: nat): int
  {
    if x * size + y < |grid| then grid[x * size + y] else 0
  }

  /** The literal expanded for value z of cell (x, y): the variable itself
      for the cell's digit, its negation for every other value. */
  function GivenLit(size: nat, grid: seq<int>, x: nat, y: nat, z: nat): int
  {
    if z + 1 == GivenAt(size, grid, x, y) then Variable(size, x, y, z) else -Variable(size, x, y, z)
  }

  /** One of the three nested loops of hpsudoku.cpp:185-195, with the
      indices of the loops around it. */
  datatype GivenLoop =
    | GivenX(size: nat, grid: seq<int>)
    | GivenY(size: nat, grid: seq<int>, x: nat)
    | GivenZ(size: nat, grid: seq<int>, x: nat, y: nat)

  function GivenDepth(l: GivenLoop): nat
  {
    match l
    case GivenX(_, _) => 3
    case GivenY(_, _, _) => 2
    case GivenZ(_, _, _, _) => 1
  }

  /** The literals the iterations 0 .. hi - 1 of loop `l` expand by. */
  function Lits(l: GivenLoop, hi: nat): seq<int>
    decreases GivenDepth(l), 1, hi
  {
    if hi == 0 then [] else Lits(l, hi - 1) + LitStep(l, hi - 1)
  }

  /** The literals iteration `i` of loop `l` expands by; an empty cell is
      skipped. */
  function LitStep(l: GivenLoop, i: nat): seq<int>
    decreases GivenDepth(l), 0
  {
    match l
    case GivenX(size, grid) => Lits(GivenY(size, grid, i), size)
    case GivenY(size, grid, x) =>
      if GivenAt(size, grid, x, i) == 0 then [] else Lits(GivenZ(size, grid, x, i), size)
    case GivenZ(size, grid, x, y) => [GivenLit(size, grid, x, y, i)]
  }

  /** Every literal the given digits are expanded by, in order. */
  function Givens(size: nat, grid: seq<int>): seq<int>
  {
    Lits(GivenX(size, grid), size)
  }

  /** `expand` applied for each literal of `lits` in turn. */
  function Fold(expand: (seq<Elem>, int) -> seq<Elem>, s: seq<Elem>, lits: seq<int>): seq<Elem>
  {
    if lits == [] then s else expand(Fold(expand, s, lits[..|lits| - 1]), lits[|lits| - 1])
  }

  /** HEAD::expand applied for each literal of `lits` in turn. */
  function ExpandBy(s: seq<Elem>, lits: seq<int>): seq<Elem>
  {
    Fold(ExpandList, s, lits)
  }

  lemma FoldSnoc(expand: (seq<Elem>, int) -> seq<Elem>, s: seq<Elem>, lits: seq<int>, lit: int)
    ensures Fold(expand, s, lits + [lit]) == expand(Fold(expand, s, lits), lit)
  {
    assert (lits + [lit])[..|lits|] == lits;
  }

  /** Expanding by `a + b` is expanding by `a`, then by `b`. */
  lemma {:induction false} FoldAppend(expand: (seq<Elem>, int) -> seq<Elem>, s: seq<Elem>, a: seq<int>, b: seq<int>)
    ensures Fold(expand, s, a + b) == Fold(expand, Fold(expand, s, a), b)
    decreases |b|
  {
    if b == [] {
      assert a + b == a;
    } else {
      var init := b[..|b| - 1];
      assert a + b == (a + init) + [b[|b| - 1]];
      FoldSnoc(expand, s, a + init, b[|b| - 1]);
      FoldAppend(expand, s, a, init);
      FoldSnoc(expand, Fold(expand, s, a), init, b[|b| - 1]);
      assert init + [b[|b| - 1]] == b;
    }
  }

  /** One call of HEAD::expand, stated through `expand`. */
  method ExpandStep(head: Head, ghost expand: (seq<Elem>, int) -> seq<Elem>, lit: int)
    requires IsExpand(expand)
    modifies head
    ensures head.elems == expand(old(head.elems), lit)
  {
    head.Expand(lit);
  }

  /** The z loop of hpsudoku.cpp:189-193. */
  method ExpandCell(head: Head, size: nat, grid: seq<int>, x: nat, y: nat,
                    ghost expand: (seq<Elem>, int) -> seq<Elem>)
    requires |grid| == size * size && x < size && y < size && IsExpand(expand)
    modifies head
    ensures head.elems == Fold(expand, old(head.elems), Lits(GivenZ(size, grid, x, y), size))
  {
    CellIndex(size, x, y, 0);
    var z := 0;
    while z != size
      invariant z <= size
      invariant head.elems == Fold(expand, old(head.elems), Lits(GivenZ(size, grid, x, y), z))
    {
      var lit := if z + 1 == grid[x * size + y] then Variable(size, x, y, z) else -Variable(size, x, y, z);
      FoldSnoc(expand, old(head.elems), Lits(GivenZ(size, grid, x, y), z), lit);
      ExpandStep(head, expand, lit);
      z := z + 1;
    }
  }

  /** The y loop of hpsudoku.cpp:186-194. */
  method ExpandGivenRow(head: Head, size: nat, grid: seq<int>, x: nat,
                        ghost expand: (seq<Elem>, int) -> seq<Elem>)
    requires |grid| == size * size && x < size && IsExpand(expand)
    modifies head
    ensures head.elems == Fold(expand, old(head.elems), Lits(GivenY(size, grid, x), size))
  {
    var y := 0;
    while y != size
      invariant y <= size
      invariant head.elems == Fold(expand, old(head.elems), Lits(GivenY(size, grid, x), y))
    {
      ghost var done := Lits(GivenY(size, grid, x), y);
      CellIndex(size, x, y, 0);
      if grid[x * size + y] != 0 {
        ExpandCell(head, size, grid, x, y, expand);
        FoldAppend(expand, old(head.elems), done, Lits(GivenZ(size, grid, x, y), size));
      } else {
        assert done + [] == done;
      }
      y := y + 1;
    }
  }

  /** The x loop of hpsudoku.cpp:185-195. */
  method ExpandGivenRows(head: Head, size: nat, grid: seq<int>, ghost expand: (seq<Elem>, int) -> seq<Elem>)
    requires |grid| == size * size && IsExpand(expand)
    modifies head
    ensures head.elems == Fold(expand, old(head.elems), Givens(size, grid))
  {
    var x := 0;
    while x != size
      invariant x <= size
      invariant head.elems == Fold(expand, old(head.elems), Lits(GivenX(size, grid), x))
    {
      ghost var done := Lits(GivenX(size, grid), x);
      ExpandGivenRow(head, size, grid, x, expand);
      FoldAppend(expand, old(head.elems), done, Lits(GivenY(size, grid, x), size));
      x := x + 1;
    }
  }

  /** hpsudoku.cpp:184-195: the list expanded by every literal of the
      given digits. */
  method ExpandGivens(head: Head, size: nat, grid: seq<int>)
    requires |grid| == size * size
    modifies head
    ensures head.elems == ExpandBy(old(head.elems), Givens(size, grid))
  {
    ExpandGivenRows(head, size, grid, ExpandList);
  }

  // Decoding the result (hpsudoku.cpp:202-217)

  /** The number of positive slots in `slots`. */
  function Positives(slots: seq<int>): nat
  {
    if slots == [] then 0
    else Positives(slots[..|slots| - 1]) + (if slots[|slots| - 1] > 0 then 1 else 0)
  }

  /** The z loop of hpsudoku.cpp:207-213 over the first `n` slots of a blank
      cell: the digit of the positive slot met so far (0 for none), or None
      once a second positive slot is met. */
  function Scan(slots: seq<int>, n: nat): Option<nat>
    requires n <= |slots|
  {
    if n == 0 then Some(0)
    else match Scan(slots, n - 1)
      case None => None
      case Some(d) =>
        if slots[n - 1] <= 0 then Some(d) else if d == 0 then Some(n) else None
  }

  /** Once the scan has met a second positive slot it reports so. */
  lemma {:induction false} ScanStaysNone(slots: seq<int>, n: nat, m: nat)
    requires n <= m <= |slots| && Scan(slots, n).None?
    ensures Scan(slots, m).None?
    decreases m - n
  {
    if n < m {
      ScanStaysNone(slots, n + 1, m);
    }
  }

  /** No positive slot is counted only when every slot is at most 0. */
  lemma {:induction false} NoPositives(slots: seq<int>)
    requires Positives(slots) == 0
    ensures forall z :: 0 <= z < |slots| ==> slots[z] <= 0
  {
    if slots != [] {
      NoPositives(slots[..|slots| - 1]);
      assert forall z :: 0 <= z < |slots| - 1 ==> slots[z] == slots[..|slots| - 1][z];
    }
  }

  /** The z loop stops with an error exactly when two slots are positive,
      finds nothing exactly when none is, and otherwise finds the digit of
      the only positive slot. */
  lemma {:induction false} ScanCounts(slots: seq<int>, n: nat)
    requires n <= |slots|
    ensures Scan(slots, n).None? <==> Positives(slots[..n]) >= 2
    ensures Scan(slots, n) == Some(0) <==> Positives(slots[..n]) == 0
    ensures Scan(slots, n).Some? && Scan(slots, n).value != 0 ==>
      var d := Scan(slots, n).value;
      1 <= d <= n && slots[d - 1] > 0 && Positives(slots[..n]) == 1 &&
      forall z :: 0 <= z < n && z != d - 1 ==> slots[z] <= 0
  {
    if n > 0 {
      ScanCounts(slots, n - 1);
      assert slots[..n][..n - 1] == slots[..n - 1];
      if Positives(slots[..n - 1]) == 0 {
        NoPositives(slots[..n - 1]);
        assert forall z :: 0 <= z < n - 1 ==> slots[z] == slots[..n - 1][z];
      }
    }
  }

  /** The `size` result slots of cell `c`, one per digit. */
  function Slots(result: seq<int>, size: nat, c: nat): seq<int>
  {
    if c * size + size <= |result| then result[c * size..c * size + size] else []
  }

  /** The slots of every cell of the grid lie inside the result. */
  lemma SlotsInside(size: nat, c: nat)
    requires c < size * size
    ensures c * size + size <= size * size * size
  {
    MulMono(c + 1, size * size, size);
  }

  /** The value the decoding gives a cell holding `given` whose result
      slots are `slots`: a given digit is kept, a blank cell takes the digit
      of its only positive slot, and None means the puzzle is reported
      unsolvable. */
  function CellValue(given: int, slots: seq<int>): Option<int>
  {
    if given != 0 then Some(given)
    else
      match Scan(slots, |slots|)
      case Some(d) => if d == 0 then None else Some(d)
      case None => None
  }

  /** The decoded value of cell `c`. */
  function Decoded(size: nat, grid: seq<int>, result: seq<int>, c: nat): Option<int>
    requires c < |grid|
  {
    CellValue(grid[c], Slots(result, size, c))
  }

  /** hpsudoku.cpp:202-217: the grid with its blanks filled in, or
      "Unsolvable" when a blank cell has no positive slot or several. */
  function DecodeGrid(size: nat, grid: seq<int>, result: seq<int>): Result<seq<int>, Error>
  {
    if forall c :: 0 <= c < |grid| ==> Decoded(size, grid, result, c).Some? then
      Success(seq(|grid|, c requires 0 <= c < |grid| =>
        match Decoded(size, grid, result, c) case Some(d) => d case None => 0))
    else Failure(Unsolvable)
  }

  /** The z loop of hpsudoku.cpp:207-213 for the cell whose slots start at
      `base`. */
  method ScanSlots(result: seq<int>, base: nat, size: nat) returns (r: Option<nat>)
    requires base + size <= |result|
    ensures r == Scan(result[base..base + size], size)
  {
    ghost var slots := result[base..base + size];
    var d := 0;
    var z := 0;
    while z != size
      invariant z <= size
      invariant Scan(slots, z) == Some(d)
    {
      assert slots[z] == result[base + z];
      if result[base + z] > 0 {
        if d == 0 {
          d := z + 1;
        } else {
          ScanStaysNone(slots, z + 1, size);
          return None;
        }
      }
      z := z + 1;
    }
    return Some(d);
  }

  /** The y loop of hpsudoku.cpp:204-216 for the row whose cells start at
      index `lo`: every blank cell of the row filled in, or false at the
      first cell that fails. */
  method DecodeRow(cells: array<int>, size: nat, grid: seq<int>, result: seq<int>, lo: nat)
    returns (ok: bool)
    requires cells.Length == |grid| == size * size && |result| == size * size * size
    requires lo + size <= |grid|
    requires forall c :: lo <= c < |grid| ==> cells[c] == grid[c]
    modifies cells
    ensures ok ==> forall c :: lo <= c < lo + size ==> Decoded(size, grid, result, c) == Some(cells[c])
    ensures !ok ==> exists c :: lo <= c < lo + size && Decoded(size, grid, result, c).None?
    ensures forall c :: 0 <= c < lo || lo + size <= c < |grid| ==> cells[c] == old(cells[c])
  {
    var y := 0;
    while y != size
      invariant y <= size
      invariant forall c :: lo <= c < lo + y ==> Decoded(size, grid, result, c) == Some(cells[c])
      invariant forall c :: lo + y <= c < |grid| ==> cells[c] == grid[c]
      invariant forall c :: 0 <= c < lo || lo + size <= c < |grid| ==> cells[c] == old(cells[c])
    {
      var c := lo + y;
      if cells[c] == 0 {
        SlotsInside(size, c);
        var s := ScanSlots(result, c * size, size);
        assert Slots(result, size, c) == result[c * size..c * size + size];
        if s.None? || s.value == 0 {
          assert Decoded(size, grid, result, c).None?;
          return false;
        }
        cells[c] := s.value;
      }
      y := y + 1;
    }
    return true;
  }

  /** hpsudoku.cpp:202-217: the blank cells of `grid` filled in from the
      solver's choices, row by row; "Unsolvable" at the first blank cell
      with no positive slot or several. */
  method Decode(size: nat, grid: seq<int>, result: seq<int>) returns (r: Result<seq<int>, Error>)
    requires |grid| == size * size && |result| == size * size * size
    ensures r == DecodeGrid(size, grid, result)
  {
    var cells := new int[size * size](c requires 0 <= c < size * size => grid[c]);
    var x := 0;
    var lo := 0;
    while x != size
      invariant x <= size && lo == x * size <= |grid|
      invariant forall c :: 0 <= c < lo ==> Decoded(size, grid, result, c) == Some(cells[c])
      invariant forall c :: lo <= c < |grid| ==> cells[c] == grid[c]
    {
      MulMono(x + 1, size, size);
      var ok := DecodeRow(cells, size, grid, result, lo);
      if !ok {
        return Failure(Unsolvable);
      }
      x := x + 1;
      lo := lo + size;
    }
    assert cells[..] == seq(|grid|, c requires 0 <= c < |grid| =>
      match Decoded(size, grid, result, c) case Some(d) => d case None => 0);
    return Success(cells[..]);
  }

  /** The decoded value of one cell: a given digit is kept; a blank cell
      fails exactly when it has no positive slot or several, and otherwise
      holds the digit d whose slot d - 1 is its only positive slot. */
  lemma CellValueMeaning(given: int, slots: seq<int>)
    ensures given != 0 ==> CellValue(given, slots) == Some(given)
    ensures given == 0 ==> (CellValue(given, slots).None? <==> Positives(slots) != 1)
    ensures given == 0 && CellValue(given, slots).Some? ==>
      var d := CellValue(given, slots).value;
      1 <= d <= |slots| && slots[d - 1] > 0 && Positives(slots) == 1 &&
      forall z :: 0 <= z < |slots| && z != d - 1 ==> slots[z] <= 0
  {
    ScanCounts(slots, |slots|);
    assert slots[..|slots|] == slots;
  }

  /** What the decoding means: it fails exactly when some blank cell has no
      positive slot or more than one; otherwise every given digit is kept
      and every blank cell holds the digit d whose slot d - 1 is its only
      positive slot. */
  lemma DecodeGridMeaning(size: nat, grid: seq<int>, result: seq<int>)
    requires |grid| == size * size && |result| == size * size * size
    ensures DecodeGrid(size, grid, result).Failure? <==>
      exists c :: 0 <= c < |grid| && grid[c] == 0 && Positives(Slots(result, size, c)) != 1
    ensures DecodeGrid(size, grid, result).Success? ==>
      var m := DecodeGrid(size, grid, result).value;
      |m| == |grid| &&
      forall c :: 0 <= c < |grid| ==>
        (grid[c] != 0 ==> m[c] == grid[c]) &&
        (grid[c] == 0 ==> (1 <= m[c] <= size && Slots(result, size, c)[m[c] - 1] > 0 &&
          Positives(Slots(result, size, c)) == 1 &&
          forall z :: 0 <= z < size && z != m[c] - 1 ==> Slots(result, size, c)[z] <= 0))
  {
    forall c | 0 <= c < |grid|
      ensures |Slots(result, size, c)| == size
      ensures Decoded(size, grid, result, c).None? <==> grid[c] == 0 && Positives(Slots(result, size, c)) != 1
    {
      SlotsInside(size, c);
      CellValueMeaning(grid[c], Slots(result, size, c));
    }
    if DecodeGrid(size, grid, result).Success? {
      forall c | 0 <= c < |grid| {
        CellValueMeaning(grid[c], Slots(result, size, c));
      }
    }
  }

  // Properties of the given-digit expansion

  /** Expanding keeps every variable inside the range it was in. */
  lemma {:induction false} ExpandByInRange(s: seq<Elem>, lits: seq<int>, lo: int, hi: int)
    requires AllInRange(s, lo, hi)
    ensures AllInRange(ExpandBy(s, lits), lo, hi)
  {
    if lits != [] {
      ExpandByInRange(s, lits[..|lits| - 1], lo, hi);
      ExpandListInRange(ExpandBy(s, lits[..|lits| - 1]), lits[|lits| - 1], lo, hi);
    }
  }

  /** After expanding by `lits` no term mentions any of them, in either
      sign, and every degree-2 term still names two different variables. */
  lemma {:induction false} FoldEliminates(expand: (seq<Elem>, int) -> seq<Elem>, s: seq<Elem>, lits: seq<int>)
    requires IsExpand(expand) && AllDistinct(s)
    ensures AllDistinct(Fold(expand, s, lits))
    ensures forall j :: 0 <= j < |lits| ==> Absent(Fold(expand, s, lits), lits[j])
  {
    if lits != [] {
      var init := lits[..|lits| - 1];
      var l := lits[|lits| - 1];
      var t := Fold(expand, s, init);
      FoldEliminates(expand, s, init);
      ExpandSettles(t, l, init);
      assert Fold(expand, s, lits) == ExpandList(t, l);
      assert forall j :: 0 <= j < |init| ==> lits[j] == init[j];
    }
  }

  /** One expansion removes its own literal and brings back none of the
      literals already removed. */
  lemma ExpandSettles(t: seq<Elem>, l: int, done: seq<int>)
    requires AllDistinct(t)
    requires forall j :: 0 <= j < |done| ==> Absent(t, done[j])
    ensures AllDistinct(ExpandList(t, l)) && Absent(ExpandList(t, l), l)
    ensures forall j :: 0 <= j < |done| ==> Absent(ExpandList(t, l), done[j])
  {
    ExpandListEliminates(t, l);
    forall j | 0 <= j < |done| ensures Absent(ExpandList(t, l), done[j]) {
      ExpandListKeepsAbsent(t, l, done[j]);
    }
  }

  /** A literal of iteration `i` of loop `l` is among the literals of its
      first `hi` iterations, for every `hi` past `i`. */
  lemma {:induction false} LitsHas(l: GivenLoop, hi: nat, i: nat, lit: int)
    requires i < hi && lit in LitStep(l, i)
    ensures lit in Lits(l, hi)
  {
    if i < hi - 1 {
      LitsHas(l, hi - 1, i, lit);
    }
  }

  /** Every value of a cell holding a digit is expanded by: the digit's
      variable positively, every other value's negatively. */
  lemma GivensCover(size: nat, grid: seq<int>, x: nat, y: nat, z: nat)
    requires x < size && y < size && z < size && GivenAt(size, grid, x, y) != 0
    ensures GivenLit(size, grid, x, y, z) in Givens(size, grid)
    ensures Abs(GivenLit(size, grid, x, y, z)) == Variable(size, x, y, z)
  {
    var lit := GivenLit(size, grid, x, y, z);
    CellHasLit(size, grid, x, y, z);
    RowHasLit(size, grid, x, y, lit);
    GridHasLit(size, grid, x, lit);
    LitVariable(size, grid, x, y, z);
  }

  /** The literals of a row are among those of the grid. */
  lemma GridHasLit(size: nat, grid: seq<int>, x: nat, lit: int)
    requires x < size && lit in Lits(GivenY(size, grid, x), size)
    ensures lit in Givens(size, grid)
  {
    assert LitStep(GivenX(size, grid), x) == Lits(GivenY(size, grid, x), size);
    LitsHas(GivenX(size, grid), size, x, lit);
  }

  /** The literal of value z of cell (x, y) is that value's variable, in
      one sign or the other. */
  lemma LitVariable(size: nat, grid: seq<int>, x: nat, y: nat, z: nat)
    ensures Abs(GivenLit(size, grid, x, y, z)) == Variable(size, x, y, z)
  {
    var v := x * size * size + y * size;
    assert v >= 0;
  }

  /** The literal of value z is among those of its cell. */
  lemma CellHasLit(size: nat, grid: seq<int>, x: nat, y: nat, z: nat)
    requires z < size
    ensures GivenLit(size, grid, x, y, z) in Lits(GivenZ(size, grid, x, y), size)
  {
    var lit := GivenLit(size, grid, x, y, z);
    assert LitStep(GivenZ(size, grid, x, y), z) == [lit];
    LitsHas(GivenZ(size, grid, x, y), size, z, lit);
  }

  /** The literals of a cell holding a digit are among those of its row. */
  lemma RowHasLit(size: nat, grid: seq<int>, x: nat, y: nat, lit: int)
    requires y < size && GivenAt(size, grid, x, y) != 0
    requires lit in Lits(GivenZ(size, grid, x, y), size)
    ensures lit in Lits(GivenY(size, grid, x), size)
  {
    assert LitStep(GivenY(size, grid, x), y) == Lits(GivenZ(size, grid, x, y), size);
    LitsHas(GivenY(size, grid, x), size, y, lit);
  }

  // The whole of hpsudoku_read

  /** The list handed to hpsudoku_solve for a grid: the rules, expanded by
      every given digit, then sorted. */
  function Encode(size: nat, grid: seq<int>): seq<Elem>
  {
    Canonical(ExpandBy(Rules(size), Givens(size, grid)))
  }

  /** hpsudoku_read (hpsudoku.cpp:82-217) up to printing: the parsed line
      encoded, solved over the variables 1 .. size^3, and decoded. */
  ghost function ReadSpec(size: nat, line: seq<char>): Result<seq<int>, Error>
  {
    match Parse(size, line)
    case Failure(e) => Failure(e)
    case Success(grid) =>
      var num := size * size * size;
      DecodeGrid(size, grid, Backward(Forward(Encode(size, grid), 1, num), 1))
  }

  /** hpsudoku.cpp:122-198: the rules emitted into an empty list, expanded
      by the given digits, and sorted. */
  method BuildHead(size: nat, grid: seq<int>) returns (head: Head)
    requires |grid| == size * size
    ensures fresh(head)
    ensures head.elems == Encode(size, grid)
  {
    head := new Head();
    EmitValueRules(head, size);
    EmitBoxRules(head, size);
    EmitLineRules(head, size);
    assert head.elems == Rules(size);
    ExpandGivens(head, size, grid);
    head.Sort();
  }

  /** hpsudoku_read (hpsudoku.cpp:82-217) without the printing: the grid
      solved, or the error it stops with. */
  method Read(size: nat, line: seq<char>) returns (r: Result<seq<int>, Error>)
    ensures r == ReadSpec(size, line)
  {
    var parsed := ParseLine(size, line);
    if parsed.Failure? {
      return Failure(parsed.error);
    }
    var grid := parsed.value;
    ParseDigits(size, line);
    var head := BuildHead(size, grid);
    MulMono(0, size * size, size);
    var num := size * size * size;
    var result := new int[num];
    Solve(head, result, 1, num);
    r := Decode(size, grid, result[..]);
  }

  /** Sorting keeps every degree-2 term naming two different variables,
      and brings back no variable that no term mentions. */
  lemma CanonicalSettled(t: seq<Elem>, lits: seq<int>)
    requires AllDistinct(t)
    requires forall j :: 0 <= j < |lits| ==> Absent(t, lits[j])
    ensures AllDistinct(Canonical(t))
    ensures forall j :: 0 <= j < |lits| ==> Absent(Canonical(t), lits[j])
  {
    CanonicalDistinct(t);
    forall j | 0 <= j < |lits| ensures Absent(Canonical(t), lits[j]) {
      CanonicalAbsent(t, lits[j]);
    }
  }

  /** Sorting keeps every degree-2 term naming two different variables. */
  lemma CanonicalDistinct(t: seq<Elem>)
    requires AllDistinct(t)
    ensures AllDistinct(Canonical(t))
  {
    forall i | 0 <= i < |t| ensures DistinctVars(ElemSort(t[i])) {
      SortDistinct(t[i]);
    }
    var D := (e: Elem) => DistinctVars(e);
    CanonicalKeeps(D, t);
  }

  /** Sorting brings back no variable that no term mentions. */
  lemma CanonicalAbsent(t: seq<Elem>, l: int)
    requires AllDistinct(t) && Absent(t, l)
    ensures Absent(Canonical(t), l)
  {
    var P := (e: Elem) => l !in Live(e) && -l !in Live(e);
    forall i | 0 <= i < |t| ensures P(ElemSort(t[i])) {
      SortDistinct(t[i]);
    }
    CanonicalKeeps(P, t);
  }

  /** Every rule names two different variables. */
  lemma RulesDistinct(size: nat)
    requires size % 3 == 0
    ensures AllDistinct(Rules(size))
  {
    var rules := Rules(size);
    RulesShape(size);
    forall i | 0 <= i < |rules| ensures DistinctVars(rules[i]) {
      assert rules[i] in rules;
    }
  }

  /** For a size that is a multiple of 3 the solver is given only the
      variables 1 .. size^3. */
  lemma EncodeInRange(size: nat, grid: seq<int>)
    requires size % 3 == 0
    ensures AllInRange(Encode(size, grid), 1, size * size * size + 1)
  {
    var t := ExpandBy(Rules(size), Givens(size, grid));
    RulesInRange(size);
    ExpandByInRange(Rules(size), Givens(size, grid), 1, size * size * size + 1);
    CanonicalInRange(t, 1, size * size * size + 1);
  }

  /** For a size that is a multiple of 3 every degree-2 term the solver is
      given names two different variables, and no term mentions a variable
      of a cell holding a digit: the expansion settles those cells before
      solving. */
  lemma EncodeSettlesGivens(size: nat, grid: seq<int>)
    requires size % 3 == 0
    ensures AllDistinct(Encode(size, grid))
    ensures forall x: nat, y: nat, z: nat ::
      x < size && y < size && z < size && GivenAt(size, grid, x, y) != 0 ==>
        Absent(Encode(size, grid), Variable(size, x, y, z))
  {
    var lits := Givens(size, grid);
    var t := ExpandBy(Rules(size), lits);
    RulesDistinct(size);
    FoldEliminates(ExpandList, Rules(size), lits);
    CanonicalSettled(t, lits);
    var e := Encode(size, grid);
    forall x: nat, y: nat, z: nat | x < size && y < size && z < size && GivenAt(size, grid, x, y) != 0
      ensures Absent(e, Variable(size, x, y, z))
    {
      GivensCover(size, grid, x, y, z);
      var j :| 0 <= j < |lits| && lits[j] == GivenLit(size, grid, x, y, z);
      assert Absent(e, lits[j]);
    }
  }

  /** What hpsudoku_read computes, for a size that is a multiple of 3: a
      malformed line gives its parse error; otherwise slot i of the
      solver's result is the variable i + 1, positive exactly when the list
      consulted for it is empty, and the outcome is "Unsolvable" exactly
      when a blank cell has no positive slot or several, and otherwise keeps
      every given digit and fills each blank cell with the digit of its only
      positive slot. */
  lemma ReadOutcome(size: nat, line: seq<char>)
    requires size % 3 == 0
    ensures Parse(size, line).Failure? ==> ReadSpec(size, line) == Failure(Parse(size, line).error)
    ensures Parse(size, line).Success? ==>
      var grid := Parse(size, line).value;
      var hs := Forward(Encode(size, grid), 1, size * size * size);
      var result := Backward(hs, 1);
      |grid| == size * size && |result| == |Consulted(hs, 1)| == size * size * size &&
      (forall i :: 0 <= i < |result| ==>
        var c := Consulted(hs, 1)[i];
        |c| <= 1 && result[i] == if c == [] then i + 1 else -(i + 1)) &&
      (ReadSpec(size, line).Failure? <==>
        exists c :: 0 <= c < |grid| && grid[c] == 0 && Positives(Slots(result, size, c)) != 1) &&
      (ReadSpec(size, line).Success? ==>
        var m := ReadSpec(size, line).value;
        |m| == |grid| &&
        forall c :: 0 <= c < |grid| ==>
          (grid[c] != 0 ==> m[c] == grid[c]) &&
          (grid[c] == 0 ==> 1 <= m[c] <= size && Positives(Slots(result, size, c)) == 1))
  {
    if Parse(size, line).Success? {
      var grid := Parse(size, line).value;
      var num := size * size * size;
      ParseDigits(size, line);
      EncodeInRange(size, grid);
      SolveChooses(Encode(size, grid), 1, num);
      DecodeGridMeaning(size, grid, Backward(Forward(Encode(size, grid), 1, num), 1));
    }
  }
}
