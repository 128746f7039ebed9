/**
 * `levenshteinDistance` (index.js lines 158-216) and the meaning of the records it
 * returns, as `render` applies them (index.js lines 112-126).
 *
 * The parameter `a` is the NEW text and `b` the OLD one. The matrix has a row per
 * prefix of the old text and a column per prefix of the new one; the walk back keeps
 * `i` on the old side and `j` on the new side, so a record's `src` is a 1-based
 * position in the old text and its `dest` a 1-based position in the new text.
 */
module SequenceDiffer {
  import opened JsStrings
  import opened Outcomes
  import opened BlockList

  /** The records pushed onto `result`: `{type: 'R' | 'A' | 'D', src, dest}`. */
  datatype Op =
    | Replace(src: nat, dest: nat)
    | Add(src: nat, dest: nat)
    | Delete(src: nat)

  /** `Math.min` of three numbers. */
  function Min3(x: int, y: int, z: int): (r: int)
    ensures r <= x && r <= y && r <= z
    ensures r == x || r == y || r == z
  {
    if x <= y && x <= z then x else if y <= z then y else z
  }

  /**
   * The cell `m[r][c]` of the distance matrix: the Levenshtein distance between the
   * first r code units of the old text `b` and the first c of the new text `a`.
   */
  function Lev(a: JsString, b: JsString, r: nat, c: nat): (v: nat)
    requires r <= |b| && c <= |a|
    ensures v <= r + c
    decreases r + c
  {
    if r == 0 then c
    else if c == 0 then r
    else Min3(Lev(a, b, r, c - 1) + 1, Lev(a, b, r - 1, c) + 1,
              Lev(a, b, r - 1, c - 1) + (if a[c - 1] == b[r - 1] then 0 else 1))
  }

  /** The distance between two prefixes is at least the difference of their lengths. */
  lemma {:induction false} LevLower(a: JsString, b: JsString, r: nat, c: nat)
    requires r <= |b| && c <= |a|
    ensures r - c <= Lev(a, b, r, c) && c - r <= Lev(a, b, r, c)
    decreases r + c
  {
    if r > 0 && c > 0 {
      LevLower(a, b, r, c - 1);
      LevLower(a, b, r - 1, c);
      LevLower(a, b, r - 1, c - 1);
    }
  }

  /** The distance between two prefixes is at most the longer length. */
  lemma {:induction false} LevUpper(a: JsString, b: JsString, r: nat, c: nat)
    requires r <= |b| && c <= |a|
    ensures Lev(a, b, r, c) <= if r < c then c else r
    decreases r + c
  {
    if r > 0 && c > 0 {
      LevUpper(a, b, r - 1, c - 1);
    }
  }

  /** The distance is zero exactly when the two prefixes are equal. */
  lemma {:induction false} LevZeroIff(a: JsString, b: JsString, r: nat, c: nat)
    requires r <= |b| && c <= |a|
    ensures Lev(a, b, r, c) == 0 <==> r == c && b[..r] == a[..c]
    decreases r + c
  {
    if r > 0 && c > 0 {
      LevZeroIff(a, b, r - 1, c - 1);
      if b[..r] == a[..c] {
        assert b[..r - 1] == b[..r][..r - 1] && a[..c - 1] == a[..c][..c - 1];
        assert b[r - 1] == b[..r][r - 1] && a[c - 1] == a[..c][c - 1];
      }
      if Lev(a, b, r, c) == 0 {
        assert b[..r] == b[..r - 1] + [b[r - 1]] && a[..c] == a[..c - 1] + [a[c - 1]];
      }
    }
  }

  /** The matrix as a table over all pairs of indices; cells outside it read 0. */
  function LevTable(a: JsString, b: JsString): (nat, nat) -> nat {
    (r: nat, c: nat) => if r <= |b| && c <= |a| then Lev(a, b, r, c) else 0
  }

  /**
   * The three filling loops of `levenshteinDistance` (index.js lines 159-178): row 0,
   * column 0, then every interior cell, row by row, as the minimum of the cell to the
   * left plus one, the cell above plus one, and the diagonal cell plus the indicator
   * that the two code units differ.
   */
  method DistanceMatrix(a: JsString, b: JsString) returns (m: array2<int>)
    ensures m.Length0 == |b| + 1 && m.Length1 == |a| + 1
    ensures forall r, c {:trigger m[r, c]} :: 0 <= r <= |b| && 0 <= c <= |a| ==> m[r, c] == Lev(a, b, r, c)
  {
    m := new int[|b| + 1, |a| + 1];
    for i := 0 to |a| + 1
      invariant forall c :: 0 <= c < i ==> m[0, c] == Lev(a, b, 0, c)
    {
      m[0, i] := i;
    }
    for j := 0 to |b| + 1
      invariant forall c :: 0 <= c <= |a| ==> m[0, c] == Lev(a, b, 0, c)
      invariant forall r :: 0 <= r < j ==> m[r, 0] == Lev(a, b, r, 0)
    {
      m[j, 0] := j;
    }
    for j := 1 to |b| + 1
      invariant forall r, c {:trigger m[r, c]} :: 0 <= r < j && 0 <= c <= |a| ==> m[r, c] == Lev(a, b, r, c)
      invariant forall r :: j <= r <= |b| ==> m[r, 0] == Lev(a, b, r, 0)
    {
      FillRow(a, b, m, j);
    }
  }

  /**
   * The inner loop of the interior fill (index.js lines 168-176): row j, column by
   * column, from the row above and the cell to the left.
   */
  method FillRow(a: JsString, b: JsString, m: array2<int>, j: nat)
    requires m.Length0 == |b| + 1 && m.Length1 == |a| + 1 && 1 <= j <= |b|
    requires forall r, c {:trigger m[r, c]} :: 0 <= r < j && 0 <= c <= |a| ==> m[r, c] == Lev(a, b, r, c)
    requires m[j, 0] == Lev(a, b, j, 0)
    modifies m
    ensures forall r, c {:trigger m[r, c]} :: 0 <= r <= j && 0 <= c <= |a| ==> m[r, c] == Lev(a, b, r, c)
    ensures forall r, c {:trigger m[r, c]} :: j < r <= |b| && 0 <= c <= |a| ==> m[r, c] == old(m[r, c])
  {
    for i := 1 to |a| + 1
      invariant forall c {:trigger m[j, c]} :: 0 <= c < i ==> m[j, c] == Lev(a, b, j, c)
      invariant forall r, c {:trigger m[r, c]} :: 0 <= r <= |b| && r != j && 0 <= c <= |a| ==> m[r, c] == old(m[r, c])
    {
      var indicator := if a[i - 1] == b[j - 1] then 0 else 1;
      ghost var cell := Min3(m[j, i - 1] + 1, m[j - 1, i] + 1, m[j - 1, i - 1] + indicator);
      assert cell == Lev(a, b, j, i) by {
        assert m[j, i - 1] == Lev(a, b, j, i - 1);
        assert m[j - 1, i] == Lev(a, b, j - 1, i);
        assert m[j - 1, i - 1] == Lev(a, b, j - 1, i - 1);
      }
      m[j, i] := Min3(m[j, i - 1] + 1, m[j - 1, i] + 1, m[j - 1, i - 1] + indicator);
    }
  }

  /**
   * `Math.min(...[cr, cd, ca].filter(cc => cc != -1))`, where -1 marks a candidate
   * that does not exist; `None` stands for the `Infinity` of an empty list.
   */
  function MinRda(xs: seq<int>): (r: Option<int>)
    ensures r == None <==> forall k :: 0 <= k < |xs| ==> xs[k] == -1
    ensures r.Some? ==> r.value != -1 && r.value in xs
    ensures r.Some? ==> forall k :: 0 <= k < |xs| && xs[k] != -1 ==> r.value <= xs[k]
  {
    if xs == [] then None
    else
      var rest := MinRda(xs[1..]);
      assert forall k :: 1 <= k < |xs| ==> xs[k] == xs[1..][k - 1];
      if xs[0] == -1 then rest
      else if rest == None || xs[0] <= rest.value then Some(xs[0])
      else rest
  }

  /** The three ways one step of the walk can go. */
  datatype Move =
    | Diagonal  // case cr: replace or keep
    | Left      // case ca: add
    | Up        // case cd: delete

  /**
   * The `switch (minRda)` of index.js lines 191-209: the first of `cr`, `ca`, `cd`
   * (in that order) equal to the minimum is taken; `None` is the `default` case.
   */
  function Pick(cr: int, cd: int, ca: int): (mv: Option<Move>)
    ensures mv == Some(Diagonal) <==> cr != -1 && (cd != -1 ==> cr <= cd) && (ca != -1 ==> cr <= ca)
    ensures mv == Some(Left) <==> ca != -1 && (cr != -1 ==> ca < cr) && (cd != -1 ==> ca <= cd)
    ensures mv == Some(Up) <==> cd != -1 && (cr != -1 ==> cd < cr) && (ca != -1 ==> cd < ca)
    ensures mv == None <==> cr == -1 && cd == -1 && ca == -1
  {
    var minRda := MinRda([cr, cd, ca]);
    assert [cr, cd, ca][0] == cr && [cr, cd, ca][1] == cd && [cr, cd, ca][2] == ca;
    if minRda == Some(cr) then Some(Diagonal)
    else if minRda == Some(ca) then Some(Left)
    else if minRda == Some(cd) then Some(Up)
    else None
  }

  /** A move that stays inside the matrix from cell (i, j). */
  predicate CanMove(i: nat, j: nat, mv: Move) {
    match mv
    case Diagonal => i > 1 && j > 1
    case Left => j > 1
    case Up => i > 1
  }

  /** The candidates `cr`, `cd`, `ca` at cell (i, j) (index.js lines 186-188) and the move picked among them. */
  function Choice(a: JsString, b: JsString, dist: (nat, nat) -> nat, i: nat, j: nat): (mv: Option<Move>)
    requires i <= |b| && j <= |a|
    ensures mv.Some? ==> CanMove(i, j, mv.value)
    ensures mv == None <==> i <= 1 && j <= 1
  {
    Pick(if i > 1 && j > 1 then dist(i - 1, j - 1) else -1,
         if i > 1 then dist(i - 1, j) else -1,
         if j > 1 then dist(i, j - 1) else -1)
  }

  /** Where one step goes from (i, j), and the records it pushes. */
  function Step(a: JsString, b: JsString, i: nat, j: nat, mv: Move): (r: (nat, nat, seq<Op>))
    requires i <= |b| && j <= |a| && CanMove(i, j, mv)
    ensures r.0 <= i && r.1 <= j && r.0 + r.1 < i + j
    ensures r.2 == [] <==> mv.Diagonal? && a[j - 1] == b[i - 1]
    ensures |r.2| <= 1
  {
    match mv
    case Diagonal => (i - 1, j - 1, if a[j - 1] != b[i - 1] then [Replace(i, j)] else [])
    case Left => (i, j - 1, [Add(i, j)])
    case Up => (i - 1, j, [Delete(i)])
  }

  /** The record pushed on reaching cell (1, 1) (index.js lines 211-213). */
  function Final(a: JsString, b: JsString): (r: seq<Op>)
    requires |a| >= 1 && |b| >= 1
    ensures r == [] <==> a[0] == b[0]
    ensures forall k :: 0 <= k < |r| ==> r[k] == Replace(1, 1)
  {
    if a[0] != b[0] then [Replace(1, 1)] else []
  }

  /** Puts `e` in front of the records of a walk that succeeded. */
  function Prepend(e: seq<Op>, r: Result<seq<Op>>): (p: Result<seq<Op>>)
    ensures e == [] ==> p == r
  {
    assert r.Ok? ==> [] + r.value == r.value;
    match r
    case Ok(s) => Ok(e + s)
    case Err(err) => Err(err)
  }

  lemma PrependConcat(x: seq<Op>, y: seq<Op>, r: Result<seq<Op>>)
    ensures Prepend(x, Prepend(y, r)) == Prepend(x + y, r)
  {
    if r.Ok? {
      assert x + (y + r.value) == (x + y) + r.value;
    }
  }

  /**
   * The records the `do ... while` loop (index.js lines 185-214) pushes from cell
   * (i, j) on, or the error it throws. The body runs at least once, even at (1, 1).
   */
  function Backtrace(a: JsString, b: JsString, dist: (nat, nat) -> nat, i: nat, j: nat): (r: Result<seq<Op>>)
    requires i <= |b| && j <= |a|
    ensures r.Err? ==> r.error == MinRdaError
    decreases i + j
  {
    match Choice(a, b, dist, i, j)
    case None => Err(MinRdaError)
    case Some(mv) =>
      var (i2, j2, e) := Step(a, b, i, j, mv);
      if i2 == 1 && j2 == 1 then Ok(e + Final(a, b))
      else Prepend(e, Backtrace(a, b, dist, i2, j2))
  }

  /** One turn of the loop body, as it contributes to the walk. */
  lemma BacktraceUnfold(a: JsString, b: JsString, dist: (nat, nat) -> nat, i: nat, j: nat, mv: Move)
    requires i <= |b| && j <= |a| && Choice(a, b, dist, i, j) == Some(mv)
    ensures var (i2, j2, e) := Step(a, b, i, j, mv);
      Backtrace(a, b, dist, i, j) == if i2 == 1 && j2 == 1 then Ok(e + Final(a, b)) else Prepend(e, Backtrace(a, b, dist, i2, j2))
  {
  }

  /** The walk from (i, j) returns exactly when both indices are positive and not both 1. */
  lemma {:induction false} BacktraceSucceeds(a: JsString, b: JsString, dist: (nat, nat) -> nat, i: nat, j: nat)
    requires i <= |b| && j <= |a|
    ensures Backtrace(a, b, dist, i, j).Ok? <==> 1 <= i && 1 <= j && i + j > 2
    ensures Backtrace(a, b, dist, i, j).Err? ==> Backtrace(a, b, dist, i, j).error == MinRdaError
    decreases i + j
  {
    match Choice(a, b, dist, i, j)
    case None =>
    case Some(mv) =>
      var (i2, j2, e) := Step(a, b, i, j, mv);
      if !(i2 == 1 && j2 == 1) {
        BacktraceSucceeds(a, b, dist, i2, j2);
      }
  }

  /**
   * What one record does to the list of block symbols `cur`, `a` being the new text
   * (index.js lines 113-122 with `replaceBlock`, `addBlock` and `delBlock`). `None`
   * marks a record the list cannot take: `children[src - 1]` does not exist, or `dest`
   * is outside the new text. The source does not throw on such a `dest` (the block
   * would show "undefined"); `None` there is this model's choice for records the walk
   * never emits, since every `dest` lies in 1..|a| (`BacktraceShape`).
   */
  function ApplyOp(cur: JsString, op: Op, a: JsString): (r: Option<JsString>)
    ensures r.Some? ==> |r.value| == |cur| + (if op.Add? then 1 else 0) - (if op.Delete? then 1 else 0)
  {
    match op
    case Replace(src, dest) =>
      if 1 <= src <= |cur| && 1 <= dest <= |a| then Some(cur[src - 1 := a[dest - 1]]) else None
    case Add(src, dest) =>
      if 1 <= dest <= |a| then Some(InsertBlock(cur, src, a[dest - 1])) else None
    case Delete(src) =>
      if 1 <= src <= |cur| then Some(RemoveBlock(cur, src - 1)) else None
  }

  /** `diff.forEach(...)`: the records applied in the order they were emitted. */
  function Apply(cur: JsString, ops: seq<Op>, a: JsString): (r: Option<JsString>)
    ensures r.Some? ==> |r.value| == |cur| + Adds(ops) - Deletes(ops)
    decreases |ops|
  {
    if ops == [] then Some(cur)
    else
      match ApplyOp(cur, ops[0], a)
      case None => None
      case Some(next) => Apply(next, ops[1..], a)
  }

  lemma {:induction false} ApplyConcat(cur: JsString, x: seq<Op>, y: seq<Op>, a: JsString)
    ensures Apply(cur, x + y, a) == match Apply(cur, x, a) case None => None case Some(mid) => Apply(mid, y, a)
    decreases |x|
  {
    if x == [] {
      assert x + y == y;
    } else {
      assert (x + y)[0] == x[0] && (x + y)[1..] == x[1..] + y;
      match ApplyOp(cur, x[0], a)
      case None =>
      case Some(next) => ApplyConcat(next, x[1..], y, a);
    }
  }

  /** Rewriting the middle element of a three-part sequence. */
  lemma UpdateMiddle(p: JsString, y: CodeUnit, x: CodeUnit, q: JsString)
    ensures (p + [y] + q)[|p| := x] == p + [x] + q
  {
  }

  /** Applying a single record is applying that record. */
  lemma ApplySingle(cur: JsString, op: Op, a: JsString)
    ensures Apply(cur, [op], a) == ApplyOp(cur, op, a)
  {
    assert [op][1..] == [];
  }

  /** The blocks old[..i] + new[j..] around position i - 1, and the blocks one diagonal step on. */
  lemma DiagonalSplit(a: JsString, b: JsString, i: nat, j: nat)
    requires 1 <= i <= |b| && 1 <= j <= |a|
    ensures b[..i] + a[j..] == b[..i - 1] + [b[i - 1]] + a[j..]
    ensures b[..i - 1] + a[j - 1..] == b[..i - 1] + [a[j - 1]] + a[j..]
  {
    assert b[..i] == b[..i - 1] + [b[i - 1]];
    assert a[j - 1..] == [a[j - 1]] + a[j..];
  }

  /** A diagonal step: replace block i - 1 by new[j - 1], or keep it when they agree. */
  lemma DiagonalApplies(a: JsString, b: JsString, i: nat, j: nat)
    requires 1 <= i <= |b| && 1 <= j <= |a|
    ensures Apply(b[..i] + a[j..], if a[j - 1] != b[i - 1] then [Replace(i, j)] else [], a)
         == Some(b[..i - 1] + a[j - 1..])
  {
    DiagonalSplit(a, b, i, j);
    if a[j - 1] != b[i - 1] {
      ApplySingle(b[..i] + a[j..], Replace(i, j), a);
      UpdateMiddle(b[..i - 1], b[i - 1], a[j - 1], a[j..]);
    }
  }

  /** `addBlock` at a positive index between two parts puts the block between them. */
  lemma InsertBetween(p: JsString, q: JsString, x: CodeUnit)
    requires 1 <= |p|
    ensures InsertBlock(p + q, |p|, x) == p + [x] + q
  {
    if q == [] {
      assert p + q == p && p + [x] + q == p + [x];
    } else {
      assert (p + q)[..|p|] == p && (p + q)[|p|..] == q;
    }
  }

  /** An `A` record at a positive `src` puts new[dest - 1] after the first `src` blocks. */
  lemma AddApplies(p: JsString, q: JsString, a: JsString, i: nat, j: nat)
    requires |p| == i >= 1 && 1 <= j <= |a|
    ensures Apply(p + q, [Add(i, j)], a) == Some(p + [a[j - 1]] + q)
  {
    InsertBetween(p, q, a[j - 1]);
    ApplySingle(p + q, Add(i, j), a);
  }

  /** A step left: insert new[j - 1] before block i. */
  lemma LeftApplies(a: JsString, b: JsString, i: nat, j: nat)
    requires 1 <= i <= |b| && 1 <= j <= |a|
    ensures Apply(b[..i] + a[j..], [Add(i, j)], a) == Some(b[..i] + a[j - 1..])
  {
    AddApplies(b[..i], a[j..], a, i, j);
    LeftSplit(a, b, i, j);
  }

  /** The blocks one step left of old[..i] + new[j..]. */
  lemma LeftSplit(a: JsString, b: JsString, i: nat, j: nat)
    requires 1 <= i <= |b| && 1 <= j <= |a|
    ensures b[..i] + a[j - 1..] == b[..i] + [a[j - 1]] + a[j..]
  {
    assert a[j - 1..] == [a[j - 1]] + a[j..];
  }

  /** `delBlock` on the middle block of three parts leaves the other two. */
  lemma RemoveBetween(p: JsString, y: CodeUnit, q: JsString)
    ensures RemoveBlock(p + [y] + q, |p|) == p + q
  {
    assert (p + [y] + q)[..|p|] == p && (p + [y] + q)[|p| + 1..] == q;
  }

  /** A step up: remove block i - 1. */
  lemma UpApplies(a: JsString, b: JsString, i: nat, j: nat)
    requires 1 <= i <= |b| && 1 <= j <= |a|
    ensures Apply(b[..i] + a[j..], [Delete(i)], a) == Some(b[..i - 1] + a[j..])
  {
    DiagonalSplit(a, b, i, j);
    RemoveBetween(b[..i - 1], b[i - 1], a[j..]);
    ApplySingle(b[..i] + a[j..], Delete(i), a);
  }

  /** One step keeps the invariant of the walk: the blocks read old[..i] + new[j..]. */
  lemma StepApplies(a: JsString, b: JsString, i: nat, j: nat, mv: Move)
    requires 1 <= i <= |b| && 1 <= j <= |a| && CanMove(i, j, mv)
    ensures var (i2, j2, e) := Step(a, b, i, j, mv);
      Apply(b[..i] + a[j..], e, a) == Some(b[..i2] + a[j2..])
  {
    match mv
    case Diagonal => DiagonalApplies(a, b, i, j);
    case Left => LeftApplies(a, b, i, j);
    case Up => UpApplies(a, b, i, j);
  }

  /**
   * The round trip: from any cell of the walk, applying the records it emits to the
   * blocks old[..i] + new[j..] gives the new text.
   */
  lemma {:induction false} BacktraceRoundTrip(a: JsString, b: JsString, dist: (nat, nat) -> nat, i: nat, j: nat)
    requires 1 <= i <= |b| && 1 <= j <= |a| && i + j > 2
    ensures Backtrace(a, b, dist, i, j).Ok?
    ensures Apply(b[..i] + a[j..], Backtrace(a, b, dist, i, j).value, a) == Some(a)
    decreases i + j
  {
    BacktraceSucceeds(a, b, dist, i, j);
    var mv := Choice(a, b, dist, i, j).value;
    var (i2, j2, e) := Step(a, b, i, j, mv);
    StepApplies(a, b, i, j, mv);
    BacktraceUnfold(a, b, dist, i, j, mv);
    if i2 == 1 && j2 == 1 {
      ApplyConcat(b[..i] + a[j..], e, Final(a, b), a);
      FinalApplies(a, b);
    } else {
      BacktraceRoundTrip(a, b, dist, i2, j2);
      ApplyConcat(b[..i] + a[j..], e, Backtrace(a, b, dist, i2, j2).value, a);
    }
  }

  /** At (1, 1) the blocks read old[0] + new[1..], and the final record makes them the new text. */
  lemma FinalApplies(a: JsString, b: JsString)
    requires 1 <= |a| && 1 <= |b|
    ensures Apply(b[..1] + a[1..], Final(a, b), a) == Some(a)
  {
    var mid := b[..1] + a[1..];
    assert mid == [b[0]] + a[1..] && a == [a[0]] + a[1..];
    if a[0] != b[0] {
      ApplySingle(mid, Replace(1, 1), a);
      assert mid[0 := a[0]] == a;
    }
  }

  /** Every `src` lies in 1..i and every `dest` in 1..j. */
  predicate InBounds(ops: seq<Op>, i: nat, j: nat) {
    forall k :: 0 <= k < |ops| ==> 1 <= ops[k].src <= i && (!ops[k].Delete? ==> 1 <= ops[k].dest <= j)
  }

  /** Along the records `src` never grows, and `dest` (where there is one) strictly falls. */
  predicate Ordered(ops: seq<Op>) {
    forall k, l :: 0 <= k < l < |ops| ==>
      ops[l].src <= ops[k].src && (!ops[k].Delete? && !ops[l].Delete? ==> ops[l].dest < ops[k].dest)
  }

  /** Records pushed at a cell, followed by those of a walk from a later cell, stay bounded and ordered. */
  lemma OrderedConcat(e: seq<Op>, rest: seq<Op>, i: nat, j: nat, i2: nat, j2: nat)
    requires i2 <= i && j2 <= j
    requires InBounds(e, i, j) && Ordered(e) && InBounds(rest, i2, j2) && Ordered(rest)
    requires forall k :: 0 <= k < |e| ==> i2 <= e[k].src && (!e[k].Delete? ==> j2 < e[k].dest)
    ensures InBounds(e + rest, i, j) && Ordered(e + rest)
  {
    var ops := e + rest;
    assert forall l :: |e| <= l < |ops| ==> ops[l] == rest[l - |e|];
    assert forall k :: 0 <= k < |e| ==> ops[k] == e[k];
  }

  /** The records of one step from (i, j): at most one, inside the bounds, above what comes after. */
  lemma StepRecords(a: JsString, b: JsString, i: nat, j: nat, mv: Move)
    requires 1 <= i <= |b| && 1 <= j <= |a| && CanMove(i, j, mv)
    ensures var (i2, j2, e) := Step(a, b, i, j, mv);
      |e| <= 1 && InBounds(e, i, j) && Ordered(e) &&
      (forall k :: 0 <= k < |e| ==> i2 <= e[k].src && (!e[k].Delete? ==> j2 < e[k].dest)) &&
      Adds(e) - Deletes(e) == (j - j2) - (i - i2)
  {
  }

  /** The walk visits cells whose indices never increase and never leave row and column 1. */
  lemma {:induction false} BacktraceShape(a: JsString, b: JsString, dist: (nat, nat) -> nat, i: nat, j: nat)
    requires i <= |b| && j <= |a| && Backtrace(a, b, dist, i, j).Ok?
    ensures InBounds(Backtrace(a, b, dist, i, j).value, i, j)
    ensures Ordered(Backtrace(a, b, dist, i, j).value)
    decreases i + j
  {
    BacktraceSucceeds(a, b, dist, i, j);
    var mv := Choice(a, b, dist, i, j).value;
    var (i2, j2, e) := Step(a, b, i, j, mv);
    StepRecords(a, b, i, j, mv);
    if i2 == 1 && j2 == 1 {
      OrderedConcat(e, Final(a, b), i, j, 1, 1);
    } else {
      BacktraceShape(a, b, dist, i2, j2);
      OrderedConcat(e, Backtrace(a, b, dist, i2, j2).value, i, j, i2, j2);
    }
  }

  function Adds(ops: seq<Op>): nat
    decreases |ops|
  {
    if ops == [] then 0 else (if ops[0].Add? then 1 else 0) + Adds(ops[1..])
  }

  function Deletes(ops: seq<Op>): nat
    decreases |ops|
  {
    if ops == [] then 0 else (if ops[0].Delete? then 1 else 0) + Deletes(ops[1..])
  }

  lemma {:induction false} CountsConcat(x: seq<Op>, y: seq<Op>)
    ensures Adds(x + y) == Adds(x) + Adds(y) && Deletes(x + y) == Deletes(x) + Deletes(y)
    decreases |x|
  {
    if x == [] {
      assert x + y == y;
    } else {
      assert (x + y)[0] == x[0] && (x + y)[1..] == x[1..] + y;
      CountsConcat(x[1..], y);
    }
  }

  /** The final record is at most one replacement. */
  lemma FinalCounts(a: JsString, b: JsString)
    requires |a| >= 1 && |b| >= 1
    ensures |Final(a, b)| <= 1 && Adds(Final(a, b)) == 0 && Deletes(Final(a, b)) == 0
  {
  }

  /**
   * From cell (i, j) to cell (1, 1): the adds outnumber the deletes by j - i, and at
   * most i + j - 1 records are pushed.
   */
  lemma {:induction false} BacktraceCounts(a: JsString, b: JsString, dist: (nat, nat) -> nat, i: nat, j: nat)
    requires i <= |b| && j <= |a| && Backtrace(a, b, dist, i, j).Ok?
    ensures Adds(Backtrace(a, b, dist, i, j).value) - Deletes(Backtrace(a, b, dist, i, j).value) == j - i
    ensures |Backtrace(a, b, dist, i, j).value| <= i + j - 1
    decreases i + j
  {
    BacktraceSucceeds(a, b, dist, i, j);
    var mv := Choice(a, b, dist, i, j).value;
    var (i2, j2, e) := Step(a, b, i, j, mv);
    StepRecords(a, b, i, j, mv);
    BacktraceUnfold(a, b, dist, i, j, mv);
    if i2 == 1 && j2 == 1 {
      FinalCounts(a, b);
      CountsConcat(e, Final(a, b));
    } else {
      BacktraceCounts(a, b, dist, i2, j2);
      CountsConcat(e, Backtrace(a, b, dist, i2, j2).value);
    }
  }

  /** The record pushed after a move that ends at (i, j): the final one at (1, 1), none elsewhere. */
  function FinalRecords(a: JsString, b: JsString, i: nat, j: nat): seq<Op>
    requires i <= |b| && j <= |a|
  {
    if i == 1 && j == 1 then Final(a, b) else []
  }

  /** Where no candidate is left the walk throws. */
  lemma BacktraceStuck(a: JsString, b: JsString, dist: (nat, nat) -> nat, i: nat, j: nat)
    requires i <= |b| && j <= |a| && Choice(a, b, dist, i, j) == None
    ensures Backtrace(a, b, dist, i, j) == Err(MinRdaError)
  {
  }

  /** One turn of the walk, from (i0, j0) to (i, j), as the loop body takes it. */
  lemma WalkTurn(a: JsString, b: JsString, dist: (nat, nat) -> nat, i0: nat, j0: nat, mv: Move,
                 before: seq<Op>, i: nat, j: nat, after: seq<Op>)
    requires i0 <= |b| && j0 <= |a| && Choice(a, b, dist, i0, j0) == Some(mv)
    requires (i, j) == (Step(a, b, i0, j0, mv).0, Step(a, b, i0, j0, mv).1)
    requires after == before + Step(a, b, i0, j0, mv).2 + FinalRecords(a, b, i, j)
    ensures i + j < i0 + j0 && i <= |b| && j <= |a|
    ensures i == 1 && j == 1 ==> Prepend(before, Backtrace(a, b, dist, i0, j0)) == Ok(after)
    ensures !(i == 1 && j == 1) ==> Prepend(before, Backtrace(a, b, dist, i0, j0)) == Prepend(after, Backtrace(a, b, dist, i, j))
  {
    BacktraceUnfold(a, b, dist, i0, j0, mv);
    var e := Step(a, b, i0, j0, mv).2;
    if i == 1 && j == 1 {
      assert before + e + Final(a, b) == before + (e + Final(a, b));
    } else {
      assert after == before + e;
      PrependConcat(before, e, Backtrace(a, b, dist, i, j));
    }
  }

  /** Reads the candidates `cr`, `cd`, `ca` around cell (i, j) and picks the move among them. */
  method NextMove(a: JsString, b: JsString, m: array2<int>, ghost dist: (nat, nat) -> nat, i: nat, j: nat) returns (mv: Option<Move>)
    requires m.Length0 == |b| + 1 && m.Length1 == |a| + 1 && i <= |b| && j <= |a|
    requires forall r, c {:trigger m[r, c]} :: 0 <= r <= |b| && 0 <= c <= |a| ==> m[r, c] == dist(r, c)
    ensures mv == Choice(a, b, dist, i, j)
  {
    var cr := if i > 1 && j > 1 then m[i - 1, j - 1] else -1;
    var cd := if i > 1 then m[i - 1, j] else -1;
    var ca := if j > 1 then m[i, j - 1] else -1;
    mv := Pick(cr, cd, ca);
  }

  /**
   * One pass of the body of the `do ... while` loop (index.js lines 186-213): pick the
   * move at cell (i, j), push its records and step.
   */
  method Turn(a: JsString, b: JsString, m: array2<int>, ghost dist: (nat, nat) -> nat, i: nat, j: nat, ops: seq<Op>)
    returns (mv: Option<Move>, i2: nat, j2: nat, ops2: seq<Op>)
    requires m.Length0 == |b| + 1 && m.Length1 == |a| + 1 && i <= |b| && j <= |a|
    requires forall r, c {:trigger m[r, c]} :: 0 <= r <= |b| && 0 <= c <= |a| ==> m[r, c] == dist(r, c)
    ensures mv == Choice(a, b, dist, i, j)
    ensures mv.Some? ==> (i2, j2) == (Step(a, b, i, j, mv.value).0, Step(a, b, i, j, mv.value).1)
    ensures mv.Some? ==> ops2 == ops + Step(a, b, i, j, mv.value).2 + FinalRecords(a, b, i2, j2)
  {
    mv := NextMove(a, b, m, dist, i, j);
    i2, j2, ops2 := i, j, ops;
    ghost var e: seq<Op> := [];
    match mv {
      case Some(Diagonal) =>
        if a[j - 1] != b[i - 1] {
          ops2 := ops2 + [Replace(i, j)];
          e := [Replace(i, j)];
        }
        i2, j2 := i - 1, j - 1;
      case Some(Left) =>
        ops2 := ops2 + [Add(i, j)];
        e := [Add(i, j)];
        j2 := j - 1;
      case Some(Up) =>
        ops2 := ops2 + [Delete(i)];
        e := [Delete(i)];
        i2 := i - 1;
      case None =>
        return;
    }
    assert Step(a, b, i, j, mv.value) == (i2, j2, e);
    ghost var fin: seq<Op> := [];
    if i2 == 1 && j2 == 1 && a[j2 - 1] != b[i2 - 1] {
      ops2 := ops2 + [Replace(i2, j2)];
      fin := [Replace(1, 1)];
    }
    assert fin == FinalRecords(a, b, i2, j2);
  }

  /**
   * The `do ... while` walk back over a filled matrix (index.js lines 180-215), for
   * any table of non-negative cell values `dist` that the matrix holds.
   */
  method Walk(a: JsString, b: JsString, m: array2<int>, ghost dist: (nat, nat) -> nat) returns (result: Result<seq<Op>>)
    requires m.Length0 == |b| + 1 && m.Length1 == |a| + 1
    requires forall r, c {:trigger m[r, c]} :: 0 <= r <= |b| && 0 <= c <= |a| ==> m[r, c] == dist(r, c)
    ensures result == Backtrace(a, b, dist, |b|, |a|)
  {
    var ops: seq<Op> := [];
    var i: nat, j: nat := |b|, |a|;
    ghost var whole := Backtrace(a, b, dist, i, j);
    while true
      invariant i <= |b| && j <= |a|
      invariant Prepend(ops, Backtrace(a, b, dist, i, j)) == whole
      decreases i + j
    {
      var mv, i2, j2, ops2 := Turn(a, b, m, dist, i, j, ops);
      if mv.None? {
        BacktraceStuck(a, b, dist, i, j);
        return Err(MinRdaError);
      }
      WalkTurn(a, b, dist, i, j, mv.value, ops, i2, j2, ops2);
      ops, i, j := ops2, i2, j2;
      if i == 1 && j == 1 {
        break;
      }
    }
    result := Ok(ops);
  }

  /**
   * `levenshteinDistance(a, b)`: fill the matrix, then walk back from the bottom-right
   * cell to (1, 1), pushing records. It returns exactly when both texts are non-empty
   * and not both of length 1; the records, applied in emission order to the old text,
   * give the new one.
   */
  method LevenshteinDistance(a: JsString, b: JsString) returns (result: Result<seq<Op>>)
    ensures result == Backtrace(a, b, LevTable(a, b), |b|, |a|)
    ensures result.Ok? <==> 1 <= |a| && 1 <= |b| && |a| + |b| > 2
    ensures result.Err? ==> result.error == MinRdaError
    ensures result.Ok? ==> Apply(b, result.value, a) == Some(a)
    ensures result.Ok? ==> InBounds(result.value, |b|, |a|) && Ordered(result.value)
    ensures result.Ok? ==> Adds(result.value) - Deletes(result.value) == |a| - |b|
  {
    var m := DistanceMatrix(a, b);
    ghost var dist := LevTable(a, b);
    result := Walk(a, b, m, dist);
    BacktraceSucceeds(a, b, dist, |b|, |a|);
    if result.Ok? {
      BacktraceRoundTrip(a, b, dist, |b|, |a|);
      assert b[..|b|] + a[|a|..] == b;
      BacktraceShape(a, b, dist, |b|, |a|);
      BacktraceCounts(a, b, dist, |b|, |a|);
    }
  }

  /**
   * The records are not a shortest edit script: from the old text "X" to the new text
   * "AX" the walk inserts "A" and then rewrites "X", two records, while one insertion
   * would do.
   */
  lemma NotMinimalExample()
    ensures Lev([0x41, 0x58], [0x58], 1, 2) == 1
    ensures Backtrace([0x41, 0x58], [0x58], LevTable([0x41, 0x58], [0x58]), 1, 2) == Ok([Add(1, 2), Replace(1, 1)])
  {
    var a: JsString, b: JsString := [0x41, 0x58], [0x58];
    assert Lev(a, b, 1, 1) == 1;
    assert Choice(a, b, LevTable(a, b), 1, 2) == Some(Left);
    BacktraceUnfold(a, b, LevTable(a, b), 1, 2, Left);
    assert Final(a, b) == [Replace(1, 1)];
    assert [Add(1, 2)] + [Replace(1, 1)] == [Add(1, 2), Replace(1, 1)];
  }

  /** The diagonal wins at (i, j) when its cell is no larger than the other two. */
  lemma ChoiceDiagonal(a: JsString, b: JsString, dist: (nat, nat) -> nat, i: nat, j: nat)
    requires 2 <= i <= |b| && 2 <= j <= |a|
    requires dist(i - 1, j - 1) <= dist(i - 1, j) && dist(i - 1, j - 1) <= dist(i, j - 1)
    ensures Choice(a, b, dist, i, j) == Some(Diagonal)
  {
  }

  /** A diagonal step between equal code units pushes nothing. */
  lemma DiagonalKeeps(a: JsString, b: JsString, dist: (nat, nat) -> nat, i: nat, j: nat)
    requires 2 <= i <= |b| && 2 <= j <= |a| && a[j - 1] == b[i - 1]
    requires Choice(a, b, dist, i, j) == Some(Diagonal)
    ensures Backtrace(a, b, dist, i, j) == if i == 2 && j == 2 then Ok(Final(a, b)) else Backtrace(a, b, dist, i - 1, j - 1)
  {
    var e: seq<Op> := [];
    assert Step(a, b, i, j, Diagonal) == (i - 1, j - 1, e);
    BacktraceUnfold(a, b, dist, i, j, Diagonal);
    assert e + Final(a, b) == Final(a, b);
  }

  /**
   * Where the first i code units of the two texts agree, the walk from (i, i) goes
   * diagonally all the way and pushes nothing.
   */
  lemma {:induction false} BacktraceSamePrefix(a: JsString, b: JsString, i: nat)
    requires 2 <= i <= |a| && i <= |b| && a[..i] == b[..i]
    ensures Backtrace(a, b, LevTable(a, b), i, i) == Ok([])
    decreases i
  {
    var dist := LevTable(a, b);
    assert a[..i - 1] == a[..i][..i - 1] && b[..i - 1] == b[..i][..i - 1];
    assert a[i - 1] == a[..i][i - 1] && b[i - 1] == b[..i][i - 1];
    LevZeroIff(a, b, i - 1, i - 1);
    assert dist(i - 1, i - 1) == 0;
    ChoiceDiagonal(a, b, dist, i, i);
    DiagonalKeeps(a, b, dist, i, i);
    if i == 2 {
      assert a[0] == a[..i][0] && b[0] == b[..i][0];
    } else {
      BacktraceSamePrefix(a, b, i - 1);
    }
  }

  /**
   * Two texts of the same length that differ in the code unit at position k only:
   * the diagonal cells from (k + 1, k + 1) on are at most 1.
   */
  lemma {:induction false} LevDiagonalOne(a: JsString, b: JsString, k: nat, r: nat)
    requires |a| == |b| && k < r <= |a| && a[..k] == b[..k] && a[k + 1..] == b[k + 1..]
    ensures Lev(a, b, r, r) <= 1
    decreases r
  {
    if r == k + 1 {
      LevZeroIff(a, b, k, k);
    } else {
      LevDiagonalOne(a, b, k, r - 1);
      assert a[r - 1] == a[k + 1..][r - 2 - k] && b[r - 1] == b[k + 1..][r - 2 - k];
    }
  }

  /**
   * Two texts of the same length that differ in the code unit at position k only:
   * the walk from (i, i), for any i past k, emits the one record that rewrites block
   * k + 1.
   */
  lemma {:induction false} BacktraceOneReplace(a: JsString, b: JsString, k: nat, i: nat)
    requires |a| == |b| && k < |a| && a[..k] == b[..k] && a[k] != b[k] && a[k + 1..] == b[k + 1..]
    requires k + 1 <= i <= |a| && 2 <= i
    ensures Backtrace(a, b, LevTable(a, b), i, i) == Ok([Replace(k + 1, k + 1)])
    decreases i
  {
    var dist := LevTable(a, b);
    if i == k + 1 {
      LevZeroIff(a, b, k, k);
      assert dist(k, k) == 0;
      ChoiceDiagonal(a, b, dist, i, i);
      BacktraceUnfold(a, b, dist, i, i, Diagonal);
      assert Step(a, b, i, i, Diagonal) == (k, k, [Replace(i, i)]);
      if k == 1 {
        assert a[0] == a[..k][0] && b[0] == b[..k][0];
        assert Final(a, b) == [];
        assert [Replace(i, i)] + [] == [Replace(i, i)];
      } else {
        BacktraceSamePrefix(a, b, k);
        assert [Replace(i, i)] + [] == [Replace(i, i)];
      }
    } else {
      LevDiagonalOne(a, b, k, i - 1);
      LevLower(a, b, i - 1, i);
      LevLower(a, b, i, i - 1);
      ChoiceDiagonal(a, b, dist, i, i);
      assert a[i - 1] == a[k + 1..][i - 2 - k] && b[i - 1] == b[k + 1..][i - 2 - k];
      DiagonalKeeps(a, b, dist, i, i);
      if i > 2 {
        BacktraceOneReplace(a, b, k, i - 1);
      }
    }
  }
}
