/**
 The operand-stack operators of psi/zstack.c other than `roll`: `pop`,
 `exch`, `dup`, `index`, `.argindex`, `clear`, `count`, `mark`,
 `cleartomark` and `counttomark`. All but the interpreter-internal
 `.argindex` belong to the "Operand Stack Manipulation Operators" group of
 the operator summary in section 8.1 of the PostScript Language Reference
 Manual, third edition, and are described in its chapter 8. Each is a function from the stack before
 the call to the stack after it, or to the error it raises.

 `index` and `.argindex` are declared with two operands in the operator
 table, so their callers guarantee two operands (`requires |s| >= 2`);
 `pop`, `exch` and `dup` check their operand count themselves and report
 stackunderflow; the remaining operators take no operands.
 */
module StackOps {
  import opened Operands

  /** `<obj> pop -`: removes the top operand. */
  function Pop(s: Stack): (r: Result)
    ensures |s| == 0 <==> r == Err(StackUnderflow)
    ensures r.Err? ==> r.code == StackUnderflow
    ensures r.Ok? ==> r.stack + [s[|s| - 1]] == s
  {
    if |s| < 1 then Err(StackUnderflow)
    else Ok(s[..|s| - 1])
  }

  /** `<a> <b> exch <b> <a>`: swaps the top two operands. */
  function Exch(s: Stack): (r: Result)
    ensures |s| < 2 <==> r == Err(StackUnderflow)
    ensures r.Err? ==> r.code == StackUnderflow
    ensures r.Ok? ==> |r.stack| == |s|
    ensures r.Ok? ==> r.stack[|s| - 1] == s[|s| - 2] && r.stack[|s| - 2] == s[|s| - 1]
    ensures r.Ok? ==> r.stack[..|s| - 2] == s[..|s| - 2]
  {
    if |s| < 2 then Err(StackUnderflow)
    else
      var next := s[|s| - 2];
      Ok(s[..|s| - 2] + [s[|s| - 1]] + [next])
  }

  /** `<obj> dup <obj> <obj>`: pushes a copy of the top operand. */
  function Dup(s: Stack): (r: Result)
    ensures |s| == 0 <==> r == Err(StackUnderflow)
    ensures r.Err? ==> r.code == StackUnderflow
    ensures r.Ok? ==> |r.stack| == |s| + 1 && r.stack[..|s|] == s
    ensures r.Ok? ==> r.stack[|s|] == r.stack[|s| - 1]
  {
    if |s| < 1 then Err(StackUnderflow)
    else Ok(s + [s[|s| - 1]])
  }

  /** C's `~x` on a two's-complement integer. */
  function BitNot(x: int): int
  {
    -x - 1
  }

  /** `<obj_n> ... <obj_0> <n> index <obj_n> ... <obj_0> <obj_n>`: replaces
      n by a copy of the operand n places beneath it (0 is the one directly
      beneath n). */
  function Index(s: Stack): (r: Result)
    requires |s| >= 2
    ensures r == Err(TypeCheck) <==> !s[|s| - 1].Int?
    ensures r == Err(RangeCheck) <==> s[|s| - 1].Int? && s[|s| - 1].value < 0
    ensures r == Err(StackUnderflow) <==> s[|s| - 1].Int? && s[|s| - 1].value >= |s| - 1
    ensures r.Ok? <==> s[|s| - 1].Int? && 0 <= s[|s| - 1].value < |s| - 1
    ensures r.Ok? ==> |r.stack| == |s| && r.stack[..|s| - 1] == s[..|s| - 1]
    ensures r.Ok? ==> r.stack[|s| - 1] == s[|s| - 2 - s[|s| - 1].value]
  {
    var n := s[|s| - 1];
    if !n.Int? then Err(TypeCheck)
    else if n.value < 0 then Err(RangeCheck)
    else if n.value >= |s| - 1 then Err(StackUnderflow)
    else Ok(s[..|s| - 1] + [s[|s| - 2 - n.value]])
  }

  /** `index` as zstack.c writes it, over a stack of which the bottom `base`
      operands lie in older stack blocks: the operand is fetched directly at
      `op + ~n` when it lies in the current block, and otherwise looked up
      across blocks, where a missing element is a stackunderflow. Both paths
      give the result of `Index`. */
  function ZIndex(s: Stack, base: nat): (r: Result)
    requires |s| >= 2 && base <= |s| - 2
    ensures r == Index(s)
  {
    var n := s[|s| - 1];
    if !n.Int? then Err(TypeCheck)
    else if n.value < 0 || n.value >= |s| - 1 - base then
      // a negative n compares above every depth once both sides are unsigned
      if n.value < 0 then Err(RangeCheck)
      else if n.value + 1 >= |s| then Err(StackUnderflow)
      else Ok(s[..|s| - 1] + [s[|s| - 1 - (n.value + 1)]])
    else
      Ok(s[..|s| - 1] + [s[|s| - 1 + BitNot(n.value)]])
  }

  /** `.argindex`: `index`, except that a rangecheck raised for a
      non-negative n is reported as a stackunderflow. Since `index` raises
      rangecheck only for a negative n, the remapping never applies: the
      outcomes are those of `index`, each error raised exactly when
      `index` raises it. */
  function ArgIndex(s: Stack): (r: Result)
    requires |s| >= 2
    ensures r == Err(TypeCheck) <==> !s[|s| - 1].Int?
    ensures r == Err(RangeCheck) <==> s[|s| - 1].Int? && s[|s| - 1].value < 0
    ensures r == Err(StackUnderflow) <==> s[|s| - 1].Int? && s[|s| - 1].value >= |s| - 1
    ensures r.Ok? <==> s[|s| - 1].Int? && 0 <= s[|s| - 1].value < |s| - 1
    ensures r.Ok? ==> |r.stack| == |s| && r.stack[..|s| - 1] == s[..|s| - 1]
    ensures r.Ok? ==> r.stack[|s| - 1] == s[|s| - 2 - s[|s| - 1].value]
  {
    var code := Index(s);
    if code == Err(RangeCheck) && s[|s| - 1].Int? && s[|s| - 1].value >= 0 then
      Err(StackUnderflow)
    else code
  }

  /** `|- ... clear |-`: empties the stack. */
  function Clear(s: Stack): (r: Result)
    ensures r.Ok? && |r.stack| == 0
  {
    Ok([])
  }

  /** `count`: pushes the number of operands on the stack. */
  function Count(s: Stack): (r: Result)
    ensures r.Ok? && |r.stack| == |s| + 1 && r.stack[..|s|] == s
    ensures r.stack[|s|] == Int(|s|)
  {
    Ok(s + [Int(|s|)])
  }

  /** `- mark <mark>`: pushes a mark. */
  function PushMark(s: Stack): (r: Result)
    ensures r.Ok? && |r.stack| == |s| + 1 && r.stack[..|s|] == s
    ensures r.stack[|s|] == Mark
  {
    Ok(s + [Mark])
  }

  /** `<mark> ... cleartomark`: pops everything down to and including the
      topmost mark; unmatchedmark when there is none. */
  function ClearToMark(s: Stack): (r: Result)
    ensures r.Err? <==> Mark !in s
    ensures r.Err? ==> r.code == UnmatchedMark
    ensures r.Ok? ==> |r.stack| < |s| && r.stack == s[..|r.stack|]
    ensures r.Ok? ==> s[|r.stack|] == Mark && Mark !in s[|r.stack| + 1..]
  {
    var count := CountThroughMark(s);
    if count == 0 then Err(UnmatchedMark)
    else Ok(s[..|s| - count])
  }

  /** `<mark> <obj_n-1> ... <obj_0> counttomark <mark> <obj_n-1> ... <obj_0> <n>`:
      pushes the number of operands above the topmost mark; unmatchedmark
      when there is none. */
  function CountToMark(s: Stack): (r: Result)
    ensures r.Err? <==> Mark !in s
    ensures r.Err? ==> r.code == UnmatchedMark
    ensures r.Ok? ==> |r.stack| == |s| + 1 && r.stack[..|s|] == s
    ensures r.Ok? ==> r.stack[|s|].Int? && 0 <= r.stack[|s|].value < |s|
    ensures r.Ok? ==> s[|s| - 1 - r.stack[|s|].value] == Mark
                      && Mark !in s[|s| - r.stack[|s|].value..]
  {
    var count := CountThroughMark(s);
    if count == 0 then Err(UnmatchedMark)
    else Ok(s + [Int(count - 1)])
  }

  /* ---------- how the operators relate ---------- */

  /** `pop` undoes any push. */
  lemma PopUndoesPush(s: Stack, x: Operand)
    ensures Pop(s + [x]) == Ok(s)
    ensures Pop(Dup(s + [x]).stack) == Ok(s + [x])
    ensures Pop(Count(s).stack) == Ok(s)
    ensures Pop(PushMark(s).stack) == Ok(s)
  {
  }

  /** `exch` is its own inverse. */
  lemma ExchInvolution(s: Stack)
    requires |s| >= 2
    ensures Exch(Exch(s).stack) == Ok(s)
  {
    assert Exch(s).stack == s[..|s| - 2] + [s[|s| - 1], s[|s| - 2]];
  }

  /** `0 index` is `dup`, and `1 index` copies the second operand (`over`). */
  lemma IndexSmall(s: Stack)
    requires |s| >= 2
    ensures Index(s + [Int(0)]) == Dup(s)
    ensures Index(s + [Int(1)]) == Ok(s + [s[|s| - 2]])
  {
  }

  /** Every `.argindex` result is the `index` result: `index` reports a
      rangecheck only for a negative n, so the remapping never applies. */
  lemma ArgIndexIsIndex(s: Stack)
    requires |s| >= 2
    ensures ArgIndex(s) == Index(s)
  {
  }

  /** After `clear` the stack counts zero operands and holds no mark. */
  lemma ClearThenCount(s: Stack)
    ensures Count(Clear(s).stack) == Ok([Int(0)])
    ensures ClearToMark(Clear(s).stack) == Err(UnmatchedMark)
    ensures CountToMark(Clear(s).stack) == Err(UnmatchedMark)
  {
  }

  /** On a stack "below, mark, above" with no mark above, `counttomark`
      pushes |above| and `cleartomark` leaves exactly `below`. */
  lemma MarkedStack(below: Stack, above: Stack)
    requires Mark !in above
    ensures CountToMark(below + [Mark] + above) == Ok(below + [Mark] + above + [Int(|above|)])
    ensures ClearToMark(below + [Mark] + above) == Ok(below)
  {
    CountThroughMarkSplit(below, above);
    assert (below + [Mark] + above)[..|below|] == below;
  }

  /** `mark` followed by `counttomark` pushes 0; followed by `cleartomark`
      it restores the stack. */
  lemma MarkRoundTrip(s: Stack)
    ensures CountToMark(PushMark(s).stack) == Ok(s + [Mark, Int(0)])
    ensures ClearToMark(PushMark(s).stack) == Ok(s)
  {
    MarkedStack(s, []);
    assert s + [Mark] + [] == s + [Mark];
  }

  /** `counttomark` reports k exactly when `cleartomark` removes k operands
      and the mark. */
  lemma CountToMarkMeasuresClearToMark(s: Stack)
    requires Mark in s
    ensures CountToMark(s).Ok? && ClearToMark(s).Ok?
    ensures CountToMark(s).stack[|s|] == Int(|s| - 1 - |ClearToMark(s).stack|)
  {
  }
}
