/**
 The PostScript operand stack as a value: a sequence of operands with the
 top of the stack at the END of the sequence, and the outcome of an
 operator, either the new stack or one of the PostScript error names.
 */
module Operands {

  /** An operand, abstracted to what the stack operators look at: integers
      (their value matters to `index` and `roll`), marks (`mark`,
      `counttomark`, `cleartomark`), and every other object, told apart by
      an opaque tag so that the operators' moves are observable. */
  datatype Operand = Int(value: int) | Mark | Other(tag: nat)

  /** The errors the stack operators can raise. */
  datatype Error = StackUnderflow | StackOverflow | RangeCheck | TypeCheck | UnmatchedMark

  type Stack = seq<Operand>

  /** An operator either succeeds with a new stack or fails with an error;
      on failure the stack is left as it was. */
  datatype Result = Ok(stack: Stack) | Err(code: Error)

  /** The number of operands from the top of s down to and including the
      topmost mark, or 0 when s holds no mark: the count the stack helper
      `ref_stack_counttomark` reports. */
  function CountThroughMark(s: Stack): (c: nat)
    ensures c <= |s|
    ensures c == 0 <==> Mark !in s
    ensures c > 0 ==> s[|s| - c] == Mark && Mark !in s[|s| - c + 1..]
    decreases |s|
  {
    if |s| == 0 then 0
    else if s[|s| - 1] == Mark then 1
    else
      var below := s[..|s| - 1];
      assert s == below + [s[|s| - 1]];
      var c := CountThroughMark(below);
      if c == 0 then 0
      else
        assert s[|s| - (c + 1) + 1..] == below[|below| - c + 1..] + [s[|s| - 1]];
        c + 1
  }

  /** The count through the topmost mark is determined by where that mark
      sits: a stack "below, mark, above" with no mark above counts
      |above| + 1. */
  lemma {:induction false} CountThroughMarkSplit(below: Stack, above: Stack)
    requires Mark !in above
    ensures CountThroughMark(below + [Mark] + above) == |above| + 1
    decreases |above|
  {
    var s := below + [Mark] + above;
    if |above| > 0 {
      var shorter := above[..|above| - 1];
      assert above == shorter + [above[|above| - 1]];
      assert Mark !in shorter;
      CountThroughMarkSplit(below, shorter);
      assert s[..|s| - 1] == below + [Mark] + shorter;
    }
  }
}
