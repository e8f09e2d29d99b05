/**
 The operator table of psi/zstack.c. Each entry's name carries, as its
 first character, the number of operands the interpreter checks for before
 it calls the operator; a stack with fewer operands is a stackunderflow and
 the operator does not run. This is what lets `roll` read its two operands
 without a depth check, and `index` and `.argindex` read n without one;
 those two bound-check the operand beneath n themselves.
 */
module OpTable {
  import opened Operands
  import opened StackOps
  import opened Rolls

  datatype Op =
    | ArgIndexOp | ClearOp | ClearToMarkOp | CountOp | CountToMarkOp | DupOp
    | ExchOp | IndexOp | MarkOp | PopOp | RollOp

  /** The table entry's name: the operand count digit, then the operator name. */
  function Def(op: Op): (d: string)
    ensures |d| >= 2 && '0' <= d[0] <= '9'
  {
    match op
    case ArgIndexOp => "2.argindex"
    case ClearOp => "0clear"
    case ClearToMarkOp => "0cleartomark"
    case CountOp => "0count"
    case CountToMarkOp => "0counttomark"
    case DupOp => "1dup"
    case ExchOp => "2exch"
    case IndexOp => "2index"
    case MarkOp => "0mark"
    case PopOp => "1pop"
    case RollOp => "2roll"
  }

  /** The operand count the interpreter checks before the call. */
  function Arity(op: Op): (k: nat)
    ensures k <= 9
  {
    (Def(op)[0] as int) - ('0' as int)
  }

  /** Calling the operator through the table: the declared operand count is
      checked first, then the operator runs on the stack. */
  function Execute(op: Op, s: Stack): (r: Result)
    ensures |s| < Arity(op) ==> r == Err(StackUnderflow)
  {
    if |s| < Arity(op) then Err(StackUnderflow)
    else
      match op
      case ArgIndexOp => ArgIndex(s)
      case ClearOp => Clear(s)
      case ClearToMarkOp => ClearToMark(s)
      case CountOp => Count(s)
      case CountToMarkOp => CountToMark(s)
      case DupOp => Dup(s)
      case ExchOp => Exch(s)
      case IndexOp => Index(s)
      case MarkOp => PushMark(s)
      case PopOp => Pop(s)
      case RollOp => Roll(s)
  }

  /** Every operator is declared with at most two operands. `roll`, which
      reads its two operands without a depth check, is declared with two,
      and so are `index` and `.argindex`, which read n without one. */
  lemma AritiesCoverOperands(op: Op)
    ensures Arity(op) <= 2
    ensures op == IndexOp || op == ArgIndexOp || op == RollOp ==> Arity(op) == 2
  {
  }

  /** `pop`, `exch` and `dup` check their own operand counts, and those
      checks agree with the declared ones: going through the table changes
      nothing for them. */
  lemma SelfCheckedAgree(s: Stack)
    ensures Execute(PopOp, s) == Pop(s)
    ensures Execute(ExchOp, s) == Exch(s)
    ensures Execute(DupOp, s) == Dup(s)
  {
  }

  /** Operators that take no operands never report stackunderflow. */
  lemma NoOperandsNoUnderflow(op: Op, s: Stack)
    requires Arity(op) == 0
    ensures Execute(op, s) != Err(StackUnderflow)
  {
  }
}
