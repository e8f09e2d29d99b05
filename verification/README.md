# Operand-stack operators of a PostScript interpreter, in Dafny

This project models the operand-stack operators of `psi/zstack.c`:
`pop`, `exch`, `dup`, `index`, `.argindex`, `roll`, `clear`, `count`,
`mark`, `cleartomark` and `counttomark`. All but the interpreter-internal
`.argindex` belong to the "Operand Stack Manipulation Operators" group of the
operator summary in section 8.1 of the PostScript Language Reference
Manual, third edition.
The project also models the operator table that declares how many operands
each operator needs.

The operand stack is a `seq<Operand>` with its top at the end. An operand is
one of three things:
- an integer;
- a mark;
- any other object, told apart from the rest by an opaque tag.

Each operator is a function from the stack before the call to a `Result`.
The result is either the new stack or one of the PostScript errors:
stackunderflow, stackoverflow, rangecheck, typecheck or unmatchedmark.

`roll` gets the most attention, because zstack.c implements it twice:
- **Multi-block path.** When the window may span several stack blocks, the
  shift is normalised into `[0, n)` and the window is rotated in place by
  following chains. There are gcd(n, mod) chains, each of length
  n / gcd(n, mod).
- **Single-block path.** When the window lies in the current block, it is
  rotated in the block's storage. `1` and `-1` have their own
  one-place loops. Any other shift is done with two block moves, using free
  slots above the top as scratch space.

The single-block path reports stackoverflow when the distance it moves
the window is not smaller than the number of free slots above the top.
That includes a shift that is a multiple of n on a full block, where no
scratch slot would be needed. The model keeps that behaviour.

Both paths are written as imperative methods with loop invariants. Each is
proved to produce the rotation that the pure `Rolls.Roll` specifies.
`Rolls.Roll` in turn is shown to:
- permute the window;
- depend only on the shift modulo n;
- be undone by the opposite shift.

Modules:
- **Operands**: operands, errors, results, and the count through the
  topmost mark.
- **StackOps**: every operator except `roll`, and the laws that relate them.
- **Rolls**: the rotation `RollWindow`, the operator `Roll` with its error
  cases, and properties of both.
- **ModArith**: the facts about remainders behind `roll`:
  - C's truncating `%`;
  - the two shift normalisations;
  - gcd and Bezout;
  - the orbits of "add m modulo n".
- **ChainRotation**: the multi-block path of `roll`.
- **BlockRotation**: the single-block path of `roll`, and `zroll` as a
  whole.
- **OpTable**: the operator table and its operand-count check.

## Model

| member | source | states |
|---|---|---|
| Operands.CountThroughMark | psi/zstack.c:277-281 | The count through the topmost mark is 0 exactly when the stack holds no mark. Otherwise the operand that many places from the top is a mark, and there is no mark above it. |
| Operands.CountThroughMarkSplit | psi/zstack.c:291-296 | On a stack "below, mark, above" with no mark in `above`, the count is \|above\| + 1, so it includes the mark. |
| StackOps.Pop | psi/zstack.c:25-34 | Fails, and then only with stackunderflow, exactly on an empty stack. Otherwise it succeeds, removing exactly the top operand, so pushing that operand back restores the stack. |
| StackOps.Exch | psi/zstack.c:36-48 | Fails, and then only with stackunderflow, exactly when there are fewer than two operands. Otherwise it succeeds: the top two swap places and everything beneath is unchanged. |
| StackOps.Dup | psi/zstack.c:50-60 | Fails, and then only with stackunderflow, exactly on an empty stack. Otherwise it succeeds: the depth grows by one, the old stack is kept, and the new top equals the old top. |
| StackOps.Index | psi/zstack.c:62-85 | Gives typecheck for a non-integer n, rangecheck for n < 0, and stackunderflow when n is at least the number of operands beneath it; each error happens exactly then. It succeeds exactly when n is an integer with 0 <= n below that number. On success the depth is unchanged, everything beneath is kept, and n is replaced by the operand n places down. |
| StackOps.ZIndex | psi/zstack.c:69-84 | The two-path code, whose fast path uses `op + ~n` and whose slow path goes through a lookup across blocks, gives the result of `Index` on every stack and for every split point between blocks. |
| StackOps.ArgIndex | psi/zstack.c:87-102 | Gives typecheck for a non-integer n, rangecheck for n < 0, and stackunderflow when n is at least the number of operands beneath it, each exactly then, just as `index` does. So the stackunderflow remap of lines 99-100 never changes a result. It succeeds exactly when 0 <= n is below that number. On success n is replaced by the operand n places down, and everything beneath is kept. |
| StackOps.ArgIndexIsIndex | psi/zstack.c:69-77 | `index` raises rangecheck only for a negative n, so `.argindex` always has the result of `index`. |
| StackOps.Clear | psi/zstack.c:241-249 | Always succeeds and leaves an empty stack. |
| StackOps.Count | psi/zstack.c:251-260 | Pushes the integer equal to the depth before the push and keeps everything beneath. |
| StackOps.PushMark | psi/zstack.c:262-271 | Pushes a mark and keeps everything beneath. |
| StackOps.ClearToMark | psi/zstack.c:273-283 | Fails with unmatchedmark exactly when there is no mark. Otherwise the result is a proper prefix of the stack, the slot just above that prefix holds a mark, and no mark lies above that slot, so the topmost mark and everything above it are gone. |
| StackOps.CountToMark | psi/zstack.c:285-298 | Fails with unmatchedmark exactly when there is no mark. Otherwise it keeps the stack and pushes an integer k. The operand k + 1 places down is a mark and none of the k operands above it is one. |
| StackOps.PopUndoesPush | psi/zstack.c:25-60 | `pop` undoes a push, a `dup`, a `count` and a `mark`. |
| StackOps.ExchInvolution | psi/zstack.c:36-48 | Applying `exch` twice restores the stack. |
| StackOps.IndexSmall | psi/zstack.c:62-85 | `0 index` is `dup`, and `1 index` copies the second operand. |
| StackOps.ClearThenCount | psi/zstack.c:241-298 | After `clear`, `count` pushes 0 and both mark operators report unmatchedmark. |
| StackOps.MarkedStack | psi/zstack.c:273-298 | On "below, mark, above" with no mark in `above`, `counttomark` pushes \|above\| and `cleartomark` leaves exactly `below`. |
| StackOps.MarkRoundTrip | psi/zstack.c:262-298 | After `mark`, `counttomark` pushes 0, and `cleartomark` restores the stack. |
| StackOps.CountToMarkMeasuresClearToMark | psi/zstack.c:273-298 | When there is a mark, `counttomark` reports exactly one less than the number of operands `cleartomark` removes. |
| Rolls.RollWindow | psi/zstack.c:104-105 | The window keeps its size, and the operand at position k lands at position (k + j) mod n. |
| Rolls.Roll | psi/zstack.c:115-134 | Gives typecheck when either operand is not an integer, rangecheck for n < 0, and stackunderflow when fewer than n operands lie beneath the two; each error happens exactly then. It succeeds exactly when both are integers and 0 <= n is at most the number beneath, so it never reports stackoverflow. On success the two operands are removed, the stack below the window is unchanged, and the window operand at k lands at (k + j) mod n. |
| Rolls.RollOn | psi/zstack.c:104-105 | `n j roll` on "below, window, n, j", with n the window's size, leaves `below` followed by the rotated window. |
| Rolls.RollWindowPermutes | psi/zstack.c:104-105 | Rotation permutes the window: the multiset of operands is unchanged. |
| Rolls.RollWindowCompose | psi/zstack.c:104-105 | Rotating by j and then by j' is rotating by j + j'. |
| Rolls.RollWindowCongruent | psi/zstack.c:135-142 | Shifts congruent modulo the window size rotate alike, which is why both paths may normalise the shift. |
| Rolls.RollPeriodic | psi/zstack.c:135-142 | `n j roll` and `n (j + k*n) roll` give the same result. |
| Rolls.RollWindowUndo | psi/zstack.c:104-105 | Rotating by -j undoes rotating by j, and the other way round. |
| Rolls.RollUndo | psi/zstack.c:104-105 | `n j roll` restores the stack that `n -j roll` produced. |
| Rolls.RollWindowByOne | psi/zstack.c:178-202 | A rotation by 1 moves the top operand of the window to its bottom. A rotation by -1 moves the bottom operand to the top. |
| Rolls.RollUpByOne | psi/zstack.c:104-105 | `n 1 roll` makes the old top the bottom of the window. |
| Rolls.RollDownByOne | psi/zstack.c:190-202 | `n -1 roll` makes the old bottom the top of the window. |
| ModArith.CRem | psi/zstack.c:136-141 | C's `a % n` for positive n: it lies strictly between -n and n, has the sign of `a`, and differs from `a` by a multiple of n. |
| ModArith.NormalizeChainShift | psi/zstack.c:135-142 | The multi-block normalisation, including its correction for a negative C remainder, yields exactly j mod n in [0, n). |
| ModArith.NormalizeBlockShift | psi/zstack.c:204-212 | The single-block normalisation adds n once and only then falls back to the corrected C remainder. It also yields exactly j mod n in [0, n). |
| ModArith.GcdDivides | psi/zstack.c:144-159 | The gcd of the window size and the shift is positive and divides both. |
| ModArith.Bezout | psi/zstack.c:144-159 | Extended Euclid: coefficients whose combination of the two numbers is their gcd. |
| ModArith.OrbitStep | psi/zstack.c:151-152 | Each step of a chain is "add mod, modulo count". |
| ModArith.OrbitClass | psi/zstack.c:144-159 | A chain stays in the residue class of its start modulo g = gcd(count, mod). |
| ModArith.OrbitPeriod | psi/zstack.c:144-159 | Every chain returns to its start after count / g steps. |
| ModArith.OrbitRepeat | psi/zstack.c:144-159 | Two step counts that reach the same depth differ by a multiple of count / g. |
| ModArith.OrbitInjective | psi/zstack.c:144-159 | Within one period a chain never revisits a depth. |
| ModArith.OrbitIndex | psi/zstack.c:144-159 | Every depth in the class of i is reached from i within count / g steps. |
| ChainRotation.SetElt | psi/zstack.c:153-158 | An assignment through `ref_stack_index(&o_stack, d + 2)` changes exactly one depth of the window. The depth-d read of lines 145 and 155 is the helper `ChainRotation.Elt`. |
| ChainRotation.FollowChain | psi/zstack.c:145-158 | One pass of the outer loop rotates exactly the chain through i, which holds the depths congruent to i modulo g. The other chains keep their state. The `left` counter goes down by count / g. |
| ChainRotation.ChainLinked | psi/zstack.c:150-156 | One link of the inner loop: the depth reached at step t takes the operand of s from mod places deeper. |
| ChainRotation.ChainClosed | psi/zstack.c:158 | Storing the saved operand at the end of the chain completes it. |
| ChainRotation.ChainsLeft | psi/zstack.c:144-146 | The `left` counter reaches 0 exactly when all g chains are done, so the outer loop runs once per chain. |
| ChainRotation.ChainRotate | psi/zstack.c:144-159 | Afterwards every depth d of the window holds the operand from depth (d + mod) mod count, and nothing outside the window has changed. |
| ChainRotation.ChainWindow | psi/zstack.c:104-105 | A window holding, at depth d, the operand from depth d + (j mod count) is the window rotated by j. |
| ChainRotation.ChainResultIsRoll | psi/zstack.c:144-160 | The result of the chain rotation, with the two operands popped, is the stack that `roll` specifies. |
| ChainRotation.ChainRoll | psi/zstack.c:115-161 | The multi-block path, with its checks, its early pop for n <= 1, the normalisation and the chain rotation, produces exactly `Roll` on every stack. |
| BlockRotation.Copy | psi/zstack.c:223 | `memcpy` on non-overlapping ranges: the destination slots take the source slots, and every other slot is unchanged. |
| BlockRotation.RotateUpOne | psi/zstack.c:178-189 | The `1` special case rotates the window by 1 in place and touches nothing outside it. |
| BlockRotation.RotateDownOne | psi/zstack.c:190-202 | The `-1` special case rotates the window by -1 in place and touches nothing outside it. |
| BlockRotation.ShiftUp | psi/zstack.c:213-223 | Moving everything up by m and then copying the top m down rotates the window by m. Below the window and above the scratch slots nothing changes. |
| BlockRotation.ShiftDown | psi/zstack.c:224-237 | Copying the bottom k up and then moving everything down by k rotates the window by -k. Below the window and above the scratch slots nothing changes. |
| BlockRotation.MoveDistance | psi/zstack.c:213-226 | The general case moves the window by at most half its size: either j mod count or count minus that. |
| BlockRotation.TwoBlockMoves | psi/zstack.c:203-237 | Reports stackoverflow exactly when the distance moved is at least the number of free slots above the top. Otherwise the window is rotated by j and the slots below it are kept. |
| BlockRotation.MoveInBlock | psi/zstack.c:177-237 | Reports stackoverflow exactly when `BlockRotation.Overflows` holds. That predicate is the capacity test `mod >= ostop - op` of lines 215 and 227, with the `1` and `-1` cases of lines 178 and 190 exempt. Every shift that does not overflow rotates the window by j. |
| BlockRotation.BlockResultIsRoll | psi/zstack.c:163-237 | A block whose window has been rotated by j holds the stack that `roll` specifies for the whole stack. |
| BlockRotation.ZRoll | psi/zstack.c:106-239 | The result is stackoverflow or exactly `Roll` of the whole stack. Stackoverflow happens exactly when `BlockRotation.Overflows` holds, the single-block capacity test of lines 215 and 227, and only when `roll` would have succeeded. It never happens when more than half of the window fits above the top. So both paths yield the same rotation. |
| OpTable.Def | psi/zstack.c:304-314 | Every table entry is a decimal digit followed by a non-empty operator name. |
| OpTable.Arity | psi/zstack.c:304-314 | The operand count an entry declares, read from its leading digit, is at most 9. |
| OpTable.Execute | psi/zstack.c:302-316 | A call with fewer operands than the table entry declares reports stackunderflow without running the operator. |
| OpTable.AritiesCoverOperands | psi/zstack.c:302-316 | No operator declares more than two operands. `roll` reads its two operands without a depth check. `index` and `.argindex` read n without one and bound-check the operand beneath it. All three are declared with two. |
| OpTable.SelfCheckedAgree | psi/zstack.c:302-316 | For `pop`, `exch` and `dup`, the declared count agrees with the operator's own `check_op`, so calling through the table gives the operator's own result on every stack. |
| OpTable.NoOperandsNoUnderflow | psi/zstack.c:302-316 | An operator declared with no operands never reports stackunderflow. |

## Left out

- The multi-block stack machinery (`ref_stack_index`, `ref_stack_count`, `ref_stack_counttomark`, `ref_stack_clear`, `ref_stack_pop`) is not part of this model. The stack is one flat sequence. The block split appears only as a parameter: `base` in `ZIndex`, and `lower`/`blk`/`sp` in `ZRoll`.
- Stack capacity for pushes is not modelled: `push(1)` in `dup`, `count`, `counttomark` and `mark` always succeeds. Growing the stack is the interpreter's business, outside this file.
- `o_stack.requested` (lines 216 and 228) is not modelled. It only records the size of a stackoverflow request for the interpreter, and the stackoverflow error itself is modelled.
- Integers are unbounded. For `index`, the `(ulong)` comparison at line 70 is modelled by its effect: a negative n takes the slow path and gets rangecheck. The `~(int)` cast at line 82 is applied only to an n smaller than the depth, so it loses nothing.
- Rolls.Roll, ChainRotation.ChainRoll, BlockRotation.ZRoll: n and j are used as mathematical integers. The source narrows them into C `int`s:
  - the operand's integer value (declared outside this file) may be wider than `int`;
  - `(uint)` at line 117 and the assignments to the `int` variables `count` and `mod` (declared at line 111) at lines 130, 135, 163 and 168 then keep only the low bits.
  - For example, `3 4294967297 roll` takes the `case 1` branch at line 178 in the source and rotates by 1. The model rotates by 4294967297 mod 3 = 2.
  - `4294967298 1 roll` with two operands beneath it in the current block: in the source, `(uint)` at line 117 sees 2, so it takes the single-block path and rotates a window of 2 operands. The model reports stackunderflow.
  - The model agrees with the source whenever n and j fit in a C `int`; outside that range it does not model the narrowing.
- Operands are abstract values. `ref_assign`, `ref_assign_inline` and the `memcpy` of `ref` bytes are modelled as copying an operand into a slot, and the aliasing concerns of the source comment do not arise.
- The interpreter's operand-count check before the call is modelled once in `OpTable.Execute`. The operator functions that rely on it (`Index`, `ArgIndex`, `Roll`) take it as the precondition `|s| >= 2`.
- StackOps.Clear: states only that the stack is emptied. `ref_stack_clear` also frees stack blocks, which has no counterpart in a flat sequence.
- The slots above the top that the two block moves use as scratch keep copies of window operands afterwards. The model states only that slots below the window are unchanged and that slots above the scratch area are unchanged.
