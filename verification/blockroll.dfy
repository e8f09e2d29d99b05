/**
 The single-block path of `roll` (psi/zstack.c lines 162-237). When the
 window and its two operands lie in the current stack block, zroll moves
 operands directly in the block's storage: two special cases shift the
 window by one place, and the general case performs two block moves, using
 free slots above the top of the stack as scratch space, after checking
 that there are enough of them.

 A block is modelled as its storage `blk` (slot 0 is the bottom of the
 block and slot |blk| - 1 the last usable one, `ostop`) together with the
 index `sp` of the top operand (`osp`); the slots above `sp` hold whatever
 was left there. The stack as a whole is the operands of older blocks,
 `lower`, followed by blk[..sp + 1].
 */
module BlockRotation {
  import opened Operands
  import opened ModArith
  import opened Rolls
  import ChainRotation

  /** `memcpy(blk + dst, blk + src, len * sizeof(ref))` on non-overlapping
      ranges of the block. */
  function Copy(b: seq<Operand>, dst: int, src: int, len: int): (b': seq<Operand>)
    requires 0 <= len && 0 <= dst && dst + len <= |b| && 0 <= src && src + len <= |b|
    requires dst + len <= src || src + len <= dst
    ensures |b'| == |b|
    ensures forall p :: 0 <= p < |b| ==> b'[p] == if dst <= p < dst + len then b[src + p - dst] else b[p]
  {
    b[..dst] + b[src..src + len] + b[dst + len..]
  }

  /** A block whose slots lo .. lo + count - 1 hold the top m operands of
      the old window followed by the others holds that window rotated by m. */
  lemma WindowLayout(blk: seq<Operand>, b: seq<Operand>, lo: int, hi: int, m: int)
    requires 0 <= lo && hi <= |blk| == |b| && 0 <= m < hi - lo
    requires forall p {:trigger b[p]} :: lo <= p < hi ==>
               b[p] == if p < lo + m then blk[p + (hi - lo) - m] else blk[p - m]
    ensures b[lo..hi] == RollWindow(blk[lo..hi], m)
  {
    var n := hi - lo;
    var w := blk[lo..hi];
    var r := w[n - m..] + w[..n - m];
    WrapIsMod(m, n);
    DivModUnique(m, n, 0, m);
    assert RollWindow(w, m) == r;
    forall x | 0 <= x < n
      ensures b[lo..hi][x] == r[x]
    {
      assert b[lo..hi][x] == b[lo + x];
      if x < m {
        assert r[x] == w[x + n - m] == blk[lo + x + n - m];
      } else {
        assert r[x] == w[x - m] == blk[lo + x - m];
      }
    }
    assert b[lo..hi] == r;
  }

  /** `n 1 roll` in place (lines 178-189): the top operand of the window is
      saved, every other operand moves up one slot, and the saved operand
      goes into the bottom slot. Storage outside the window is untouched. */
  method RotateUpOne(blk: seq<Operand>, top: int, count: int) returns (b: seq<Operand>)
    requires 2 <= count <= top + 1 <= |blk|
    ensures |b| == |blk|
    ensures b[..top - count + 1] == blk[..top - count + 1] && b[top + 1..] == blk[top + 1..]
    ensures b[top - count + 1..top + 1] == RollWindow(blk[top - count + 1..top + 1], 1)
  {
    var lo := top - count + 1;
    b := blk;
    var saved := b[top];
    var from := top;
    var n := count - 1;
    while n != 0
      invariant 0 <= n <= count - 1 && from == lo + n
      invariant |b| == |blk|
      invariant forall p {:trigger b[p]} :: 0 <= p < |b| ==> b[p] == if from < p <= top then blk[p - 1] else blk[p]
      decreases n
    {
      b := b[from := b[from - 1]];
      from := from - 1;
      n := n - 1;
    }
    b := b[from := saved];
    UpOneLayout(blk, b, top, count);
  }

  /** The storage left by `RotateUpOne`'s loop holds the window rotated
      one place up. */
  lemma UpOneLayout(blk: seq<Operand>, b: seq<Operand>, top: int, count: int)
    requires 2 <= count <= top + 1 <= |blk| == |b|
    requires forall p {:trigger b[p]} :: 0 <= p < |b| ==>
               b[p] == if top - count + 1 < p <= top then blk[p - 1]
                       else if p == top - count + 1 then blk[top] else blk[p]
    ensures b[..top - count + 1] == blk[..top - count + 1] && b[top + 1..] == blk[top + 1..]
    ensures b[top - count + 1..top + 1] == RollWindow(blk[top - count + 1..top + 1], 1)
  {
    WindowLayout(blk, b, top - count + 1, top + 1, 1);
  }

  /** `n -1 roll` in place (lines 190-202): the bottom operand of the window
      is saved, every other operand moves down one slot, and the saved
      operand goes into the top slot. Storage outside the window is
      untouched. */
  method RotateDownOne(blk: seq<Operand>, top: int, count: int) returns (b: seq<Operand>)
    requires 2 <= count <= top + 1 <= |blk|
    ensures |b| == |blk|
    ensures b[..top - count + 1] == blk[..top - count + 1] && b[top + 1..] == blk[top + 1..]
    ensures b[top - count + 1..top + 1] == RollWindow(blk[top - count + 1..top + 1], -1)
  {
    var lo := top - count + 1;
    b := blk;
    var to := lo;
    var saved := b[to];
    var n := count - 1;
    while n != 0
      invariant 0 <= n <= count - 1 && to == top - n
      invariant |b| == |blk|
      invariant forall p {:trigger b[p]} :: 0 <= p < |b| ==> b[p] == if lo <= p < to then blk[p + 1] else blk[p]
      decreases n
    {
      b := b[to := b[to + 1]];
      to := to + 1;
      n := n - 1;
    }
    b := b[to := saved];
    DownOneLayout(blk, b, top, count);
  }

  /** The storage left by `RotateDownOne`'s loop holds the window rotated
      one place down. */
  lemma DownOneLayout(blk: seq<Operand>, b: seq<Operand>, top: int, count: int)
    requires 2 <= count <= top + 1 <= |blk| == |b|
    requires forall p {:trigger b[p]} :: 0 <= p < |b| ==>
               b[p] == if top - count + 1 <= p < top then blk[p + 1]
                       else if p == top then blk[top - count + 1] else blk[p]
    ensures b[..top - count + 1] == blk[..top - count + 1] && b[top + 1..] == blk[top + 1..]
    ensures b[top - count + 1..top + 1] == RollWindow(blk[top - count + 1..top + 1], -1)
  {
    WindowLayout(blk, b, top - count + 1, top + 1, count - 1);
    RollWindowCongruent(blk[top - count + 1..top + 1], count - 1, -1) by {
      DivModUnique(count - 1, count, 0, count - 1);
      DivModUnique(-1, count, -1, count - 1);
    }
  }

  /** "Move everything up, then top elements down" (lines 213-223): each
      operand of the window moves m slots up, from the top one down, so
      that the top m land in the free slots above the window; then those m
      are copied into the bottom of the window. The window ends rotated by
      m; the m slots above it are left holding copies. */
  method ShiftUp(blk: seq<Operand>, top: int, count: int, m: int) returns (b: seq<Operand>)
    requires 1 <= count <= top + 1 && 0 <= m < count && top + m < |blk|
    ensures |b| == |blk|
    ensures b[..top - count + 1] == blk[..top - count + 1] && b[top + m + 1..] == blk[top + m + 1..]
    ensures b[top - count + 1..top + 1] == RollWindow(blk[top - count + 1..top + 1], m)
  {
    var lo := top - count + 1;
    b := blk;
    var to, from, n := top + m, top, count;
    while n != 0
      invariant 0 <= n <= count && from == lo - 1 + n && to == from + m
      invariant |b| == |blk|
      invariant forall p {:trigger b[p]} :: 0 <= p < |b| ==> b[p] == if from + m < p <= top + m then blk[p - m] else blk[p]
      decreases n
    {
      b := b[to := b[from]];
      to, from := to - 1, from - 1;
      n := n - 1;
    }
    ghost var moved := b;
    b := Copy(b, from + 1, top + 1, m);
    ShiftUpLayout(blk, moved, b, lo, top, m);
  }

  /** Once every operand of the window has moved m slots up, copying the m
      slots above the window into its bottom leaves the window rotated by m. */
  lemma ShiftUpLayout(blk: seq<Operand>, moved: seq<Operand>, b: seq<Operand>, lo: int, top: int, m: int)
    requires 0 <= lo <= top && 0 <= m < top + 1 - lo && top + m < |blk| == |moved|
    requires forall p {:trigger moved[p]} :: 0 <= p < |moved| ==>
               moved[p] == if lo - 1 + m < p <= top + m then blk[p - m] else blk[p]
    requires b == Copy(moved, lo, top + 1, m)
    ensures |b| == |blk| && b[..lo] == blk[..lo] && b[top + m + 1..] == blk[top + m + 1..]
    ensures b[lo..top + 1] == RollWindow(blk[lo..top + 1], m)
  {
    WindowLayout(blk, b, lo, top + 1, m);
    assert b[..lo] == blk[..lo];
  }

  /** "Move bottom elements up, then everything down" (lines 225-237): the
      bottom k operands of the window are copied into the free slots above
      it, then every slot of the window takes the operand k slots above it.
      The window ends rotated by -k; the k slots above it are left holding
      copies. */
  method ShiftDown(blk: seq<Operand>, top: int, count: int, k: int) returns (b: seq<Operand>)
    requires 1 <= count <= top + 1 && 0 < k < count && top + k < |blk|
    ensures |b| == |blk|
    ensures b[..top - count + 1] == blk[..top - count + 1] && b[top + k + 1..] == blk[top + k + 1..]
    ensures b[top - count + 1..top + 1] == RollWindow(blk[top - count + 1..top + 1], -k)
  {
    var lo := top - count + 1;
    var to := lo;
    var copied := Copy(blk, top + 1, to, k);
    b := copied;
    var from, n := to + k, count;
    while n != 0
      invariant 0 <= n <= count && to == top + 1 - n && from == to + k
      invariant |b| == |blk|
      invariant forall p {:trigger b[p]} :: 0 <= p < |b| ==> b[p] == if lo <= p < to then copied[p + k] else copied[p]
      decreases n
    {
      b := b[to := b[from]];
      to, from := to + 1, from + 1;
      n := n - 1;
    }
    ShiftDownLayout(blk, copied, b, lo, top, k);
  }

  /** Once the bottom k operands of the window have been copied above it
      and every slot of the window has taken the operand k slots above it,
      the window is rotated by -k. */
  lemma ShiftDownLayout(blk: seq<Operand>, copied: seq<Operand>, b: seq<Operand>, lo: int, top: int, k: int)
    requires 0 <= lo <= top && 0 < k < top + 1 - lo && top + k < |blk| == |b|
    requires copied == Copy(blk, top + 1, lo, k)
    requires forall p {:trigger b[p]} :: 0 <= p < |b| ==>
               b[p] == if lo <= p < top + 1 then copied[p + k] else copied[p]
    ensures b[..lo] == blk[..lo] && b[top + k + 1..] == blk[top + k + 1..]
    ensures b[lo..top + 1] == RollWindow(blk[lo..top + 1], -k)
  {
    var count := top + 1 - lo;
    var w := blk[lo..top + 1];
    WindowLayout(blk, b, lo, top + 1, count - k);
    assert b[lo..top + 1] == RollWindow(w, count - k);
    assert RollWindow(w, count - k) == RollWindow(w, -k) by {
      DivModUnique(count - k, count, 0, count - k);
      DivModUnique(-k, count, -1, count - k);
      RollWindowCongruent(w, count - k, -k);
    }
    assert b[..lo] == blk[..lo];
  }

  /** The number of slots the general case moves the window by: the shift
      mod (normalised into [0, count)) when it is at most half the window,
      moving up; otherwise count - mod, moving down (lines 203-228). */
  function MoveDistance(j: int, count: int): (d: int)
    requires count > 0
    ensures 0 <= d <= count / 2
    ensures d == j % count || d == count - j % count
  {
    var m := NormalizeBlockShift(j, count);
    if m <= count / 2 then m else count - m
  }

  /** Whether zroll reports stackoverflow for a roll whose operands lie in
      the current block: the window has at least two operands, the shift is
      not the special case 1 or -1, and the block has no more free slots
      above the top than the distance the window is moved. */
  predicate Overflows(blk: seq<Operand>, sp: int)
    requires 1 <= sp < |blk|
  {
    var a, i := blk[sp - 1], blk[sp];
    a.Int? && i.Int? && 2 <= a.value <= sp - 1 && i.value != 1 && i.value != -1
    && MoveDistance(i.value, a.value) >= |blk| - 1 - sp
  }

  /** The single-block rotation (lines 162-237) for a window of at least
      two operands: either the stackoverflow of lines 214-217 and 227-230,
      or a block whose window is rotated by the shift operand and whose
      slots below the window are unchanged. */
  method MoveInBlock(blk: seq<Operand>, sp: int) returns (b: seq<Operand>, overflow: bool)
    requires 1 <= sp < |blk| && blk[sp - 1].Int? && blk[sp].Int?
    requires 2 <= blk[sp - 1].value <= sp - 1
    ensures overflow <==> Overflows(blk, sp)
    ensures !overflow ==> var lo := sp - 1 - blk[sp - 1].value;
                          |b| == |blk| && b[..lo] == blk[..lo]
                          && b[lo..sp - 1] == RollWindow(blk[lo..sp - 1], blk[sp].value)
  {
    var count, j := blk[sp - 1].value, blk[sp].value;
    if j == 1 {
      b := RotateUpOne(blk, sp - 2, count);
      MovedWindowIsRoll(blk, sp, sp - 2, count, 1, b);
      overflow := false;
    } else if j == -1 {
      b := RotateDownOne(blk, sp - 2, count);
      MovedWindowIsRoll(blk, sp, sp - 2, count, -1, b);
      overflow := false;
    } else {
      b, overflow := TwoBlockMoves(blk, sp);
    }
  }

  /** The general case of the single-block rotation (lines 203-237): the
      shift is normalised into [0, count), and the window is moved up by
      it or down by its complement, whichever is at most half the window,
      provided the block has more free slots above the top than that. */
  method TwoBlockMoves(blk: seq<Operand>, sp: int) returns (b: seq<Operand>, overflow: bool)
    requires 1 <= sp < |blk| && blk[sp - 1].Int? && blk[sp].Int?
    requires 2 <= blk[sp - 1].value <= sp - 1
    ensures overflow <==> MoveDistance(blk[sp].value, blk[sp - 1].value) >= |blk| - 1 - sp
    ensures !overflow ==> var lo := sp - 1 - blk[sp - 1].value;
                          |b| == |blk| && b[..lo] == blk[..lo]
                          && b[lo..sp - 1] == RollWindow(blk[lo..sp - 1], blk[sp].value)
  {
    var count, j := blk[sp - 1].value, blk[sp].value;
    var top := sp - 2;
    var mod := NormalizeBlockShift(j, count);
    if mod <= count / 2 {
      if mod >= |blk| - 1 - sp {
        return blk, true;
      }
      b := ShiftUp(blk, top, count, mod);
      DivModUnique(mod, count, 0, mod);
      MovedWindowIsRoll(blk, sp, top, count, mod, b);
    } else {
      var k := count - mod;
      if k >= |blk| - 1 - sp {
        return blk, true;
      }
      b := ShiftDown(blk, top, count, k);
      DivModUnique(-k, count, -1, mod);
      MovedWindowIsRoll(blk, sp, top, count, -k, b);
    }
    overflow := false;
  }

  /** A window rotated by a shift congruent to the operand j, restated over
      the block's top `sp` as zroll sees it. */
  lemma MovedWindowIsRoll(blk: seq<Operand>, sp: int, top: int, count: int, d: int, b: seq<Operand>)
    requires 1 <= sp < |blk| && |b| == |blk| && blk[sp - 1].Int? && blk[sp].Int?
    requires top == sp - 2 && count == blk[sp - 1].value && 1 <= count <= top + 1
    requires d % count == blk[sp].value % count
    requires b[..top - count + 1] == blk[..top - count + 1]
    requires b[top - count + 1..top + 1] == RollWindow(blk[top - count + 1..top + 1], d)
    ensures var lo := sp - 1 - blk[sp - 1].value;
            b[..lo] == blk[..lo] && b[lo..sp - 1] == RollWindow(blk[lo..sp - 1], blk[sp].value)
  {
    RollWindowCongruent(blk[top - count + 1..top + 1], d, blk[sp].value);
  }

  /** After a single-block rotation, the stack is the rolled stack. */
  lemma BlockResultIsRoll(lower: Stack, blk: seq<Operand>, sp: int, b: seq<Operand>)
    requires 1 <= sp < |blk| && |b| == |blk|
    requires blk[sp - 1].Int? && 0 <= blk[sp - 1].value <= sp - 1 && blk[sp].Int?
    requires var lo := sp - 1 - blk[sp - 1].value;
             b[..lo] == blk[..lo] && b[lo..sp - 1] == RollWindow(blk[lo..sp - 1], blk[sp].value)
    ensures Roll(lower + blk[..sp + 1]) == Ok(lower + b[..sp - 1])
  {
    var lo := sp - 1 - blk[sp - 1].value;
    var j := blk[sp].value;
    var w := blk[lo..sp - 1];
    var below := lower + blk[..lo];
    assert lower + blk[..sp + 1] == below + w + [Int(|w|), Int(j)] by {
      assert blk[sp - 1] == Int(|w|) && blk[sp] == Int(j);
      assert blk[..sp + 1] == blk[..lo] + w + [Int(|w|), Int(j)];
      Regroup(lower, blk[..lo], w + [Int(|w|), Int(j)], blk[..sp + 1]);
    }
    assert lower + b[..sp - 1] == below + RollWindow(w, j) by {
      assert b[..sp - 1] == blk[..lo] + RollWindow(w, j);
      Regroup(lower, blk[..lo], RollWindow(w, j), b[..sp - 1]);
    }
    RollOn(below, w, j);
  }

  /** Concatenation regrouped, kept apart so the step stays cheap. */
  lemma Regroup(a: seq<Operand>, x: seq<Operand>, y: seq<Operand>, xy: seq<Operand>)
    requires xy == x + y
    ensures a + xy == a + x + y
  {
  }

  /** `zroll` on a stack whose current block is `blk` with top `sp`, with
      `lower` the operands in older blocks. When n fits in the block
      (0 <= n <= sp - 1) the single-block path runs; otherwise the chain
      rotation runs on the whole stack. The outcome is the `roll` of the
      whole stack, except that the single-block path may report
      stackoverflow (and then the roll would have succeeded); it never does
      when more than half the window fits in the free slots above the top. */
  method ZRoll(lower: Stack, blk: seq<Operand>, sp: int) returns (r: Result)
    requires 1 <= sp < |blk|
    ensures r == Err(StackOverflow) || r == Roll(lower + blk[..sp + 1])
    ensures r == Err(StackOverflow) <==> Overflows(blk, sp)
    ensures r == Err(StackOverflow) ==> Roll(lower + blk[..sp + 1]).Ok?
    ensures blk[sp - 1].Int? && 0 <= blk[sp - 1].value <= sp - 1 && |blk| - 1 - sp > blk[sp - 1].value / 2
            ==> r == Roll(lower + blk[..sp + 1])
  {
    var whole := lower + blk[..sp + 1];
    assert whole[|whole| - 2] == blk[sp - 1] && whole[|whole| - 1] == blk[sp];
    var a, i := blk[sp - 1], blk[sp];
    if !a.Int? || !i.Int? {
      return Err(TypeCheck);
    }
    if a.value < 0 || a.value > sp - 1 {
      // may span blocks: `(uint)n > (uint)(op1 - osbot)`
      r := ChainRotation.ChainRoll(whole);
      return;
    }
    var count := a.value;
    if count <= 1 {
      RollWindowZero(blk[sp - 1 - count..sp - 1], i.value) by {
        if count == 1 {
          WrapIsMod(i.value, 1);
        }
      }
      BlockResultIsRoll(lower, blk, sp, blk);
      return Ok(lower + blk[..sp - 1]);
    }
    var b, overflow := MoveInBlock(blk, sp);
    if overflow {
      return Err(StackOverflow);
    }
    BlockResultIsRoll(lower, blk, sp, b);
    return Ok(lower + b[..sp - 1]);
  }
}
