/**
 `n j roll` (psi/zstack.c `zroll`): removes its two integer operands and
 rotates the n operands beneath them j places toward the top of the stack,
 so that for j == 1 the old top becomes the bottom of the window.

 `RollWindow` is the rotation itself and `Roll` the operator with its error
 cases; the two algorithms zstack.c uses to perform the rotation are in
 `ChainRotation` and `BlockRotation`, and are proved to give `Roll`.
 */
module Rolls {
  import opened Operands
  import opened ModArith

  /** Where the operand at position k of an n-operand window lands when the
      window is rotated j places toward its top end. */
  function Shifted(k: int, j: int, n: int): int
    requires n > 0
  {
    (k + j) % n
  }

  /** Rotating by j lands where rotating by j mod n does: k + (j mod n),
      wrapped once past the top. */
  lemma ShiftedSplit(k: int, j: int, n: int)
    requires n > 0 && 0 <= k < n
    ensures var m := j % n;
            Shifted(k, j, n) == if k < n - m then k + m else k + m - n
  {
    var m := j % n;
    assert k + j == (k + m) + (j / n) * n;
    ModAddMultiple(k + m, j / n, n);
    if k < n - m {
      DivModUnique(k + m, n, 0, k + m);
    } else {
      DivModUnique(k + m, n, 1, k + m - n);
    }
  }

  /** Two rotations land where their sum does. */
  lemma ShiftedCompose(k: int, j: int, j': int, n: int)
    requires n > 0
    ensures Shifted(Shifted(k, j, n), j', n) == Shifted(k, j + j', n)
  {
    var q := (k + j) / n;
    assert k + j + j' == ((k + j) % n + j') + q * n;
    ModAddMultiple((k + j) % n + j', q, n);
  }

  /** Every position is where some position lands. */
  lemma ShiftedOnto(x: int, j: int, n: int)
    requires n > 0 && 0 <= x < n
    ensures 0 <= (x - j) % n < n && Shifted((x - j) % n, j, n) == x
  {
    var k := (x - j) % n;
    var q := (x - j) / n;
    assert k + j == x + (-q) * n;
    ModAddMultiple(x, -q, n);
    DivModUnique(x, n, 0, x);
  }

  /** The window w rotated j places toward its top end, as two blocks: the
      top j mod |w| operands move to the bottom of the window and the rest
      move up above them. The operand at position k ends at position
      (k + j) mod |w|. */
  function RollWindow(w: seq<Operand>, j: int): (r: seq<Operand>)
    ensures |r| == |w|
    ensures forall k {:trigger Shifted(k, j, |w|)} ::
              0 <= k < |w| ==> 0 <= Shifted(k, j, |w|) < |w| && r[Shifted(k, j, |w|)] == w[k]
  {
    if |w| == 0 then []
    else
      var m := Wrap(j, |w|);
      WrapIsMod(j, |w|);
      var r := w[|w| - m..] + w[..|w| - m];
      assert forall k {:trigger Shifted(k, j, |w|)} ::
               0 <= k < |w| ==> 0 <= Shifted(k, j, |w|) < |w| && r[Shifted(k, j, |w|)] == w[k] by {
        forall k | 0 <= k < |w|
          ensures 0 <= Shifted(k, j, |w|) < |w| && r[Shifted(k, j, |w|)] == w[k]
        {
          ShiftedSplit(k, j, |w|);
        }
      }
      r
  }

  /** `n j roll` on a stack whose two top operands are n and j. */
  function Roll(s: Stack): (r: Result)
    requires |s| >= 2
    ensures r == Err(TypeCheck) <==> !s[|s| - 2].Int? || !s[|s| - 1].Int?
    ensures r == Err(RangeCheck) <==> s[|s| - 2].Int? && s[|s| - 1].Int? && s[|s| - 2].value < 0
    ensures r == Err(StackUnderflow) <==>
              s[|s| - 2].Int? && s[|s| - 1].Int? && s[|s| - 2].value > |s| - 2
    ensures r.Ok? <==> s[|s| - 2].Int? && s[|s| - 1].Int? && 0 <= s[|s| - 2].value <= |s| - 2
    ensures r.Ok? ==> |r.stack| == |s| - 2
    ensures r.Ok? ==> var b := |s| - 2 - s[|s| - 2].value;
                      r.stack[..b] == s[..b]
    ensures r.Ok? ==> var n, j := s[|s| - 2].value, s[|s| - 1].value;
                      var b := |s| - 2 - n;
                      forall k {:trigger Shifted(k, j, n)} ::
                        0 <= k < n ==> r.stack[b + Shifted(k, j, n)] == s[b + k]
  {
    var a, i := s[|s| - 2], s[|s| - 1];
    if !a.Int? || !i.Int? then Err(TypeCheck)
    else if a.value < 0 then Err(RangeCheck)
    else if a.value > |s| - 2 then Err(StackUnderflow)
    else
      var b := |s| - 2 - a.value;
      var w := s[b..|s| - 2];
      var r := s[..b] + RollWindow(w, i.value);
      WindowPlaced(s, b, a.value, i.value, r);
      Ok(r)
  }

  /** The operands of s[b..b + n], rotated by j and placed back at b. */
  lemma WindowPlaced(s: Stack, b: int, n: int, j: int, r: Stack)
    requires 0 <= b && 0 <= n && b + n <= |s|
    requires r == s[..b] + RollWindow(s[b..b + n], j)
    ensures forall k {:trigger Shifted(k, j, n)} :: 0 <= k < n ==> r[b + Shifted(k, j, n)] == s[b + k]
  {
    var p, w := s[..b], s[b..b + n];
    var rw := RollWindow(w, j);
    assert |p| == b && |w| == n && |rw| == n;
    forall k | 0 <= k < n
      ensures r[b + Shifted(k, j, n)] == s[b + k]
    {
      var x := Shifted(k, j, |w|);
      assert 0 <= x < n && rw[x] == w[k];
      assert (p + rw)[|p| + x] == rw[x];
    }
  }

  /* ---------- properties of the rotation ---------- */

  /** Two windows of equal size that agree at every landing position of a
      rotation by j are equal. */
  lemma WindowsEqual(a: seq<Operand>, b: seq<Operand>, j: int)
    requires |a| == |b| > 0
    requires forall k {:trigger Shifted(k, j, |a|)} ::
               0 <= k < |a| ==> a[Shifted(k, j, |a|)] == b[Shifted(k, j, |a|)]
    ensures a == b
  {
    forall x | 0 <= x < |a|
      ensures a[x] == b[x]
    {
      ShiftedOnto(x, j, |a|);
      var k := (x - j) % |a|;
      assert a[Shifted(k, j, |a|)] == b[Shifted(k, j, |a|)];
    }
  }

  /** Rotating by j and then by j' is rotating by j + j'. */
  lemma RollWindowCompose(w: seq<Operand>, j: int, j': int)
    ensures RollWindow(RollWindow(w, j), j') == RollWindow(w, j + j')
  {
    var n := |w|;
    if n > 0 {
      var jj := j + j';
      var a, b := RollWindow(RollWindow(w, j), j'), RollWindow(w, jj);
      forall k | 0 <= k < n
        ensures a[Shifted(k, jj, n)] == b[Shifted(k, jj, n)]
      {
        ShiftedCompose(k, j, j', n);
        var k1 := Shifted(k, j, n);
        assert RollWindow(w, j)[k1] == w[k];
        assert a[Shifted(k1, j', n)] == RollWindow(w, j)[k1];
      }
      WindowsEqual(a, b, jj);
    }
  }

  /** A shift that wraps to 0 changes nothing. */
  lemma RollWindowZero(w: seq<Operand>, j: int)
    requires |w| > 0 ==> Wrap(j, |w|) == 0
    ensures RollWindow(w, j) == w
  {
    if |w| > 0 {
      assert w[|w|..] + w[..|w|] == w;
    }
  }

  /** Rotating by a multiple of the window size changes nothing. */
  lemma RollWindowFull(w: seq<Operand>, k: int)
    ensures RollWindow(w, k * |w|) == w
  {
    if |w| > 0 {
      assert Wrap(k * |w|, |w|) == 0 by {
        ModAddMultiple(0, k, |w|);
        WrapIsMod(k * |w|, |w|);
      }
    }
    RollWindowZero(w, k * |w|);
  }

  /** A rotation permutes the window. */
  lemma RollWindowPermutes(w: seq<Operand>, j: int)
    ensures multiset(RollWindow(w, j)) == multiset(w)
  {
    if |w| > 0 {
      var m := Wrap(j, |w|);
      WrapIsMod(j, |w|);
      assert w == w[..|w| - m] + w[|w| - m..];
    }
  }

  /** On a stack "below, window, n, j" with n the window's size, `roll`
      leaves `below` followed by the rotated window. */
  lemma RollOn(below: Stack, w: seq<Operand>, j: int)
    ensures Roll(below + w + [Int(|w|), Int(j)]) == Ok(below + RollWindow(w, j))
  {
    var s := below + w + [Int(|w|), Int(j)];
    assert s[|s| - 2] == Int(|w|) && s[|s| - 1] == Int(j);
    assert s[..|below|] == below;
    assert s[|below|..|s| - 2] == w;
  }

  /** Shifts congruent modulo the window size rotate alike. */
  lemma RollWindowCongruent(w: seq<Operand>, j: int, j': int)
    requires |w| > 0 ==> j % |w| == j' % |w|
    ensures RollWindow(w, j) == RollWindow(w, j')
  {
    if |w| > 0 {
      WrapIsMod(j, |w|);
      WrapIsMod(j', |w|);
    }
  }

  /** Shifts that differ by a multiple of the window size rotate alike. */
  lemma RollWindowPeriodic(w: seq<Operand>, j: int, k: int)
    ensures RollWindow(w, j + k * |w|) == RollWindow(w, j)
  {
    RollWindowCompose(w, j, k * |w|);
    RollWindowFull(RollWindow(w, j), k);
  }

  /** Two shifts that rotate the window alike give the same `roll`. */
  lemma RollSameRotation(below: Stack, w: seq<Operand>, j: int, j': int)
    requires RollWindow(w, j) == RollWindow(w, j')
    ensures Roll(below + w + [Int(|w|), Int(j')]) == Roll(below + w + [Int(|w|), Int(j)])
  {
    RollOn(below, w, j');
    RollOn(below, w, j);
  }

  /** The shifts j and j + k*n roll alike. */
  lemma RollPeriodic(below: Stack, w: seq<Operand>, j: int, k: int)
    ensures Roll(below + w + [Int(|w|), Int(j + k * |w|)])
            == Roll(below + w + [Int(|w|), Int(j)])
  {
    RollWindowPeriodic(w, j, k);
    RollSameRotation(below, w, j, j + k * |w|);
  }

  /** `n j roll` undoes `n -j roll`. */
  lemma RollUndo(below: Stack, w: seq<Operand>, j: int)
    ensures Roll(below + RollWindow(w, -j) + [Int(|w|), Int(j)]) == Ok(below + w)
  {
    var w' := RollWindow(w, -j);
    assert RollWindow(w', j) == w by {
      RollWindowUndo(w, j);
    }
    RollOn(below, w', j);
  }

  /** Rotating by -j undoes rotating by j, and the other way round. */
  lemma RollWindowUndo(w: seq<Operand>, j: int)
    ensures RollWindow(RollWindow(w, j), -j) == w
    ensures RollWindow(RollWindow(w, -j), j) == w
  {
    RollWindowCancel(w, j, -j);
    RollWindowCancel(w, -j, j);
  }

  /** Rotations whose shifts sum to zero cancel. */
  lemma RollWindowCancel(w: seq<Operand>, a: int, b: int)
    requires a + b == 0
    ensures RollWindow(RollWindow(w, a), b) == w
  {
    RollWindowCompose(w, a, b);
    assert a + b == 0 * |w|;
    RollWindowFull(w, 0);
  }

  /** Rotating by 1 moves the top operand to the bottom; by -1, the bottom to the top. */
  lemma RollWindowByOne(w: seq<Operand>)
    requires |w| > 0
    ensures RollWindow(w, 1) == [w[|w| - 1]] + w[..|w| - 1]
    ensures RollWindow(w, -1) == w[1..] + [w[0]]
  {
    WrapIsMod(1, |w|);
    WrapIsMod(-1, |w|);
    if |w| == 1 {
      assert w == [w[0]];
    } else {
      DivModUnique(1, |w|, 0, 1);
      DivModUnique(-1, |w|, -1, |w| - 1);
    }
  }

  /** `n 1 roll` moves the top of the window to its bottom. */
  lemma RollUpByOne(below: Stack, w: seq<Operand>)
    requires |w| > 0
    ensures Roll(below + w + [Int(|w|), Int(1)]) == Ok(below + [w[|w| - 1]] + w[..|w| - 1])
  {
    RollOn(below, w, 1);
    RollWindowByOne(w);
    assert below + ([w[|w| - 1]] + w[..|w| - 1]) == below + [w[|w| - 1]] + w[..|w| - 1];
  }

  /** `n -1 roll` moves the bottom of the window to its top. */
  lemma RollDownByOne(below: Stack, w: seq<Operand>)
    requires |w| > 0
    ensures Roll(below + w + [Int(|w|), Int(-1)]) == Ok(below + w[1..] + [w[0]])
  {
    RollOn(below, w, -1);
    RollWindowByOne(w);
    assert below + (w[1..] + [w[0]]) == below + w[1..] + [w[0]];
  }
}
