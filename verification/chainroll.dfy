/**
 The multi-block path of `roll` (psi/zstack.c lines 115-161). When the
 window may span several stack blocks, zroll reaches each operand through
 `ref_stack_index` and rotates the window in place by following chains:
 starting at depth i it moves the operand found `mod` places deeper up into
 the current slot, again and again, until the chain returns to i; then it
 starts the next chain one deeper, until every operand has moved once.

 The chains are the orbits of "add mod, modulo count"; there are
 g = gcd(count, mod) of them, each of length count / g, and the chain
 starting at i holds exactly the depths congruent to i modulo g
 (`ModArith.OrbitClass`, `OrbitPeriod`, `OrbitInjective`, `OrbitIndex`).
 */
module ChainRotation {
  import opened Operands
  import opened ModArith
  import opened Rolls

  /** The operand d places beneath the two arguments of `roll`:
      `ref_stack_index(&o_stack, d + 2)`, the window counted from its top. */
  function Elt(s: Stack, d: int): Operand
    requires 0 <= d < |s| - 2
  {
    s[|s| - 3 - d]
  }

  /** Assigning through the reference returned by `ref_stack_index(&o_stack, d + 2)`. */
  function SetElt(s: Stack, d: int, x: Operand): (s': Stack)
    requires 0 <= d < |s| - 2
    ensures |s'| == |s| && Elt(s', d) == x
    ensures forall e {:trigger Elt(s', e)} :: 0 <= e < |s| - 2 && e != d ==> Elt(s', e) == Elt(s, e)
    ensures s'[..|s| - 3 - d] == s[..|s| - 3 - d] && s'[|s| - 2..] == s[|s| - 2..]
  {
    s[|s| - 3 - d := x]
  }

  /** A positive multiple of L that is at most L is L. */
  lemma MultipleInRange(x: int, L: int)
    requires 0 < x <= L && x % L == 0
    ensures x == L
  {
    var q := x / L;
    assert x == q * L;
    MulSign(q, L);
  }

  /** The window of st holds, at every depth d whose chain (its residue
      modulo g = gcd(count, mod)) is below i, the operand from depth
      (d + mod) mod count of s, and at every other depth the operand of s. */
  ghost predicate ChainsDone(s: Stack, st: Stack, count: int, mod: int, i: int)
    requires 2 <= count <= |s| - 2 && 0 <= mod < count && |st| == |s|
  {
    var g := Gcd(count, mod);
    g > 0 && forall d {:trigger Elt(st, d)} :: 0 <= d < count ==>
      Elt(st, d) == if d % g < i then Elt(s, (d + mod) % count) else Elt(s, d)
  }

  /** The t-th step of the chain from i (t below the chain's length) is a
      depth of the window in i's residue class, reached at step t and no
      other. */
  lemma OnChain(count: int, mod: int, i: int, t: nat)
    requires 0 <= mod < count && 0 <= i < Gcd(count, mod) && t < count / Gcd(count, mod)
    ensures 0 <= Orbit(count, mod, i, t) < count && i % Gcd(count, mod) == i
    ensures Orbit(count, mod, i, t) % Gcd(count, mod) == i
    ensures OrbitIndex(count, mod, i, Orbit(count, mod, i, t)) == t
  {
    var g := Gcd(count, mod);
    DivModUnique(i, g, 0, i);
    OrbitClass(count, mod, i, t);
    var d := Orbit(count, mod, i, t);
    OrbitInjective(count, mod, i, OrbitIndex(count, mod, i, d), t);
  }

  /** One pass of the outer loop of lines 144-159: the chain starting at
      depth i is rotated, moving each of its count / g operands once. */
  method FollowChain(s: Stack, st0: Stack, count: int, mod: int, i: int, left0: int)
    returns (st: Stack, left: int)
    requires 2 <= count <= |s| - 2 && 0 <= mod < count && |st0| == |s|
    requires 0 <= i < Gcd(count, mod)
    requires st0[..|s| - 2 - count] == s[..|s| - 2 - count] && st0[|s| - 2..] == s[|s| - 2..]
    requires ChainsDone(s, st0, count, mod, i)
    ensures |st| == |s|
    ensures st[..|s| - 2 - count] == s[..|s| - 2 - count] && st[|s| - 2..] == s[|s| - 2..]
    ensures ChainsDone(s, st, count, mod, i + 1)
    ensures left == left0 - count / Gcd(count, mod)
  {
    Cofactors(count, mod);
    ghost var g := Gcd(count, mod);
    ghost var L := count / g;
    MulSign(L, g);
    st := st0;
    DivModUnique(i, g, 0, i);
    var save := Elt(st, i);
    var j := i;
    left := left0 - 1;
    var k := (j + mod) % count;
    ghost var t: nat := 0;
    OrbitStep(count, mod, i, 0);
    DivModUnique(i, count, 0, i);
    OrbitPeriod(count, mod, i);
    while k != i
      invariant 0 <= t < L && j == Orbit(count, mod, i, t) && k == Orbit(count, mod, i, t + 1)
      invariant left == left0 - (t + 1)
      invariant |st| == |s|
      invariant st[..|s| - 2 - count] == s[..|s| - 2 - count] && st[|s| - 2..] == s[|s| - 2..]
      invariant forall d {:trigger Elt(st, d)} :: 0 <= d < count ==>
                  Elt(st, d) == if d % g < i || (d % g == i && OrbitIndex(count, mod, i, d) < t)
                                then Elt(s, (d + mod) % count) else Elt(s, d)
      decreases L - t
    {
      OnChain(count, mod, i, t + 1);
      OnChain(count, mod, i, t);
      OrbitStep(count, mod, i, t);
      ghost var before := st;
      st := SetElt(st, j, Elt(st, k));
      ChainLinked(s, before, st, count, mod, g, i, t);
      j := k;
      left := left - 1;
      k := (j + mod) % count;
      t := t + 1;
      OrbitStep(count, mod, i, t);
    }
    OrbitRepeat(count, mod, i, 0, t + 1);
    MultipleInRange(t + 1, L);
    ghost var linked := st;
    st := SetElt(st, j, save);
    OnChain(count, mod, i, t);
    OrbitStep(count, mod, i, t);
    ChainClosed(s, linked, st, count, mod, g, i, t);
  }

  /** One link of the chain from i: depth j = Orbit(t) takes the operand
      still at depth k = Orbit(t + 1), which is the one from depth
      (j + mod) mod count of s. */
  lemma ChainLinked(s: Stack, st: Stack, st': Stack, count: int, mod: int, g: int, i: int, t: nat)
    requires 2 <= count <= |s| - 2 && 0 <= mod < count && |st| == |s|
    requires g == Gcd(count, mod) && 0 <= i < g <= count && i % g == i && t + 1 < count / g
    requires forall d {:trigger Elt(st, d)} :: 0 <= d < count ==>
               Elt(st, d) == if d % g < i || (d % g == i && OrbitIndex(count, mod, i, d) < t)
                             then Elt(s, (d + mod) % count) else Elt(s, d)
    requires 0 <= Orbit(count, mod, i, t) < count && 0 <= Orbit(count, mod, i, t + 1) < count
    requires Orbit(count, mod, i, t + 1) == (Orbit(count, mod, i, t) + mod) % count
    requires st' == SetElt(st, Orbit(count, mod, i, t), Elt(st, Orbit(count, mod, i, t + 1)))
    ensures forall d {:trigger Elt(st', d)} :: 0 <= d < count ==>
              Elt(st', d) == if d % g < i || (d % g == i && OrbitIndex(count, mod, i, d) < t + 1)
                             then Elt(s, (d + mod) % count) else Elt(s, d)
  {
    var j, k := Orbit(count, mod, i, t), Orbit(count, mod, i, t + 1);
    OnChain(count, mod, i, t);
    OnChain(count, mod, i, t + 1);
    forall d | 0 <= d < count
      ensures Elt(st', d) == if d % g < i || (d % g == i && OrbitIndex(count, mod, i, d) < t + 1)
                             then Elt(s, (d + mod) % count) else Elt(s, d)
    {
      if d != j && d % g == i {
        assert OrbitIndex(count, mod, i, d) != t;
      }
    }
  }

  /** When the chain from i has come back to i after t + 1 = count / g
      steps, every depth but the last one reached (j = Orbit(t)) already
      holds its new operand; storing the saved operand of depth i at j
      completes the chain. */
  lemma ChainClosed(s: Stack, linked: Stack, st: Stack, count: int, mod: int, g: int, i: int, t: nat)
    requires 2 <= count <= |s| - 2 && 0 <= mod < count && |linked| == |s|
    requires g == Gcd(count, mod) && 0 <= i < g <= count && t + 1 == count / g && i % g == i
    requires forall d {:trigger Elt(linked, d)} :: 0 <= d < count ==>
               Elt(linked, d) == if d % g < i || (d % g == i && OrbitIndex(count, mod, i, d) < t)
                                 then Elt(s, (d + mod) % count) else Elt(s, d)
    requires 0 <= Orbit(count, mod, i, t) < count
    requires st == SetElt(linked, Orbit(count, mod, i, t), Elt(s, i))
    requires (Orbit(count, mod, i, t) + mod) % count == i
    ensures ChainsDone(s, st, count, mod, i + 1)
  {
    var j := Orbit(count, mod, i, t);
    OnChain(count, mod, i, t);
    forall d | 0 <= d < count
      ensures Elt(st, d) == if d % g < i + 1 then Elt(s, (d + mod) % count) else Elt(s, d)
    {
      if d != j && d % g == i {
        assert OrbitIndex(count, mod, i, d) != t;
      }
    }
  }

  /** The chain rotation of lines 144-159: afterwards the operand at depth
      d is the one that was at depth (d + mod) mod count, for every depth
      of the window, and nothing outside the window has changed. */
  method ChainRotate(s: Stack, count: int, mod: int) returns (st: Stack)
    requires 2 <= count <= |s| - 2 && 0 <= mod < count
    ensures |st| == |s|
    ensures st[..|s| - 2 - count] == s[..|s| - 2 - count] && st[|s| - 2..] == s[|s| - 2..]
    ensures forall d {:trigger Elt(st, d)} ::
              0 <= d < count ==> Elt(st, d) == Elt(s, (d + mod) % count)
  {
    Cofactors(count, mod);
    ghost var g := Gcd(count, mod);
    ghost var L := count / g;
    st := s;
    var i, left := 0, count;
    assert count == (g - 0) * L by {
      assert count == L * g;
    }
    ChainsLeft(g, L, 0, count);
    while left != 0
      invariant 0 <= i <= g && left == (g - i) * L
      invariant |st| == |s|
      invariant st[..|s| - 2 - count] == s[..|s| - 2 - count] && st[|s| - 2..] == s[|s| - 2..]
      invariant ChainsDone(s, st, count, mod, i)
      decreases left
    {
      ChainsLeft(g, L, i, left);
      st, left := FollowChain(s, st, count, mod, i, left);
      i := i + 1;
    }
    ChainsLeft(g, L, i, left);
    assert ChainsDone(s, st, count, mod, i);
    forall d | 0 <= d < count
      ensures Elt(st, d) == Elt(s, (d + mod) % count)
    {
      assert d % g < i;
    }
  }

  /** The count of operands still to move when chains i .. g - 1 of L
      operands each remain: none exactly when every chain is done, and one
      chain fewer after the next one. */
  lemma ChainsLeft(g: int, L: int, i: int, left: int)
    requires g > 0 && L > 0 && 0 <= i <= g
    requires left == (g - i) * L
    ensures left >= 0
    ensures left == 0 <==> i == g
    ensures i < g ==> left - L == (g - (i + 1)) * L
  {
    MulSign(g - i, L);
    MulDistSub(g - i, 1, L);
    MulDistSub(g, i, L);
  }

  /** Reading the rotated window bottom-up: depth count-1-x is position x. */
  lemma ReverseShift(x: int, j: int, mod: int, n: int)
    requires n > 0 && 0 <= x < n && mod == j % n
    ensures 0 <= n - 1 - x < n
    ensures n - 1 - (n - 1 - x + mod) % n == (x - j) % n
  {
    var y := (x - j) % n;
    var q := (x - j) / n;
    var q2 := j / n;
    assert x - j == y + q * n;
    assert j == q2 * n + mod;
    assert n - 1 - x + mod == (-(q + q2)) * n + (n - 1 - y);
    DivModUnique(n - 1 - x + mod, n, -(q + q2), n - 1 - y);
  }

  /** A window holding, at each depth d, the operand from depth
      (d + j mod count) is the window rotated by j. */
  lemma ChainWindow(s: Stack, st: Stack, count: int, j: int)
    requires 2 <= count <= |s| - 2 && |st| == |s|
    requires forall d {:trigger Elt(st, d)} ::
               0 <= d < count ==> Elt(st, d) == Elt(s, (d + j % count) % count)
    ensures st[|s| - 2 - count..|s| - 2] == RollWindow(s[|s| - 2 - count..|s| - 2], j)
  {
    var b := |s| - 2 - count;
    var w := s[b..|s| - 2];
    var r := RollWindow(w, j);
    forall p | b <= p < |s| - 2
      ensures st[p] == r[p - b]
    {
      var x := p - b;
      var d := count - 1 - x;
      ReverseShift(x, j, j % count, count);
      ShiftedOnto(x, j, count);
      assert r[x] == w[(x - j) % count];
      assert Elt(st, d) == st[p];
      assert Elt(s, (d + j % count) % count) == w[(x - j) % count];
    }
    assert st[b..|s| - 2] == r;
  }

  /** A stack whose window holds, at each depth d, the operand from depth
      (d + j mod count), and which is unchanged below the window, is the
      stack `roll` produces. */
  lemma ChainResultIsRoll(s: Stack, st: Stack, count: int, j: int)
    requires 2 <= count <= |s| - 2 && |st| == |s|
    requires s[|s| - 2] == Int(count) && s[|s| - 1] == Int(j)
    requires st[..|s| - 2 - count] == s[..|s| - 2 - count]
    requires forall d {:trigger Elt(st, d)} ::
               0 <= d < count ==> Elt(st, d) == Elt(s, (d + j % count) % count)
    ensures Roll(s) == Ok(st[..|s| - 2])
  {
    var b := |s| - 2 - count;
    var w := s[b..|s| - 2];
    var below := s[..b];
    ChainWindow(s, st, count, j);
    assert s == below + w + [Int(|w|), Int(j)];
    RollOn(below, w, j);
    assert st[..|s| - 2] == st[..b] + st[b..|s| - 2];
  }

  /** zroll's multi-block path on the whole operand stack: the operand
      checks of lines 115-130, the early pop for a window of at most one
      operand, the shift normalisation and the chain rotation. It produces
      exactly `Roll`. */
  method ChainRoll(s: Stack) returns (r: Result)
    requires |s| >= 2
    ensures r == Roll(s)
  {
    var a, i := s[|s| - 2], s[|s| - 1];
    if !a.Int? || !i.Int? {
      return Err(TypeCheck);
    }
    if a.value < 0 {
      return Err(RangeCheck);
    }
    if a.value + 2 > |s| {
      return Err(StackUnderflow);
    }
    var count := a.value;
    if count <= 1 {
      var below, w := s[..|s| - 2 - count], s[|s| - 2 - count..|s| - 2];
      assert s == below + w + [Int(|w|), Int(i.value)];
      RollOn(below, w, i.value);
      if count == 1 {
        WrapIsMod(i.value, 1);
      }
      RollWindowZero(w, i.value);
      return Ok(s[..|s| - 2]);
    }
    var mod := NormalizeChainShift(i.value, count);
    var st := ChainRotate(s, count, mod);
    ChainResultIsRoll(s, st, count, i.value);
    return Ok(st[..|s| - 2]);
  }
}
