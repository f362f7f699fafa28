/** Which offsets are adjacent: those, and only those, at which two reads always make one. */
module AdjacentOffsets {
  import opened Bits
  import opened Endian
  import opened EndianSequences

  /** Memory on both sides of an origin, as stack offsets need it. */
  type Memory = int -> nat

  function RunAt(mem: Memory, at: int, n: nat): seq<nat> {
    seq(n, i requires 0 <= i < n => mem(at + i))
  }

  /** The two reads, the one at oMsb as the more significant. */
  function Joined(e: Endianness, mem: Memory, oLsb: int, oMsb: int, size: nat, g: nat): nat {
    ValueOf([Part(Read(e, RunAt(mem, oMsb, size), g), Span(size, g)),
             Part(Read(e, RunAt(mem, oLsb, size), g), Span(size, g))])
  }

  function Lower(x: int, y: int): int {
    if x <= y then x else y
  }

  ghost predicate JoinsIn(e: Endianness, mem: Memory, oLsb: int, oMsb: int, size: nat, g: nat) {
    Joined(e, mem, oLsb, oMsb, size, g) == Read(e, RunAt(mem, Lower(oLsb, oMsb), 2 * size), g)
  }

  lemma AdjacentJoins(e: Endianness, mem: Memory, oLsb: int, oMsb: int, size: nat, g: nat)
    requires OffsetsAdjacent(e, oLsb, oMsb, size)
    ensures JoinsIn(e, mem, oLsb, oMsb, size, g)
  {
    var low := Lower(oLsb, oMsb);
    var run := RunAt(mem, low, 2 * size);
    var l, m := oLsb - low, oMsb - low;
    assert run[l..l + size] == RunAt(mem, oLsb, size);
    assert run[m..m + size] == RunAt(mem, oMsb, size);
    assert run[0..0 + 2 * size] == run;
    AdjacentOffsetsJoin(e, run, l, m, size, g);
  }

  // ---------- memory with a single bit ----------

  /** The unit at x is 1, and all others are 0. */
  function OneAt(x: int): Memory {
    y => if y == x then 1 else 0
  }

  function Single(n: nat, k: int): seq<nat> {
    seq(n, i requires 0 <= i < n => if i == k then 1 else 0)
  }

  lemma {:induction false} SingleLe(n: nat, k: int, g: nat)
    ensures ReadLe(Single(n, k), g) == if 0 <= k < n then Pow2(Span(k, g)) else 0
  {
    if n == 0 {
    } else {
      assert Single(n, k)[1..] == Single(n - 1, k - 1);
      SingleLe(n - 1, k - 1, g);
      if 0 < k < n {
        ShlPow2(Span(k - 1, g), g);
      } else {
        ShlZero(g);
      }
    }
  }

  lemma {:induction false} SingleBe(n: nat, k: int, g: nat)
    ensures ReadBe(Single(n, k), g) == if 0 <= k < n then Pow2(Span(n - 1 - k, g)) else 0
  {
    if n == 0 {
    } else {
      assert Single(n, k)[..n - 1] == Single(n - 1, k);
      SingleBe(n - 1, k, g);
      if 0 <= k < n - 1 {
        ShlPow2(Span(n - 2 - k, g), g);
      } else {
        ShlZero(g);
      }
    }
  }

  /** Where the bit of a single unit ends up. */
  lemma OneRead(e: Endianness, x: int, at: int, n: nat, g: nat)
    ensures Read(e, RunAt(OneAt(x), at, n), g) ==
            if at <= x < at + n then Pow2(Span(if e.Little? then x - at else n - 1 - (x - at), g)) else 0
  {
    assert RunAt(OneAt(x), at, n) == Single(n, x - at);
    SingleLe(n, x - at, g);
    SingleBe(n, x - at, g);
  }

  lemma JoinedIs(e: Endianness, mem: Memory, oLsb: int, oMsb: int, size: nat, g: nat)
    ensures Joined(e, mem, oLsb, oMsb, size, g) ==
            Shl(Read(e, RunAt(mem, oMsb, size), g), Span(size, g)) + Read(e, RunAt(mem, oLsb, size), g)
  {
    ValueOfTwo(Part(Read(e, RunAt(mem, oMsb, size), g), Span(size, g)),
               Part(Read(e, RunAt(mem, oLsb, size), g), Span(size, g)));
  }

  lemma SpanLt(m: nat, n: nat, g: nat)
    requires m < n && g > 0
    ensures Span(m, g) < Span(n, g) && Pow2(Span(m, g)) < Pow2(Span(n, g))
  {
    SpanAdd(m, n - m, g);
    SpanAdd(1, n - m - 1, g);
    assert Span(1, g) == Span(0, g) + g;
    Pow2Lt(Span(m, g), Span(n, g));
  }

  lemma ShiftedPower(k: nat, size: nat, g: nat)
    ensures Shl(Pow2(Span(k, g)), Span(size, g)) == Pow2(Span(k + size, g))
    ensures Shl(0, Span(size, g)) == 0
  {
    ShlPow2(Span(k, g), Span(size, g));
    SpanAdd(k, size, g);
    ShlZero(Span(size, g));
  }

  /** A memory that tells two reads at offsets that are not adjacent from one. */
  lemma LittleApart(oLsb: int, oMsb: int, size: nat, g: nat) returns (x: int)
    requires size > 0 && g > 0 && !OffsetsAdjacent(Little, oLsb, oMsb, size)
    ensures !JoinsIn(Little, OneAt(x), oLsb, oMsb, size, g)
  {
    var low := Lower(oLsb, oMsb);
    x := if oLsb != low then low else low + size;
    JoinedIs(Little, OneAt(x), oLsb, oMsb, size, g);
    OneRead(Little, x, low, 2 * size, g);
    OneRead(Little, x, oLsb, size, g);
    OneRead(Little, x, oMsb, size, g);
    SpanLt(0, size, g);
    if oMsb <= x < oMsb + size {
      ShiftedPower(x - oMsb, size, g);
      if x - oMsb > 0 {
        SpanLt(size, x - oMsb + size, g);
      }
    } else {
      ShiftedPower(0, size, g);
    }
  }

  lemma BigApart(oLsb: int, oMsb: int, size: nat, g: nat) returns (x: int)
    requires size > 0 && g > 0 && !OffsetsAdjacent(Big, oLsb, oMsb, size)
    ensures !JoinsIn(Big, OneAt(x), oLsb, oMsb, size, g)
  {
    var low := Lower(oLsb, oMsb);
    x := if oMsb != low then low else low + size;
    JoinedIs(Big, OneAt(x), oLsb, oMsb, size, g);
    OneRead(Big, x, low, 2 * size, g);
    OneRead(Big, x, oLsb, size, g);
    OneRead(Big, x, oMsb, size, g);
    ShiftedPower(0, size, g);
    SpanLt(size - 1, 2 * size - 1, g);
    if oMsb == low && oLsb <= x < oLsb + size && x - oLsb > 0 {
      SpanLt(size - 1 - (x - oLsb), size - 1, g);
    }
  }

  /** Two offsets are called adjacent exactly if, whatever memory holds, the two reads there make
      one read of twice the size at the lower of them. */
  lemma OffsetsAdjacentIff(e: Endianness, oLsb: int, oMsb: int, size: nat, g: nat)
    requires size > 0 && g > 0
    ensures OffsetsAdjacent(e, oLsb, oMsb, size) <==> forall mem: Memory :: JoinsIn(e, mem, oLsb, oMsb, size, g)
  {
    if OffsetsAdjacent(e, oLsb, oMsb, size) {
      forall mem: Memory ensures JoinsIn(e, mem, oLsb, oMsb, size, g) {
        AdjacentJoins(e, mem, oLsb, oMsb, size, g);
      }
    } else {
      var x;
      match e {
        case Little => x := LittleApart(oLsb, oMsb, size, g);
        case Big => x := BigApart(oLsb, oMsb, size, g);
      }
      assert !JoinsIn(e, OneAt(x), oLsb, oMsb, size, g);
    }
  }
}
