/** Byte orders: src/Core/EndianServices.cs.

    Memory is a sequence of units of g bits each ("granularity"). The two readings of a run
    of units are defined here on their own; slices and sequences are then proved to commute
    with them.
  */
module Endian {
  import opened Addresses
  import opened Bits
  import opened Options

  datatype Endianness = Little | Big

  datatype BitRange = BitRange(lsb: nat, msb: nat)
  {
    function Extent(): nat {
      if msb > lsb then msb - lsb else 0
    }
  }

  // ---------- reading memory ----------

  ghost predicate AreUnits(us: seq<nat>, g: nat) {
    forall i | 0 <= i < |us| :: us[i] < Pow2(g)
  }

  /** The unit at the lowest address is the least significant. */
  function ReadLe(us: seq<nat>, g: nat): nat {
    if us == [] then 0 else Shl(ReadLe(us[1..], g), g) + us[0]
  }

  /** The unit at the lowest address is the most significant. */
  function ReadBe(us: seq<nat>, g: nat): nat {
    if us == [] then 0 else Shl(ReadBe(us[..|us| - 1], g), g) + us[|us| - 1]
  }

  function Read(e: Endianness, us: seq<nat>, g: nat): nat {
    match e case Little => ReadLe(us, g) case Big => ReadBe(us, g)
  }

  /** Reading a value of some bits at an address fails beyond the end of memory. */
  function TryRead(e: Endianness, mem: seq<nat>, at: nat, bits: nat, g: nat): Option<nat>
    requires g > 0
  {
    var n := bits / g;
    if at + n <= |mem| then Some(Read(e, mem[at..at + n], g)) else None
  }

  /** A run of units is read wherever it stands in memory, up to its end, and nothing beyond. */
  lemma ReadsRunIff(e: Endianness, mem: seq<nat>, at: nat, n: nat, g: nat)
    requires g > 0
    ensures TryRead(e, mem, at, n * g, g).Some? <==> exists before, us, after | |before| == at && |us| == n ::
              mem == before + us + after
    ensures at + n <= |mem| ==> TryRead(e, mem, at, n * g, g) == Some(Read(e, mem[at..at + n], g))
  {
    DivMod(n, g, 0);
    if at + n <= |mem| {
      assert mem == mem[..at] + mem[at..at + n] + mem[at + n..];
    }
  }

  /** The bits of n units. */
  function Span(n: nat, g: nat): nat {
    if n == 0 then 0 else Span(n - 1, g) + g
  }

  lemma {:induction false} SpanAdd(m: nat, n: nat, g: nat)
    ensures Span(m + n, g) == Span(m, g) + Span(n, g)
  {
    if n == 0 {
    } else {
      SpanAdd(m, n - 1, g);
    }
  }

  lemma {:induction false} SpanIsProduct(n: nat, g: nat)
    ensures Span(n, g) == n * g
  {
    if n == 0 {
    } else {
      SpanIsProduct(n - 1, g);
    }
  }

  lemma {:induction false} ReadLeConcat(a: seq<nat>, b: seq<nat>, g: nat)
    ensures ReadLe(a + b, g) == Shl(ReadLe(b, g), Span(|a|, g)) + ReadLe(a, g)
  {
    if a == [] {
      assert a + b == b;
    } else {
      var k := Span(|a[1..]|, g);
      ReadLeConcat(a[1..], b, g);
      assert (a + b)[1..] == a[1..] + b;
      ShlAdd(Shl(ReadLe(b, g), k), ReadLe(a[1..], g), g);
      ShlShl(ReadLe(b, g), k, g);
    }
  }

  lemma {:induction false} ReadBeConcat(a: seq<nat>, b: seq<nat>, g: nat)
    ensures ReadBe(a + b, g) == Shl(ReadBe(a, g), Span(|b|, g)) + ReadBe(b, g)
    decreases b
  {
    if b == [] {
      assert a + b == a;
    } else {
      var b' := b[..|b| - 1];
      var k := Span(|b'|, g);
      ReadBeConcat(a, b', g);
      assert (a + b)[..|a + b| - 1] == a + b';
      ShlAdd(Shl(ReadBe(a, g), k), ReadBe(b', g), g);
      ShlShl(ReadBe(a, g), k, g);
    }
  }

  lemma {:induction false} ReadLeBound(us: seq<nat>, g: nat)
    requires AreUnits(us, g)
    ensures ReadLe(us, g) < Pow2(Span(|us|, g))
  {
    if us == [] {
    } else {
      ReadLeBound(us[1..], g);
      ShlBound(ReadLe(us[1..], g), g, Span(|us[1..]|, g));
    }
  }

  lemma {:induction false} ReadBeBound(us: seq<nat>, g: nat)
    requires AreUnits(us, g)
    ensures ReadBe(us, g) < Pow2(Span(|us|, g))
  {
    if us == [] {
    } else {
      ReadBeBound(us[..|us| - 1], g);
      ShlBound(ReadBe(us[..|us| - 1], g), g, Span(|us[..|us| - 1]|, g));
    }
  }

  /** The middle field of a number with three parts. */
  lemma FieldOfThree(x: nat, high: nat, mid: nat, low: nat, n: nat, lo: nat)
    requires x == Shl(Shl(high, n) + mid, lo) + low
    requires mid < Pow2(n) && low < Pow2(lo)
    ensures Field(x, lo, n) == mid
  {
    Join(Shl(high, n) + mid, lo, low);
    Join(high, n, mid);
  }

  lemma LeMiddle(a: seq<nat>, b: seq<nat>, c: seq<nat>, g: nat)
    requires AreUnits(a, g) && AreUnits(b, g)
    ensures Field(ReadLe(a + (b + c), g), Span(|a|, g), Span(|b|, g)) == ReadLe(b, g)
  {
    ReadLeConcat(a, b + c, g);
    ReadLeConcat(b, c, g);
    ReadLeBound(a, g);
    ReadLeBound(b, g);
    FieldOfThree(ReadLe(a + (b + c), g), ReadLe(c, g), ReadLe(b, g), ReadLe(a, g), Span(|b|, g), Span(|a|, g));
  }

  lemma BeMiddle(a: seq<nat>, b: seq<nat>, c: seq<nat>, g: nat)
    requires AreUnits(b, g) && AreUnits(c, g)
    ensures Field(ReadBe((a + b) + c, g), Span(|c|, g), Span(|b|, g)) == ReadBe(b, g)
  {
    ReadBeConcat(a + b, c, g);
    ReadBeConcat(a, b, g);
    ReadBeBound(b, g);
    ReadBeBound(c, g);
    FieldOfThree(ReadBe((a + b) + c, g), ReadBe(a, g), ReadBe(b, g), ReadBe(c, g), Span(|b|, g), Span(|c|, g));
  }

  /** A run of n units from the k-th on is a field of either reading. */
  lemma RunIsField(us: seq<nat>, g: nat, k: nat, n: nat)
    requires AreUnits(us, g) && k + n <= |us|
    ensures Field(ReadLe(us, g), Span(k, g), Span(n, g)) == ReadLe(us[k..k + n], g)
    ensures Field(ReadBe(us, g), Span(|us| - k - n, g), Span(n, g)) == ReadBe(us[k..k + n], g)
  {
    var a, b, c := us[..k], us[k..k + n], us[k + n..];
    assert us == a + (b + c) && us == (a + b) + c;
    LeMiddle(a, b, c, g);
    BeMiddle(a, b, c, g);
  }

  // ---------- sliced accesses ----------

  /** Division of the source language: it truncates toward zero. */
  function Quotient(x: int, y: nat): int
    requires y > 0
  {
    if x >= 0 then x / y else -((-x) / y)
  }

  /** How many units beyond the start of a value of `bits` bits its bit range begins. */
  function UnitOffset(e: Endianness, bits: nat, range: BitRange, g: nat): int
    requires g > 0
  {
    match e
    case Little => Quotient(range.lsb, g)
    case Big => Quotient(bits - range.msb, g)
  }

  /** Effective addresses: a constant address, an identifier, or a sum. */
  datatype Expr =
    | AddressOf(addr: Address)
    | Id(name: string, bits: nat)
    | IAdd(left: Expr, right: int, size: nat)

  function SizeOf(ea: Expr): nat {
    match ea case AddressOf(a) => a.bits case Id(_, bits) => bits case IAdd(_, _, bits) => bits
  }

  type Env = string -> nat

  function Eval(ea: Expr, env: Env): nat {
    match ea
    case AddressOf(a) => ToLinear(a)
    case Id(name, bits) => Low(env(name), bits)
    case IAdd(left, right, bits) => Low(Eval(left, env) + right, bits)
  }

  datatype MemoryAccess = MemoryAccess(ea: Expr, bits: nat)

  function MakeSlicedMemoryAccess(ea: Expr, byteOffset: int, range: BitRange): MemoryAccess {
    var ea' :=
      if byteOffset == 0 then ea
      else if ea.AddressOf? then AddressOf(Addresses.Add(ea.addr, byteOffset))
      else IAdd(ea, byteOffset, SizeOf(ea));
    MemoryAccess(ea', range.Extent())
  }

  function SliceMemoryAccess(e: Endianness, ea: Expr, bits: nat, range: BitRange, g: nat): MemoryAccess
    requires g > 0
  {
    MakeSlicedMemoryAccess(ea, UnitOffset(e, bits, range, g), range)
  }

  /** Moving the effective address by `delta` units stays inside its size. */
  ghost predicate Movable(ea: Expr, delta: nat, env: Env) {
    match ea
    case AddressOf(a) =>
      && IsAddress(a) && ToLinear(a) + delta < WORD_LIMIT
      && a.offset + delta < WORD_LIMIT && a.offset + delta < Pow2(a.bits)
    case _ => Eval(ea, env) + delta < Pow2(SizeOf(ea))
  }

  lemma SlicedAddress(ea: Expr, delta: nat, range: BitRange, env: Env)
    requires Movable(ea, delta, env)
    ensures Eval(MakeSlicedMemoryAccess(ea, delta, range).ea, env) == Eval(ea, env) + delta
  {
    match ea
    case AddressOf(a) => AddForwardIff(a, delta);
    case _ => LowOfSmall(Eval(ea, env) + delta, SizeOf(ea));
  }

  /** The range lies in the value and consists of whole units. */
  ghost predicate Aligned(bits: nat, range: BitRange, g: nat) {
    && g > 0 && range.lsb <= range.msb <= bits
    && bits % g == 0 && range.lsb % g == 0 && range.msb % g == 0
  }

  lemma Multiple(x: nat, g: nat)
    requires g > 0 && x % g == 0
    ensures x / g >= 0 && x == Span(x / g, g)
  {
    DivNat(x, g);
    SpanIsProduct(x / g, g);
  }

  lemma DivNat(x: nat, d: nat)
    requires d > 0
    ensures x / d >= 0
  {
    if x / d < 0 {
      MulLe(x / d, -1, d);
      assert false;
    }
  }

  /** The difference of two multiples. */
  lemma DifferenceOfMultiples(x: nat, y: nat, g: nat)
    requires g > 0 && x >= y && x % g == 0 && y % g == 0
    ensures (x - y) % g == 0 && (x - y) / g == x / g - y / g && x / g >= y / g
  {
    var p, q := x / g, y / g;
    assert x == p * g && y == q * g;
    MinusProduct(p, q, g);
    DivMod(p - q, g, 0);
    if p < q {
      MulLe(p + 1, q, g);
      assert false;
    }
  }

  lemma MinusProduct(p: int, q: int, g: int)
    ensures p * g - q * g == (p - q) * g
  {
  }

  /** The units at the computed offset are the bits of the range, in either order. */
  lemma RunIsRange(e: Endianness, us: seq<nat>, bits: nat, range: BitRange, g: nat)
    requires Aligned(bits, range, g) && AreUnits(us, g) && |us| == bits / g
    ensures var k, n := UnitOffset(e, bits, range, g), range.Extent() / g;
            0 <= k <= k + n <= |us| && Read(e, us[k..k + n], g) == Field(Read(e, us, g), range.lsb, range.Extent())
  {
    DifferenceOfMultiples(range.msb, range.lsb, g);
    DifferenceOfMultiples(bits, range.msb, g);
    Multiple(range.lsb, g);
    Multiple(range.Extent(), g);
    var k: nat := UnitOffset(e, bits, range, g);
    RunIsField(us, g, k, range.Extent() / g);
  }

  lemma SubRun(mem: seq<nat>, at: nat, len: nat, k: nat, n: nat)
    requires at + len <= |mem| && k + n <= len
    ensures mem[at + k..at + k + n] == mem[at..at + len][k..k + n]
  {
    var a, b := mem[at + k..at + k + n], mem[at..at + len][k..k + n];
    forall i | 0 <= i < n ensures a[i] == b[i] {
    }
  }

  /** A narrow read at the computed offset is a field of the wide read. */
  lemma NarrowRead(e: Endianness, mem: seq<nat>, at: nat, bits: nat, range: BitRange, g: nat)
    requires Aligned(bits, range, g) && AreUnits(mem, g)
    requires TryRead(e, mem, at, bits, g).Some?
    ensures UnitOffset(e, bits, range, g) >= 0
    ensures TryRead(e, mem, at + UnitOffset(e, bits, range, g), range.Extent(), g)
            == Some(Field(TryRead(e, mem, at, bits, g).value, range.lsb, range.Extent()))
  {
    Multiple(bits, g);
    RunIsRange(e, mem[at..at + bits / g], bits, range, g);
    SubRun(mem, at, bits / g, UnitOffset(e, bits, range, g), range.Extent() / g);
  }

  /** Reading the sliced access is shifting and masking the wide read: whenever the wide read
      succeeds, the narrow one does, and gives the bits of the range. */
  lemma SliceCommutesWithRead(e: Endianness, mem: seq<nat>, ea: Expr, env: Env, bits: nat, range: BitRange, g: nat)
    requires Aligned(bits, range, g) && AreUnits(mem, g)
    requires TryRead(e, mem, Eval(ea, env), bits, g).Some?
    requires UnitOffset(e, bits, range, g) >= 0 && Movable(ea, UnitOffset(e, bits, range, g), env)
    ensures var access := SliceMemoryAccess(e, ea, bits, range, g);
            TryRead(e, mem, Eval(access.ea, env), access.bits, g)
            == Some(Field(TryRead(e, mem, Eval(ea, env), bits, g).value, range.lsb, range.Extent()))
  {
    SlicedAddress(ea, UnitOffset(e, bits, range, g), range, env);
    NarrowRead(e, mem, Eval(ea, env), bits, range, g);
  }

  // ---------- only aligned ranges ----------

  /** The slice is right for every content of the sliced value. */
  ghost predicate AlwaysRight(e: Endianness, bits: nat, range: BitRange, g: nat)
    requires g > 0
  {
    var k, n := UnitOffset(e, bits, range, g), range.Extent() / g;
    forall us: seq<nat> | AreUnits(us, g) && |us| == bits / g ::
      && 0 <= k <= k + n <= |us|
      && Read(e, us[k..k + n], g) == Field(Read(e, us, g), range.lsb, range.Extent())
  }

  function Zeros(n: nat): seq<nat> {
    seq(n, _ => 0)
  }

  lemma {:induction false} ReadZeros(n: nat, g: nat)
    ensures ReadLe(Zeros(n), g) == 0 && ReadBe(Zeros(n), g) == 0
  {
    if n == 0 {
    } else {
      ReadZeros(n - 1, g);
      assert Zeros(n)[1..] == Zeros(n - 1) && Zeros(n)[..n - 1] == Zeros(n - 1);
      ShlZero(g);
    }
  }

  /** All units zero, but for a one. */
  function OneUnit(before: nat, after: nat): seq<nat> {
    Zeros(before) + [1] + Zeros(after)
  }

  lemma ReadOneUnit(before: nat, after: nat, g: nat)
    ensures ReadLe(OneUnit(before, after), g) == Shl(1, Span(before, g))
    ensures ReadBe(OneUnit(before, after), g) == Shl(1, Span(after, g))
  {
    var a, b, c := Zeros(before), [1], Zeros(after);
    assert OneUnit(before, after) == a + (b + c);
    ReadZeros(before, g);
    ReadZeros(after, g);
    ReadLeConcat(a, b + c, g);
    ReadLeConcat(b, c, g);
    ReadBeConcat(a + b, c, g);
    ReadBeConcat(a, b, g);
    ShlZero(Span(1, g));
    ShlZero(g);
    assert ReadLe(b, g) == 1 && ReadBe(b, g) == 1;
  }

  lemma OneUnitAreUnits(before: nat, after: nat, g: nat)
    requires g > 0
    ensures AreUnits(OneUnit(before, after), g) && |OneUnit(before, after)| == before + 1 + after
  {
    Pow2Lt(0, g);
  }

  /** The quotient of a number that is no multiple. */
  lemma NoMultiple(x: nat, g: nat)
    requires g > 0 && x % g != 0
    ensures x / g >= 0 && x == Span(x / g, g) + x % g && 0 < x % g < g
  {
    DivNat(x, g);
    SpanIsProduct(x / g, g);
  }

  lemma {:induction false} SpanLt(m: nat, n: nat, g: nat)
    requires Span(m, g) < Span(n, g)
    ensures m < n
  {
    if m >= n {
      SpanAdd(n, m - n, g);
      assert false;
    }
  }

  lemma SpanIsWide(n: nat, g: nat)
    ensures n > 0 ==> Span(n, g) >= g
  {
  }

  /** A single one below a field leaves it zero. */
  lemma OneBitBelow(r: nat, at: nat, n: nat)
    requires r > 0
    ensures Field(Shl(1, at), at + r, n) == 0
  {
    JoinZero(1, at);
    ShrShr(Shl(1, at), at, r);
    Pow2Lt(0, r);
    LowOfSmall(1, r);
    LowOfSmall(0, n);
  }

  /** A single one that is not the lowest bit of the field it is in. */
  lemma OneBitAbove(r: nat, lo: nat, n: nat)
    requires 0 < r < n
    ensures Field(Shl(1, lo + r), lo, n) > 1
  {
    ShlShl(1, r, lo);
    JoinZero(Shl(1, r), lo);
    ShlPow2(0, r);
    Pow2Lt(r, n);
    LowOfSmall(Shl(1, r), n);
    Pow2Lt(0, r);
  }

  /** A misaligned range, counted in units: it starts r bits above the k-th of k + n + rest. */
  lemma MisalignedUnits(bits: nat, start: nat, extent: nat, g: nat) returns (k: nat, n: nat, rest: nat, r: nat)
    requires g > 0 && 0 < extent && start + extent <= bits
    requires bits % g == 0 && extent % g == 0 && start % g != 0
    ensures k == start / g && n == extent / g && bits / g == k + n + rest
    ensures start == Span(k, g) + r && extent == Span(n, g) && bits == Span(k + n + rest, g)
    ensures 0 < r < g <= extent && n > 0 && rest > 0
  {
    Multiple(bits, g);
    Multiple(extent, g);
    NoMultiple(start, g);
    k, n, r := start / g, extent / g, start % g;
    SpanAdd(k, n, g);
    SpanLt(k + n, bits / g, g);
    SpanIsWide(n, g);
    rest := bits / g - k - n;
  }

  /** One content for which the slice is wrong. */
  lemma WrongSlice(e: Endianness, bits: nat, range: BitRange, g: nat, us: seq<nat>, k: nat, n: nat)
    requires g > 0 && AreUnits(us, g) && |us| == bits / g
    requires k == UnitOffset(e, bits, range, g) && n == range.Extent() / g && k + n <= |us|
    requires Read(e, us[k..k + n], g) != Field(Read(e, us, g), range.lsb, range.Extent())
    ensures !AlwaysRight(e, bits, range, g)
  {
  }

  lemma MisalignedLittle(bits: nat, range: BitRange, g: nat)
    requires g > 0 && range.lsb < range.msb <= bits
    requires bits % g == 0 && range.Extent() % g == 0 && range.lsb % g != 0
    ensures !AlwaysRight(Little, bits, range, g)
  {
    var k, n, rest, r := MisalignedUnits(bits, range.lsb, range.Extent(), g);
    var us := OneUnit(k, n - 1 + rest);
    OneUnitAreUnits(k, n - 1 + rest, g);
    ReadOneUnit(k, n - 1 + rest, g);
    ReadOneUnit(0, n - 1, g);
    assert us[k..k + n] == OneUnit(0, n - 1);
    OneBitBelow(r, Span(k, g), range.Extent());
    WrongSlice(Little, bits, range, g, us, k, n);
  }

  lemma BigUnits(bits: nat, range: BitRange, g: nat) returns (k: nat, n: nat, rest: nat, r: nat)
    requires g > 0 && range.lsb < range.msb <= bits
    requires bits % g == 0 && range.Extent() % g == 0 && (bits - range.msb) % g != 0
    ensures k == UnitOffset(Big, bits, range, g) && n == range.Extent() / g && bits / g == k + n + rest
    ensures range.Extent() == Span(n, g) && Span(rest, g) == range.lsb + r
    ensures 0 < r < range.Extent() && n > 0 && rest > 0
  {
    k, n, rest, r := MisalignedUnits(bits, bits - range.msb, range.Extent(), g);
    SpanAdd(k, n, g);
    SpanAdd(k + n, rest, g);
  }

  lemma MisalignedBig(bits: nat, range: BitRange, g: nat)
    requires g > 0 && range.lsb < range.msb <= bits
    requires bits % g == 0 && range.Extent() % g == 0 && (bits - range.msb) % g != 0
    ensures !AlwaysRight(Big, bits, range, g)
  {
    var k, n, rest, r := BigUnits(bits, range, g);
    var us := OneUnit(k + n - 1, rest);
    OneUnitAreUnits(k + n - 1, rest, g);
    ReadOneUnit(k + n - 1, rest, g);
    ReadOneUnit(n - 1, 0, g);
    assert us[k..k + n] == OneUnit(n - 1, 0);
    OneBitAbove(r, range.lsb, range.Extent());
    WrongSlice(Big, bits, range, g, us, k, n);
  }

  /** For whole units in and out, the computed offset is right for every content exactly when
      the range starts at a unit. */
  lemma AlwaysRightIff(e: Endianness, bits: nat, range: BitRange, g: nat)
    requires g > 0 && range.lsb < range.msb <= bits && bits % g == 0 && range.Extent() % g == 0
    ensures AlwaysRight(e, bits, range, g) <==> range.lsb % g == 0
  {
    Multiple(bits, g);
    Multiple(range.Extent(), g);
    if range.lsb % g == 0 {
      SumOfMultiples(range.lsb, range.Extent(), g);
      forall us: seq<nat> | AreUnits(us, g) && |us| == bits / g
        ensures var k, n := UnitOffset(e, bits, range, g), range.Extent() / g;
                0 <= k <= k + n <= |us| && Read(e, us[k..k + n], g) == Field(Read(e, us, g), range.lsb, range.Extent())
      {
        RunIsRange(e, us, bits, range, g);
      }
    } else {
      match e
      case Little => MisalignedLittle(bits, range, g);
      case Big =>
        if (bits - range.msb) % g == 0 {
          DifferenceOfMultiples(bits, bits - range.msb, g);
          DifferenceOfMultiples(range.msb, range.Extent(), g);
          assert false;
        }
        MisalignedBig(bits, range, g);
    }
  }

  lemma SumOfMultiples(x: nat, y: nat, g: nat)
    requires g > 0 && x % g == 0 && y % g == 0
    ensures (x + y) % g == 0
  {
    assert x + y == (x / g + y / g) * g + 0;
    DivMod(x / g + y / g, g, 0);
  }

  // ---------- slices of expressions ----------

  /** Offset of the slice, in bits; a negative one is refused. */
  function MakeSlice(e: Endianness, sliceBits: nat, exprBits: nat, loOffset: int): Option<BitRange> {
    var offset := match e case Little => loOffset case Big => exprBits - (sliceBits + loOffset);
    if offset < 0 then None else Some(BitRange(offset, offset + sliceBits))
  }

  /** Feeding a slice back gives its memory offset, in units. */
  lemma SliceOffsetRoundTrip(e: Endianness, sliceBits: nat, exprBits: nat, loOffset: nat, g: nat)
    requires g > 0 && loOffset + sliceBits <= exprBits
    ensures var range := MakeSlice(e, sliceBits, exprBits, loOffset);
            range.Some? && range.value.Extent() == sliceBits
            && UnitOffset(e, exprBits, range.value, g) == loOffset / g
  {
    DivNat(loOffset, g);
  }

  /** Slicing an access by the slice made for a memory offset accesses the memory at that
      offset. */
  lemma SliceFedBack(e: Endianness, ea: Expr, env: Env, sliceBits: nat, exprBits: nat, loOffset: nat, g: nat)
    requires g > 0 && loOffset + sliceBits <= exprBits
    requires var moved := loOffset / g; moved >= 0 && Movable(ea, moved, env)
    ensures var range := MakeSlice(e, sliceBits, exprBits, loOffset);
            range.Some? &&
            var access := SliceMemoryAccess(e, ea, exprBits, range.value, g);
            Eval(access.ea, env) == Eval(ea, env) + loOffset / g && access.bits == sliceBits
  {
    SliceOffsetRoundTrip(e, sliceBits, exprBits, loOffset, g);
    SlicedAddress(ea, loOffset / g, MakeSlice(e, sliceBits, exprBits, loOffset).value, env);
  }

  /** The slice made for the bits at a memory offset has the value stored at that offset. */
  lemma MakeSliceReads(e: Endianness, us: seq<nat>, sliceBits: nat, exprBits: nat, loOffset: nat, g: nat)
    requires g > 0 && AreUnits(us, g) && |us| == exprBits / g && loOffset + sliceBits <= exprBits
    requires exprBits % g == 0 && sliceBits % g == 0 && loOffset % g == 0
    ensures var range := MakeSlice(e, sliceBits, exprBits, loOffset);
            var k, n := loOffset / g, sliceBits / g;
            range.Some? && 0 <= k <= k + n <= |us|
            && Field(Read(e, us, g), range.value.lsb, sliceBits) == Read(e, us[k..k + n], g)
  {
    SliceOffsetRoundTrip(e, sliceBits, exprBits, loOffset, g);
    var range := MakeSlice(e, sliceBits, exprBits, loOffset).value;
    DifferenceOfMultiples(exprBits, loOffset, g);
    DifferenceOfMultiples(exprBits - loOffset, sliceBits, g);
    SumOfMultiples(range.lsb, sliceBits, g);
    RunIsRange(e, us, exprBits, range, g);
  }

  // ---------- offsets counted in units ----------

  /** The slice made for `loOffset` holds, for every content, the value stored `loOffset` units
      beyond the start, which is what the offset is documented to mean. */
  ghost predicate RightInUnits(e: Endianness, sliceBits: nat, exprBits: nat, loOffset: nat, g: nat)
    requires g > 0
  {
    forall us: seq<nat> | AreUnits(us, g) && |us| == exprBits / g ::
      && 0 <= sliceBits / g && loOffset + sliceBits / g <= |us|
      && SlicesUnit(e, us, sliceBits, exprBits, loOffset, sliceBits / g, g)
  }

  /** A single one that is not the lowest bit of a field does not make it 1. */
  lemma OneBitElsewhere(r: nat, lo: nat, n: nat)
    requires r > 0
    ensures Field(Shl(1, lo + r), lo, n) != 1
  {
    ShlShl(1, r, lo);
    JoinZero(Shl(1, r), lo);
    assert Shl(1, r) % 2 == 0;
  }

  /** The sizes in units, and how far the slice is off. */
  lemma CountedInUnits(sliceBits: nat, exprBits: nat, loOffset: nat, g: nat) returns (n: nat, rest: nat, r: nat)
    requires g > 0 && exprBits % g == 0 && sliceBits % g == 0 && sliceBits > 0
    requires Span(loOffset, g) + sliceBits <= exprBits
    ensures n == sliceBits / g && n > 0 && exprBits / g == loOffset + n + rest
    ensures Span(n, g) == sliceBits && Span(loOffset, g) == loOffset + r
    ensures Span(rest, g) + loOffset + r + sliceBits == exprBits
    ensures r > 0 <==> loOffset > 0 && g > 1
  {
    Multiple(sliceBits, g);
    Multiple(exprBits, g);
    n := sliceBits / g;
    SpanAtLeast(loOffset, g);
    r := Span(loOffset, g) - loOffset;
    SpanAdd(loOffset, n, g);
    FitsIn(loOffset + n, exprBits / g, g);
    rest := exprBits / g - loOffset - n;
    SpanAdd(loOffset + n, rest, g);
  }

  lemma {:induction false} SpanAtLeast(n: nat, g: nat)
    requires g > 0
    ensures Span(n, g) >= n
    ensures Span(n, g) > n <==> n > 0 && g > 1
  {
    if n == 0 {
    } else {
      SpanAtLeast(n - 1, g);
    }
  }

  lemma FitsIn(m: nat, n: nat, g: nat)
    requires g > 0 && Span(m, g) <= Span(n, g)
    ensures m <= n
  {
    if n < m {
      SpanMonotone(n + 1, m, g);
    }
  }

  lemma {:induction false} SpanMonotone(m: nat, n: nat, g: nat)
    requires m <= n
    ensures Span(m, g) <= Span(n, g)
  {
    if m == n {
    } else {
      SpanMonotone(m, n - 1, g);
    }
  }

  /** What the slice and the value at the unit are, for one content. */
  ghost predicate SlicesUnit(e: Endianness, us: seq<nat>, sliceBits: nat, exprBits: nat, loOffset: nat, n: nat, g: nat)
    requires loOffset + n <= |us|
  {
    var range := MakeSlice(e, sliceBits, exprBits, loOffset);
    range.Some? && Field(Read(e, us, g), range.value.lsb, sliceBits) == Read(e, us[loOffset..loOffset + n], g)
  }

  /** A content for which the slice is not the value at that unit. */
  lemma LittleMissesUnit(sliceBits: nat, exprBits: nat, loOffset: nat, n: nat, rest: nat, r: nat, g: nat)
    returns (us: seq<nat>)
    requires g > 0 && n > 0 && r > 0 && Span(loOffset, g) == loOffset + r
    ensures AreUnits(us, g) && |us| == loOffset + n + rest
    ensures !SlicesUnit(Little, us, sliceBits, exprBits, loOffset, n, g)
  {
    us := OneUnit(loOffset, n - 1 + rest);
    OneUnitAreUnits(loOffset, n - 1 + rest, g);
    ReadOneUnit(loOffset, n - 1 + rest, g);
    ReadOneUnit(0, n - 1, g);
    assert us[loOffset..loOffset + n] == OneUnit(0, n - 1);
    OneBitElsewhere(r, loOffset, sliceBits);
  }

  lemma BigMissesUnit(sliceBits: nat, exprBits: nat, loOffset: nat, n: nat, rest: nat, r: nat, g: nat)
    returns (us: seq<nat>)
    requires g > 0 && n > 0 && r > 0 && Span(rest, g) + loOffset + r + sliceBits == exprBits
    ensures AreUnits(us, g) && |us| == loOffset + n + rest
    ensures !SlicesUnit(Big, us, sliceBits, exprBits, loOffset, n, g)
  {
    us := OneUnit(loOffset + n - 1, rest);
    OneUnitAreUnits(loOffset + n - 1, rest, g);
    ReadOneUnit(loOffset + n - 1, rest, g);
    ReadOneUnit(n - 1, 0, g);
    assert us[loOffset..loOffset + n] == OneUnit(n - 1, 0);
    OneBitBelow(r, Span(rest, g), sliceBits);
  }

  lemma SlicesUnitHere(e: Endianness, us: seq<nat>, sliceBits: nat, exprBits: nat, loOffset: nat, g: nat)
    requires g > 0 && AreUnits(us, g) && |us| == exprBits / g && loOffset + sliceBits <= exprBits
    requires exprBits % g == 0 && sliceBits % g == 0
    requires loOffset == 0 || g == 1
    ensures sliceBits / g >= 0 && loOffset + sliceBits / g <= |us|
    ensures SlicesUnit(e, us, sliceBits, exprBits, loOffset, sliceBits / g, g)
  {
    MakeSliceReads(e, us, sliceBits, exprBits, loOffset, g);
  }

  /** The documented reading of the offset, in units, is right for every content exactly when
      the offset is 0 or units are bits. */
  lemma RightInUnitsIff(e: Endianness, sliceBits: nat, exprBits: nat, loOffset: nat, g: nat)
    requires g > 0 && exprBits % g == 0 && sliceBits % g == 0 && sliceBits > 0
    requires Span(loOffset, g) + sliceBits <= exprBits
    ensures RightInUnits(e, sliceBits, exprBits, loOffset, g) <==> loOffset == 0 || g == 1
  {
    var n, rest, r := CountedInUnits(sliceBits, exprBits, loOffset, g);
    if r == 0 {
      forall us: seq<nat> | AreUnits(us, g) && |us| == exprBits / g
        ensures SlicesUnit(e, us, sliceBits, exprBits, loOffset, n, g)
      {
        SlicesUnitHere(e, us, sliceBits, exprBits, loOffset, g);
      }
    } else {
      var us;
      match e
      case Little => us := LittleMissesUnit(sliceBits, exprBits, loOffset, n, rest, r, g);
      case Big => us := BigMissesUnit(sliceBits, exprBits, loOffset, n, rest, r, g);
    }
  }

  /** The byte at offset 1 of 00 FF, little-endian, is FF; the slice made for it is 80. */
  lemma SecondByteMissed()
    ensures var range := MakeSlice(Little, 8, 16, 1);
            range.Some? && Field(ReadLe([0, 0xFF], 8), range.value.lsb, 8) == 0x80
    ensures ReadLe([0, 0xFF][1..2], 8) == 0xFF
  {
    assert [0, 0xFF][1..] == [0xFF] && [0xFF][1..] == [] && [0, 0xFF][1..2] == [0xFF];
    SmallPowers();
    ShlIsProduct(0xFF, 8);
    assert ReadLe([0, 0xFF], 8) == 0xFF00;
    assert Shr(0xFF00, 1) == 0x7F80;
    LowIsRemainder(0x7F80, 8);
  }
}
