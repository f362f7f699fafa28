/** Storages and when two of them count as equal: the Equals and GetHashCode overrides and
    ArrayComparer of src/Core/Storage.cs.
  */
module StorageShapes {
  import opened Bits
  import opened Options
  import Storages

  /** A register object. Two objects may describe the same register. */
  class Register {
    const Domain: int
    const BitAddress: nat
    const BitSize: nat

    constructor (domain: int, bitAddress: nat, bitSize: nat)
      ensures Domain == domain && BitAddress == bitAddress && BitSize == bitSize
    {
      Domain, BitAddress, BitSize := domain, bitAddress, bitSize;
    }
  }

  /** The storages. `identity` is the identity of those that are told apart by it alone. */
  datatype Storage =
    | RegisterStorage(register: Register)
    | FlagGroupStorage(flagRegister: Register, bits: nat)
    | FpuStackStorage(depth: int)
    | StackStorage(offset: int)
    | SequenceStorage(elements: seq<Storage>)
    | TemporaryStorage(number: nat, identity: int)
    | MemoryStorage(identity: int)

  predicate SameRegister(a: Register, b: Register) {
    a.Domain == b.Domain && a.BitAddress == b.BitAddress && a.BitSize == b.BitSize
  }

  /** Equality of storages; flag groups compare their bits only. Temporaries and memory do not
      redefine equality, so that only an object itself is equal to it. */
  predicate Same(x: Storage, y: Storage)
    decreases x
  {
    match x
    case RegisterStorage(r) => y.RegisterStorage? && SameRegister(r, y.register)
    case FlagGroupStorage(_, bits) => y.FlagGroupStorage? && bits == y.bits
    case FpuStackStorage(depth) => y.FpuStackStorage? && depth == y.depth
    case StackStorage(offset) => y.StackStorage? && offset == y.offset
    case SequenceStorage(elements) =>
      y.SequenceStorage? && |elements| == |y.elements| &&
      forall i | 0 <= i < |elements| :: Same(elements[i], y.elements[i])
    case TemporaryStorage(_, identity) => y.TemporaryStorage? && identity == y.identity
    case MemoryStorage(identity) => y.MemoryStorage? && identity == y.identity
  }

  ghost predicate SameElements(x: seq<Storage>, y: seq<Storage>) {
    |x| == |y| && forall i | 0 <= i < |x| :: Same(x[i], y[i])
  }

  /** A register as a value, whichever object describes it. */
  type RegisterShape = Storages.Register

  /** What equality of storages can see of them. */
  datatype Shape =
    | OfRegister(register: RegisterShape)
    | OfFlags(bits: nat)
    | OfFpu(depth: int)
    | OfStack(offset: int)
    | OfSequence(elements: seq<Shape>)
    | OfTemporary(identity: int)
    | OfMemory(identity: int)

  function RegisterShapeOf(r: Register): RegisterShape {
    Storages.Register(r.Domain, r.BitAddress, r.BitSize)
  }

  function ShapeOf(s: Storage): Shape {
    match s
    case RegisterStorage(r) => OfRegister(RegisterShapeOf(r))
    case FlagGroupStorage(_, bits) => OfFlags(bits)
    case FpuStackStorage(depth) => OfFpu(depth)
    case StackStorage(offset) => OfStack(offset)
    case SequenceStorage(elements) =>
      OfSequence(seq(|elements|, i requires 0 <= i < |elements| => ShapeOf(elements[i])))
    case TemporaryStorage(_, identity) => OfTemporary(identity)
    case MemoryStorage(identity) => OfMemory(identity)
  }

  function Shapes(elements: seq<Storage>): seq<Shape> {
    seq(|elements|, i requires 0 <= i < |elements| => ShapeOf(elements[i]))
  }

  /** Equality of storages is equality of shapes, hence an equivalence. */
  lemma {:induction false} SameIff(x: Storage, y: Storage)
    ensures Same(x, y) <==> ShapeOf(x) == ShapeOf(y)
    decreases x
  {
    if x.SequenceStorage? && y.SequenceStorage? {
      assert ShapeOf(x).elements == Shapes(x.elements) && ShapeOf(y).elements == Shapes(y.elements);
      if |x.elements| == |y.elements| {
        forall i | 0 <= i < |x.elements|
          ensures Same(x.elements[i], y.elements[i]) <==> ShapeOf(x.elements[i]) == ShapeOf(y.elements[i])
        {
          SameIff(x.elements[i], y.elements[i]);
        }
        EqualShapesIff(x.elements, y.elements);
      }
    }
  }

  lemma EqualShapesIff(x: seq<Storage>, y: seq<Storage>)
    requires |x| == |y|
    ensures Shapes(x) == Shapes(y) <==> forall i | 0 <= i < |x| :: ShapeOf(x[i]) == ShapeOf(y[i])
  {
    assert forall i | 0 <= i < |x| :: Shapes(x)[i] == ShapeOf(x[i]) && Shapes(y)[i] == ShapeOf(y[i]);
  }

  lemma SameElementsIff(x: seq<Storage>, y: seq<Storage>)
    ensures SameElements(x, y) <==> Shapes(x) == Shapes(y)
  {
    if |x| == |y| {
      forall i | 0 <= i < |x|
        ensures Same(x[i], y[i]) <==> ShapeOf(x[i]) == ShapeOf(y[i])
      {
        SameIff(x[i], y[i]);
      }
      EqualShapesIff(x, y);
    } else {
      assert |Shapes(x)| != |Shapes(y)|;
    }
  }

  /** Hashes are 32-bit words. This holds what the runtime supplies: exclusive or, and the hashes
      of types and of objects that are told apart by identity. */
  datatype Hashing = Hashing(
    xor: (int, int) -> int, flagGroupType: int, fpuStackType: int, sequenceType: int, reference: int -> int)

  /** The hash of a 64-bit word: its halves, combined. */
  function WordHash(x: nat, h: Hashing): int {
    h.xor(Low(x, 32), Field(x, 32, 32))
  }

  function RegisterHash(r: Register, h: Hashing): int {
    h.xor(h.xor(Low(r.Domain * 17, 32), Low(r.BitAddress, 32)), WordHash(r.BitSize, h))
  }

  /** The hash of a storage. That of a sequence reads two elements and fails without them. */
  function HashOf(s: Storage, h: Hashing): Option<int> {
    match s
    case RegisterStorage(r) => Some(RegisterHash(r, h))
    case FlagGroupStorage(_, bits) => Some(h.xor(h.flagGroupType, WordHash(bits, h)))
    case FpuStackStorage(depth) => Some(h.xor(h.fpuStackType, Low(depth, 32)))
    case StackStorage(offset) => Some(Low(offset, 32))
    case SequenceStorage(elements) =>
      if |elements| < 2 then
        None
      else
        (match (HashOf(elements[0], h), HashOf(elements[1], h))
         case (Some(first), Some(second)) => Some(SequenceHash(|elements|, first, second, h))
         case _ => None)
    case TemporaryStorage(_, identity) => Some(h.reference(identity))
    case MemoryStorage(identity) => Some(h.reference(identity))
  }

  function SequenceHash(length: nat, first: int, second: int, h: Hashing): int {
    h.xor(h.xor(h.xor(h.sequenceType, Low(length * 9, 32)), Low(first * 17, 32)), Low(second * 33, 32))
  }

  lemma {:induction false} SameStoragesHashEqually(x: Storage, y: Storage, h: Hashing)
    requires Same(x, y)
    ensures HashOf(x, h) == HashOf(y, h)
  {
    if x.SequenceStorage? && |x.elements| >= 2 {
      SameStoragesHashEqually(x.elements[0], y.elements[0], h);
      SameStoragesHashEqually(x.elements[1], y.elements[1], h);
    }
  }

  /** A sequence inside another one has two elements at least, and these can be hashed. */
  predicate Hashable(s: Storage) {
    s.SequenceStorage? ==> |s.elements| >= 2 && Hashable(s.elements[0]) && Hashable(s.elements[1])
  }

  lemma {:induction false} HashableIff(s: Storage, h: Hashing)
    ensures HashOf(s, h).Some? <==> Hashable(s)
  {
    if s.SequenceStorage? && |s.elements| >= 2 {
      HashableIff(s.elements[0], h);
      HashableIff(s.elements[1], h);
    }
  }

  predicate AllHashable(elements: seq<Storage>) {
    forall i | 0 <= i < |elements| :: Hashable(elements[i])
  }

  /** The hash of an array, folded over its first `n` elements. */
  function ArrayHash(x: seq<Storage>, n: nat, h: Hashing): Option<int>
    requires n <= |x|
  {
    if n == 0 then
      Some(0)
    else
      match (ArrayHash(x, n - 1, h), HashOf(x[n - 1], h))
      case (Some(rest), Some(last)) => Some(h.xor(Low(rest * 23, 32), last))
      case _ => None
  }

  lemma {:induction false} SameArraysHashEqually(x: seq<Storage>, y: seq<Storage>, n: nat, h: Hashing)
    requires SameElements(x, y)
    requires n <= |x|
    ensures ArrayHash(x, n, h) == ArrayHash(y, n, h)
  {
    if n == 0 {
    } else {
      SameArraysHashEqually(x, y, n - 1, h);
      SameStoragesHashEqually(x[n - 1], y[n - 1], h);
    }
  }

  /** Array equality: the same shapes in the same order. */
  method ArraysEqual(x: seq<Storage>, y: seq<Storage>) returns (same: bool)
    ensures same <==> Shapes(x) == Shapes(y)
  {
    SameElementsIff(x, y);
    if |x| != |y| {
      return false;
    }
    for i := 0 to |x|
      invariant forall j | 0 <= j < i :: Same(x[j], y[j])
    {
      if !Same(x[i], y[i]) {
        return false;
      }
    }
    return true;
  }

  method GetArrayHashCode(x: seq<Storage>, h: Hashing) returns (hash: Option<int>)
    ensures hash == ArrayHash(x, |x|, h)
    ensures hash.Some? <==> AllHashable(x)
  {
    var folded := 0;
    for i := 0 to |x|
      invariant ArrayHash(x, i, h) == Some(folded)
      invariant forall j | 0 <= j < i :: Hashable(x[j])
    {
      HashableIff(x[i], h);
      var element := HashOf(x[i], h);
      if element.None? {
        FailureStays(x, i, |x|, h);
        return None;
      }
      folded := h.xor(Low(folded * 23, 32), element.value);
    }
    return Some(folded);
  }

  lemma {:induction false} FailureStays(x: seq<Storage>, i: nat, n: nat, h: Hashing)
    requires i < n <= |x|
    requires HashOf(x[i], h).None?
    ensures ArrayHash(x, n, h).None?
  {
    if i < n - 1 {
      FailureStays(x, i, n - 1, h);
    }
  }
}
