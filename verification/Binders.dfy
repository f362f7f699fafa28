/** The two binders of storages to identifiers: src/Core/StorageBinder.cs keeps dictionaries,
    src/Core/Frame.cs scans its list of identifiers.
  */
module Binders {
  import opened Options
  import opened FirstUses
  import opened StorageShapes

  class Identifier {
    const Storage: Storage

    constructor (storage: Storage)
      ensures Storage == storage
    {
      Storage := storage;
    }
  }

  /** What a request is answered by. R is what tells registers apart. */
  datatype Key<R> =
    | RegisterKey(register: R)
    | FlagKey(flagRegister: R, bits: nat)
    | SequenceKey(elements: seq<Shape>)
    | FpuKey(depth: int)

  /** The dictionaries compare registers by their shape. */
  function BinderKey(s: Storage): Option<Key<RegisterShape>> {
    match s
    case RegisterStorage(r) => Some(RegisterKey(RegisterShapeOf(r)))
    case FlagGroupStorage(r, bits) => Some(FlagKey(RegisterShapeOf(r), bits))
    case SequenceStorage(elements) => Some(SequenceKey(Shapes(elements)))
    case FpuStackStorage(depth) => Some(FpuKey(depth))
    case _ => None
  }

  /** The scans compare registers by identity. */
  function FrameKey(s: Storage): Option<Key<Register>> {
    match s
    case RegisterStorage(r) => Some(RegisterKey(r))
    case FlagGroupStorage(r, bits) => Some(FlagKey(r, bits))
    case SequenceStorage(elements) => Some(SequenceKey(Shapes(elements)))
    case FpuStackStorage(depth) => Some(FpuKey(depth))
    case _ => None
  }

  ghost function Keys<R>(ids: seq<Identifier>, keyOf: Storage -> Option<Key<R>>): Table<Key<R>> {
    seq(|ids|, i requires 0 <= i < |ids| => keyOf(ids[i].Storage))
  }

  /** Temporaries carry their position, so no two of them share a storage. */
  ghost predicate Numbered(ids: seq<Identifier>) {
    forall i :: 0 <= i < |ids| && ids[i].Storage.TemporaryStorage? ==> ids[i].Storage.number == i
  }

  ghost function AskOf<R>(key: Option<Key<R>>): Ask<Key<R>> {
    match key
    case Some(k) => Shared(k)
    case None => Fresh
  }

  /** `answer` is what a table of `before` owes to a request for `storage`. */
  ghost predicate Answers<R>(before: seq<Identifier>, keyOf: Storage -> Option<Key<R>>, storage: Storage,
                             after: seq<Identifier>, answer: Identifier) {
    var slot := SlotOf(Keys(before, keyOf), AskOf(keyOf(storage)));
    && (slot < |before| ==> after == before)
    && (slot == |before| ==> after == before + [answer] && answer.Storage == storage && answer !in before)
    && answer == after[slot]
  }

  /** The identifier that a scan for `key` finds. */
  ghost function Known<R>(ids: seq<Identifier>, keyOf: Storage -> Option<Key<R>>, key: Key<R>): Option<Identifier> {
    var slot := Find(Keys(ids, keyOf), key);
    if slot < |ids| then Some(ids[slot]) else None
  }

  lemma KnownAppended<R>(ids: seq<Identifier>, id: Identifier, keyOf: Storage -> Option<Key<R>>)
    ensures forall key :: Known(ids + [id], keyOf, key) ==
              if Known(ids, keyOf, key).None? && keyOf(id.Storage) == Some(key) then Some(id)
              else Known(ids, keyOf, key)
  {
    assert Keys(ids + [id], keyOf) == Keys(ids, keyOf) + [keyOf(id.Storage)];
    forall key
      ensures Known(ids + [id], keyOf, key) ==
              if Known(ids, keyOf, key).None? && keyOf(id.Storage) == Some(key) then Some(id)
              else Known(ids, keyOf, key)
    {
      FindAppended(Keys(ids, keyOf), keyOf(id.Storage), key);
    }
  }

  lemma NewAnswers<R>(ids: seq<Identifier>, keyOf: Storage -> Option<Key<R>>, id: Identifier)
    requires keyOf(id.Storage).Some? ==> Known(ids, keyOf, keyOf(id.Storage).value).None?
    requires id.Storage.TemporaryStorage? ==> id.Storage.number == |ids|
    requires id !in ids
    ensures Answers(ids, keyOf, id.Storage, ids + [id], id)
    ensures Numbered(ids) ==> Numbered(ids + [id])
    ensures forall key :: Known(ids + [id], keyOf, key) ==
              if keyOf(id.Storage) == Some(key) then Some(id) else Known(ids, keyOf, key)
  {
    KnownAppended(ids, id, keyOf);
  }

  /** The dictionaries of a binder, taken together. */
  datatype Dictionaries = Dictionaries(
    regs: map<RegisterShape, Identifier>,
    grfs: map<RegisterShape, map<nat, Identifier>>,
    seqs: map<seq<Shape>, Identifier>,
    fpus: map<int, Identifier>)

  /** What the dictionaries hold for a key. */
  ghost function Entry(d: Dictionaries, key: Key<RegisterShape>): Option<Identifier> {
    match key
    case RegisterKey(r) => if r in d.regs then Some(d.regs[r]) else None
    case FlagKey(r, bits) => if r in d.grfs && bits in d.grfs[r] then Some(d.grfs[r][bits]) else None
    case SequenceKey(elements) => if elements in d.seqs then Some(d.seqs[elements]) else None
    case FpuKey(depth) => if depth in d.fpus then Some(d.fpus[depth]) else None
  }

  ghost function Groups(d: Dictionaries, register: RegisterShape): map<nat, Identifier> {
    if register in d.grfs then d.grfs[register] else map[]
  }

  ghost function WithEntry(d: Dictionaries, key: Key<RegisterShape>, id: Identifier): Dictionaries {
    match key
    case RegisterKey(r) => d.(regs := d.regs[r := id])
    case FlagKey(r, bits) => d.(grfs := d.grfs[r := Groups(d, r)[bits := id]])
    case SequenceKey(elements) => d.(seqs := d.seqs[elements := id])
    case FpuKey(depth) => d.(fpus := d.fpus[depth := id])
  }

  lemma EntryAdded(d: Dictionaries, key: Key<RegisterShape>, id: Identifier, other: Key<RegisterShape>)
    ensures Entry(WithEntry(d, key, id), other) == if other == key then Some(id) else Entry(d, other)
  {
  }

  /** The dictionaries know exactly what a scan of the list would find. */
  ghost predicate Indexed(d: Dictionaries, ids: seq<Identifier>) {
    Numbered(ids) && forall key :: Entry(d, key) == Known(ids, BinderKey, key)
  }

  lemma EntryAnswers(d: Dictionaries, ids: seq<Identifier>, storage: Storage)
    requires Indexed(d, ids) && BinderKey(storage).Some?
    ensures var entry := Entry(d, BinderKey(storage).value);
            entry.Some? ==> Answers(ids, BinderKey, storage, ids, entry.value)
  {
    var key := BinderKey(storage).value;
    assert Entry(d, key) == Known(ids, BinderKey, key);
  }

  lemma NewIndexed(d: Dictionaries, ids: seq<Identifier>, id: Identifier)
    requires Indexed(d, ids) && id !in ids
    requires id.Storage.TemporaryStorage? ==> id.Storage.number == |ids|
    requires BinderKey(id.Storage).Some? ==> Entry(d, BinderKey(id.Storage).value).None?
    ensures var key := BinderKey(id.Storage);
            Indexed(if key.None? then d else WithEntry(d, key.value, id), ids + [id])
    ensures Answers(ids, BinderKey, id.Storage, ids + [id], id)
  {
    var key := BinderKey(id.Storage);
    NewAnswers(ids, BinderKey, id);
    var added := if key.None? then d else WithEntry(d, key.value, id);
    forall other
      ensures Entry(added, other) == Known(ids + [id], BinderKey, other)
    {
      if key.Some? {
        EntryAdded(d, key.value, id, other);
      }
    }
  }

  class StorageBinder {
    var regs: map<RegisterShape, Identifier>
    var grfs: map<RegisterShape, map<nat, Identifier>>
    var seqs: map<seq<Shape>, Identifier>
    var fpus: map<int, Identifier>
    var ids: seq<Identifier>
    const Hashes: Hashing

    ghost function Contents(): Dictionaries
      reads this
    {
      Dictionaries(regs, grfs, seqs, fpus)
    }

    ghost predicate Valid()
      reads this
    {
      Indexed(Contents(), ids)
    }

    constructor (hashes: Hashing)
      ensures Valid() && ids == []
    {
      Hashes := hashes;
      regs, grfs, seqs, fpus, ids := map[], map[], map[], map[], [];
    }

    /** `identity` is the identity of the new storage. */
    method CreateTemporary(identity: int) returns (id: Identifier)
      requires Valid()
      modifies this
      ensures Valid()
      ensures Answers(old(ids), BinderKey, TemporaryStorage(old(|ids|), identity), ids, id)
    {
      id := new Identifier(TemporaryStorage(|ids|, identity));
      NewIndexed(Contents(), ids, id);
      ids := ids + [id];
    }

    method EnsureRegister(reg: Register) returns (id: Identifier)
      requires Valid()
      modifies this
      ensures Valid()
      ensures Answers(old(ids), BinderKey, RegisterStorage(reg), ids, id)
    {
      EntryAnswers(Contents(), ids, RegisterStorage(reg));
      var shape := RegisterShapeOf(reg);
      if shape in regs {
        id := regs[shape];
        return;
      }
      id := new Identifier(RegisterStorage(reg));
      NewIndexed(Contents(), ids, id);
      regs := regs[shape := id];
      ids := ids + [id];
    }

    method EnsureFlagGroup(flagRegister: Register, bits: nat) returns (id: Identifier)
      requires Valid()
      modifies this
      ensures Valid()
      ensures Answers(old(ids), BinderKey, FlagGroupStorage(flagRegister, bits), ids, id)
    {
      var shape := RegisterShapeOf(flagRegister);
      var groups: map<nat, Identifier> := map[];
      if shape in grfs {
        groups := grfs[shape];
      } else {
        grfs := grfs[shape := groups];
      }
      EntryAnswers(Contents(), ids, FlagGroupStorage(flagRegister, bits));
      if bits in groups {
        id := groups[bits];
        return;
      }
      id := new Identifier(FlagGroupStorage(flagRegister, bits));
      NewIndexed(Contents(), ids, id);
      grfs := grfs[shape := groups[bits := id]];
      ids := ids + [id];
    }

    /** The key of the dictionary is hashed, which fails for some sequences inside the sequence. */
    method EnsureSequence(elements: seq<Storage>) returns (id: Option<Identifier>)
      requires Valid()
      modifies this
      ensures Valid()
      ensures id.Some? <==> AllHashable(elements)
      ensures id.None? ==> ids == old(ids)
      ensures id.Some? ==> Answers(old(ids), BinderKey, SequenceStorage(elements), ids, id.value)
    {
      var hash := GetArrayHashCode(elements, Hashes);
      if hash.None? {
        return None;
      }
      EntryAnswers(Contents(), ids, SequenceStorage(elements));
      var shapes := Shapes(elements);
      if shapes in seqs {
        return Some(seqs[shapes]);
      }
      var added := new Identifier(SequenceStorage(elements));
      NewIndexed(Contents(), ids, added);
      seqs := seqs[shapes := added];
      ids := ids + [added];
      return Some(added);
    }

    method EnsureFpuStackVariable(depth: int) returns (id: Identifier)
      requires Valid()
      modifies this
      ensures Valid()
      ensures Answers(old(ids), BinderKey, FpuStackStorage(depth), ids, id)
    {
      EntryAnswers(Contents(), ids, FpuStackStorage(depth));
      if depth in fpus {
        id := fpus[depth];
        return;
      }
      id := new Identifier(FpuStackStorage(depth));
      NewIndexed(Contents(), ids, id);
      fpus := fpus[depth := id];
      ids := ids + [id];
    }
  }

  /** An identifier with the key, and none before it, is the one a scan finds. */
  lemma FirstIsKnown<R>(ids: seq<Identifier>, keyOf: Storage -> Option<Key<R>>, key: Key<R>, n: nat)
    requires n <= |ids|
    requires forall i :: 0 <= i < n ==> keyOf(ids[i].Storage) != Some(key)
    requires n < |ids| ==> keyOf(ids[n].Storage) == Some(key)
    ensures Known(ids, keyOf, key) == if n < |ids| then Some(ids[n]) else None
  {
    var slot := Find(Keys(ids, keyOf), key);
    assert slot < |ids| ==> Keys(ids, keyOf)[slot] == keyOf(ids[slot].Storage);
    assert n < |ids| ==> Keys(ids, keyOf)[n] == keyOf(ids[n].Storage);
  }

  lemma NoKeys<R>(ids: seq<Identifier>, keyOf: Storage -> Option<Key<R>>)
    requires forall i :: 0 <= i < |ids| ==> keyOf(ids[i].Storage).None?
    ensures Keys(ids, keyOf) == Blank(|ids|)
  {
  }

  lemma SequenceKeyIff(storage: Storage, elements: seq<Storage>)
    ensures FrameKey(storage) == Some(SequenceKey(Shapes(elements))) <==>
            && storage.SequenceStorage? && |storage.elements| == |elements|
            && Shapes(storage.elements) == Shapes(elements)
  {
    if storage.SequenceStorage? {
      assert |Shapes(storage.elements)| == |storage.elements| && |Shapes(elements)| == |elements|;
    }
  }

  class Frame {
    var Identifiers: seq<Identifier>

    ghost predicate Valid()
      reads this
    {
      Numbered(Identifiers)
    }

    /** Memory, frame pointer and continuation come first; `objects` are the identities of their
        storages. */
    constructor (objects: (int, int, int))
      ensures Valid() && |Identifiers| == 3
      ensures Keys(Identifiers, FrameKey) == Blank(3)
    {
      var memory := new Identifier(MemoryStorage(objects.0));
      var framePointer := new Identifier(TemporaryStorage(1, objects.1));
      var continuation := new Identifier(TemporaryStorage(2, objects.2));
      Identifiers := [memory, framePointer, continuation];
      NoKeys([memory, framePointer, continuation], FrameKey);
    }

    method FindRegister(reg: Register) returns (found: Option<Identifier>)
      ensures found == Known(Identifiers, FrameKey, RegisterKey(reg))
    {
      for i := 0 to |Identifiers|
        invariant forall j :: 0 <= j < i ==> FrameKey(Identifiers[j].Storage) != Some(RegisterKey(reg))
      {
        var storage := Identifiers[i].Storage;
        if storage.RegisterStorage? && storage.register == reg {
          FirstIsKnown(Identifiers, FrameKey, RegisterKey(reg), i);
          return Some(Identifiers[i]);
        }
      }
      FirstIsKnown(Identifiers, FrameKey, RegisterKey(reg), |Identifiers|);
      return None;
    }

    method FindFlagGroup(reg: Register, bits: nat) returns (found: Option<Identifier>)
      ensures found == Known(Identifiers, FrameKey, FlagKey(reg, bits))
    {
      for i := 0 to |Identifiers|
        invariant forall j :: 0 <= j < i ==> FrameKey(Identifiers[j].Storage) != Some(FlagKey(reg, bits))
      {
        var storage := Identifiers[i].Storage;
        if storage.FlagGroupStorage? && storage.flagRegister == reg && storage.bits == bits {
          FirstIsKnown(Identifiers, FrameKey, FlagKey(reg, bits), i);
          return Some(Identifiers[i]);
        }
      }
      FirstIsKnown(Identifiers, FrameKey, FlagKey(reg, bits), |Identifiers|);
      return None;
    }

    method FindFpuStackVariable(depth: int) returns (found: Option<Identifier>)
      ensures found == Known(Identifiers, FrameKey, FpuKey(depth))
    {
      for i := 0 to |Identifiers|
        invariant forall j :: 0 <= j < i ==> FrameKey(Identifiers[j].Storage) != Some(FpuKey(depth))
      {
        var storage := Identifiers[i].Storage;
        if storage.FpuStackStorage? && storage.depth == depth {
          FirstIsKnown(Identifiers, FrameKey, FpuKey(depth), i);
          return Some(Identifiers[i]);
        }
      }
      FirstIsKnown(Identifiers, FrameKey, FpuKey(depth), |Identifiers|);
      return None;
    }

    /** The inner loop of FindSequence. */
    static method AllSame(x: seq<Storage>, y: seq<Storage>) returns (allSame: bool)
      requires |x| == |y|
      ensures allSame <==> Shapes(x) == Shapes(y)
    {
      allSame := true;
      var i := 0;
      while allSame && i < |x|
        invariant i <= |x|
        invariant allSame <==> forall j :: 0 <= j < i ==> Same(x[j], y[j])
      {
        allSame := Same(x[i], y[i]);
        i := i + 1;
      }
      assert allSame <==> SameElements(x, y);
      SameElementsIff(x, y);
    }

    method FindSequence(elements: seq<Storage>) returns (found: Option<Identifier>)
      ensures found == Known(Identifiers, FrameKey, SequenceKey(Shapes(elements)))
    {
      for i := 0 to |Identifiers|
        invariant forall j :: 0 <= j < i ==>
          FrameKey(Identifiers[j].Storage) != Some(SequenceKey(Shapes(elements)))
      {
        var storage := Identifiers[i].Storage;
        SequenceKeyIff(storage, elements);
        if storage.SequenceStorage? && |storage.elements| == |elements| {
          var allSame := AllSame(storage.elements, elements);
          if allSame {
            FirstIsKnown(Identifiers, FrameKey, SequenceKey(Shapes(elements)), i);
            return Some(Identifiers[i]);
          }
        }
      }
      FirstIsKnown(Identifiers, FrameKey, SequenceKey(Shapes(elements)), |Identifiers|);
      return None;
    }

    method Append(storage: Storage) returns (id: Identifier)
      requires Valid()
      requires FrameKey(storage).Some? ==> Known(Identifiers, FrameKey, FrameKey(storage).value).None?
      requires storage.TemporaryStorage? ==> storage.number == |Identifiers|
      modifies this
      ensures Valid()
      ensures Identifiers == old(Identifiers) + [id] && id.Storage == storage
      ensures Answers(old(Identifiers), FrameKey, storage, Identifiers, id)
    {
      id := new Identifier(storage);
      NewAnswers(Identifiers, FrameKey, id);
      Identifiers := Identifiers + [id];
    }

    /** `identity` is the identity of the new storage. */
    method CreateTemporary(identity: int) returns (id: Identifier)
      requires Valid()
      modifies this
      ensures Valid()
      ensures Answers(old(Identifiers), FrameKey, TemporaryStorage(old(|Identifiers|), identity), Identifiers, id)
    {
      id := Append(TemporaryStorage(|Identifiers|, identity));
    }

    method EnsureRegister(reg: Register) returns (id: Identifier)
      requires Valid()
      modifies this
      ensures Valid()
      ensures Answers(old(Identifiers), FrameKey, RegisterStorage(reg), Identifiers, id)
    {
      var found := FindRegister(reg);
      if found.None? {
        id := Append(RegisterStorage(reg));
      } else {
        id := found.value;
      }
    }

    /** A group without bits is an error. */
    method EnsureFlagGroup(flagRegister: Register, bits: nat) returns (id: Option<Identifier>)
      requires Valid()
      modifies this
      ensures Valid()
      ensures id.None? <==> bits == 0
      ensures id.None? ==> Identifiers == old(Identifiers)
      ensures id.Some? ==>
                Answers(old(Identifiers), FrameKey, FlagGroupStorage(flagRegister, bits), Identifiers, id.value)
    {
      if bits == 0 {
        return None;
      }
      id := FindFlagGroup(flagRegister, bits);
      if id.None? {
        var added := Append(FlagGroupStorage(flagRegister, bits));
        id := Some(added);
      } else {
      }
    }

    method EnsureSequence(elements: seq<Storage>) returns (id: Identifier)
      requires Valid()
      modifies this
      ensures Valid()
      ensures Answers(old(Identifiers), FrameKey, SequenceStorage(elements), Identifiers, id)
    {
      var found := FindSequence(elements);
      if found.None? {
        id := Append(SequenceStorage(elements));
      } else {
        id := found.value;
      }
    }

    method EnsureFpuStackVariable(depth: int) returns (id: Identifier)
      requires Valid()
      modifies this
      ensures Valid()
      ensures Answers(old(Identifiers), FrameKey, FpuStackStorage(depth), Identifiers, id)
    {
      var found := FindFpuStackVariable(depth);
      if found.None? {
        id := Append(FpuStackStorage(depth));
      } else {
        id := found.value;
      }
    }
  }

  datatype Request =
    | ForRegister(register: Register)
    | ForFlagGroup(flagRegister: Register, bits: nat)
    | ForSequence(elements: seq<Storage>)
    | ForFpuStackVariable(depth: int)
    | ForTemporary(inBinder: int, inFrame: int)

  /** The storage a request is about; `size` is the length of the list it is made to, and
      `identity` the identity of a new storage. */
  function StorageOf(request: Request, size: nat, identity: int): Storage {
    match request
    case ForRegister(r) => RegisterStorage(r)
    case ForFlagGroup(r, bits) => FlagGroupStorage(r, bits)
    case ForSequence(elements) => SequenceStorage(elements)
    case ForFpuStackVariable(depth) => FpuStackStorage(depth)
    case ForTemporary(_, _) => TemporaryStorage(size, identity)
  }

  function ObjectInBinder(request: Request): int {
    if request.ForTemporary? then request.inBinder else 0
  }

  function ObjectInFrame(request: Request): int {
    if request.ForTemporary? then request.inFrame else 0
  }

  /** The dictionaries cannot hash some sequences. */
  function BinderAsk(request: Request): Ask<Key<RegisterShape>> {
    match request
    case ForRegister(r) => Shared(RegisterKey(RegisterShapeOf(r)))
    case ForFlagGroup(r, bits) => Shared(FlagKey(RegisterShapeOf(r), bits))
    case ForSequence(elements) => if AllHashable(elements) then Shared(SequenceKey(Shapes(elements))) else Refused
    case ForFpuStackVariable(depth) => Shared(FpuKey(depth))
    case ForTemporary(_, _) => Fresh
  }

  /** The frame refuses flag groups without bits. */
  function FrameAsk(request: Request): Ask<Key<Register>> {
    match request
    case ForRegister(r) => Shared(RegisterKey(r))
    case ForFlagGroup(r, bits) => if bits != 0 then Shared(FlagKey(r, bits)) else Refused
    case ForSequence(elements) => Shared(SequenceKey(Shapes(elements)))
    case ForFpuStackVariable(depth) => Shared(FpuKey(depth))
    case ForTemporary(_, _) => Fresh
  }

  ghost function Asks<R>(requests: seq<Request>, askOf: Request -> Ask<Key<R>>): seq<Ask<Key<R>>> {
    seq(|requests|, i requires 0 <= i < |requests| => askOf(requests[i]))
  }

  /** Neither binder refuses the request. */
  predicate Accepted(request: Request) {
    match request
    case ForFlagGroup(_, bits) => bits != 0
    case ForSequence(elements) => AllHashable(elements)
    case _ => true
  }

  ghost predicate AllAccepted(requests: seq<Request>) {
    forall i :: 0 <= i < |requests| ==> Accepted(requests[i])
  }

  ghost predicate SameObjectIfEqual(a: Request, b: Request) {
    match (a, b)
    case (ForRegister(r), ForRegister(q)) => SameRegister(r, q) ==> r == q
    case (ForFlagGroup(r, m), ForFlagGroup(q, n)) => m == n && SameRegister(r, q) ==> r == q
    case _ => true
  }

  /** No two requests use different objects for one register. */
  ghost predicate Interned(requests: seq<Request>) {
    forall i, j :: 0 <= i < j < |requests| ==> SameObjectIfEqual(requests[i], requests[j])
  }

  lemma SharingIff(requests: seq<Request>)
    requires AllAccepted(requests)
    ensures SameSharing(Asks(requests, BinderAsk), Asks(requests, FrameAsk)) <==> Interned(requests)
  {
    var binder, frame := Asks(requests, BinderAsk), Asks(requests, FrameAsk);
    forall i, j | 0 <= i < j < |requests|
      ensures SameObjectIfEqual(requests[i], requests[j]) <==> (Shares(binder, i, j) <==> Shares(frame, i, j))
    {
      assert binder[i] == BinderAsk(requests[i]) && binder[j] == BinderAsk(requests[j]);
      assert frame[i] == FrameAsk(requests[i]) && frame[j] == FrameAsk(requests[j]);
    }
  }

  lemma RefusalsIff(requests: seq<Request>)
    ensures SameRefusals(Asks(requests, BinderAsk), Asks(requests, FrameAsk)) <==> AllAccepted(requests)
  {
    var binder, frame := Asks(requests, BinderAsk), Asks(requests, FrameAsk);
    forall i | 0 <= i < |requests|
      ensures Accepted(requests[i]) <==> (binder[i].Refused? <==> frame[i].Refused?)
    {
      assert binder[i] == BinderAsk(requests[i]) && frame[i] == FrameAsk(requests[i]);
    }
  }

  /** Over a whole run, the binder and the frame fail at the same requests and answer the others
      with the same entries, three further on in the frame, exactly when the requests use
      interned registers, flag groups with bits, and sequences that can be hashed. */
  lemma BindersAgreeIff(requests: seq<Request>)
    ensures SameAnswers(0, Asks(requests, BinderAsk), 3, Asks(requests, FrameAsk), |requests|) <==>
            AllAccepted(requests) && Interned(requests)
  {
    RefusalsIff(requests);
    if AllAccepted(requests) {
      SharingIff(requests);
    }
    SameAnswersIff(0, Asks(requests, BinderAsk), 3, Asks(requests, FrameAsk));
  }

  /** A sequence in a sequence of one register: the frame has an answer, the binder fails. */
  lemma BinderCannotHash(r: Register)
    ensures var request := ForSequence([SequenceStorage([RegisterStorage(r)])]);
            BinderAsk(request).Refused? && FrameAsk(request).Shared?
  {
    var inner := SequenceStorage([RegisterStorage(r)]);
    assert !Hashable([inner][0]);
  }

  /** What a request for a storage does to a list of identifiers: the answer its table owes or,
      if it is refused, nothing. */
  ghost predicate Served<R>(before: seq<Identifier>, keyOf: Storage -> Option<Key<R>>, ask: Ask<Key<R>>,
                            storage: Storage, after: seq<Identifier>, id: Option<Identifier>) {
    && (id.None? <==> ask.Refused?)
    && (id.None? ==> after == before)
    && (id.Some? ==> AskOf(keyOf(storage)) == ask && Answers(before, keyOf, storage, after, id.value))
  }

  method AskBinder(binder: StorageBinder, request: Request) returns (id: Option<Identifier>)
    requires binder.Valid()
    modifies binder
    ensures binder.Valid()
    ensures Served(old(binder.ids), BinderKey, BinderAsk(request),
                   StorageOf(request, old(|binder.ids|), ObjectInBinder(request)), binder.ids, id)
  {
    var answer;
    match request
    case ForRegister(r) => answer := binder.EnsureRegister(r); id := Some(answer);
    case ForFlagGroup(r, bits) => answer := binder.EnsureFlagGroup(r, bits); id := Some(answer);
    case ForSequence(elements) => id := binder.EnsureSequence(elements);
    case ForFpuStackVariable(depth) => answer := binder.EnsureFpuStackVariable(depth); id := Some(answer);
    case ForTemporary(identity, _) => answer := binder.CreateTemporary(identity); id := Some(answer);
  }

  method AskFrame(frame: Frame, request: Request) returns (id: Option<Identifier>)
    requires frame.Valid()
    modifies frame
    ensures frame.Valid()
    ensures Served(old(frame.Identifiers), FrameKey, FrameAsk(request),
                   StorageOf(request, old(|frame.Identifiers|), ObjectInFrame(request)), frame.Identifiers, id)
  {
    var answer;
    match request
    case ForRegister(r) => answer := frame.EnsureRegister(r); id := Some(answer);
    case ForFlagGroup(r, bits) => id := frame.EnsureFlagGroup(r, bits);
    case ForSequence(elements) => answer := frame.EnsureSequence(elements); id := Some(answer);
    case ForFpuStackVariable(depth) => answer := frame.EnsureFpuStackVariable(depth); id := Some(answer);
    case ForTemporary(_, identity) => answer := frame.CreateTemporary(identity); id := Some(answer);
  }

  method AskBoth(binder: StorageBinder, frame: Frame, request: Request)
    returns (a: Option<Identifier>, b: Option<Identifier>)
    requires binder.Valid() && frame.Valid()
    modifies binder, frame
    ensures binder.Valid() && frame.Valid()
    ensures Served(old(binder.ids), BinderKey, BinderAsk(request),
                   StorageOf(request, old(|binder.ids|), ObjectInBinder(request)), binder.ids, a)
    ensures Served(old(frame.Identifiers), FrameKey, FrameAsk(request),
                   StorageOf(request, old(|frame.Identifiers|), ObjectInFrame(request)), frame.Identifiers, b)
  {
    a := AskBinder(binder, request);
    b := AskFrame(frame, request);
  }

  /** The answer stands where the table says. */
  ghost predicate StandsAt(ids: seq<Identifier>, id: Option<Identifier>, slot: Option<nat>) {
    if slot.None? then id.None? else slot.value < |ids| && id == Some(ids[slot.value])
  }

  /** `ids` and `answers` are what a run of the first `n` requests leaves and returns. */
  ghost predicate Ran<R>(blanks: nat, asks: seq<Ask<Key<R>>>, n: nat, keyOf: Storage -> Option<Key<R>>,
                         ids: seq<Identifier>, answers: seq<Option<Identifier>>)
    requires n <= |asks|
  {
    && |answers| == n
    && Keys(ids, keyOf) == After(blanks, asks, n)
    && forall i :: 0 <= i < n ==> StandsAt(ids, answers[i], Answer(blanks, asks, i))
  }

  lemma RanOneMore<R>(blanks: nat, requests: seq<Request>, n: nat, keyOf: Storage -> Option<Key<R>>,
                      askOf: Request -> Ask<Key<R>>, before: seq<Identifier>, answers: seq<Option<Identifier>>,
                      storage: Storage, after: seq<Identifier>, id: Option<Identifier>)
    requires n < |requests|
    requires Ran(blanks, Asks(requests, askOf), n, keyOf, before, answers)
    requires Served(before, keyOf, askOf(requests[n]), storage, after, id)
    ensures Ran(blanks, Asks(requests, askOf), n + 1, keyOf, after, answers + [id])
  {
    var asks := Asks(requests, askOf);
    assert asks[n] == askOf(requests[n]);
    forall i | 0 <= i < n ensures StandsAt(after, answers[i], Answer(blanks, asks, i)) {
      assert StandsAt(before, answers[i], Answer(blanks, asks, i));
    }
    assert StandsAt(after, id, Answer(blanks, asks, n));
  }

  /** Both binders fail, or `b` stands three places further on in the frame than `a` in the
      binder. */
  ghost predicate StandsAlike(ids: seq<Identifier>, a: Option<Identifier>,
                              identifiers: seq<Identifier>, b: Option<Identifier>) {
    || (a.None? && b.None?)
    || exists slot ::
         && 0 <= slot < |ids| && slot + 3 < |identifiers|
         && a == Some(ids[slot]) && b == Some(identifiers[slot + 3])
  }

  lemma RanAlike(requests: seq<Request>, ids: seq<Identifier>, fromBinder: seq<Option<Identifier>>,
                 identifiers: seq<Identifier>, fromFrame: seq<Option<Identifier>>, i: nat)
    requires i < |requests| && AllAccepted(requests) && Interned(requests)
    requires Ran(0, Asks(requests, BinderAsk), |requests|, BinderKey, ids, fromBinder)
    requires Ran(3, Asks(requests, FrameAsk), |requests|, FrameKey, identifiers, fromFrame)
    ensures StandsAlike(ids, fromBinder[i], identifiers, fromFrame[i])
  {
    BindersAgreeIff(requests);
    var slot, slot' := Answer(0, Asks(requests, BinderAsk), i), Answer(3, Asks(requests, FrameAsk), i);
    assert Matches(0, slot, 3, slot');
    assert StandsAt(ids, fromBinder[i], slot) && StandsAt(identifiers, fromFrame[i], slot');
    if slot.Some? {
      assert fromBinder[i] == Some(ids[slot.value]) && fromFrame[i] == Some(identifiers[slot.value + 3]);
    }
  }

  /** The two binders side by side, on the heap: each answers as its table says, and over accepted
      requests with interned registers they answer alike. */
  method RunBoth(requests: seq<Request>, hashes: Hashing, objects: (int, int, int))
    returns (binder: StorageBinder, frame: Frame,
             fromBinder: seq<Option<Identifier>>, fromFrame: seq<Option<Identifier>>)
    ensures Ran(0, Asks(requests, BinderAsk), |requests|, BinderKey, binder.ids, fromBinder)
    ensures Ran(3, Asks(requests, FrameAsk), |requests|, FrameKey, frame.Identifiers, fromFrame)
    ensures AllAccepted(requests) && Interned(requests) ==> forall i :: 0 <= i < |requests| ==>
              StandsAlike(binder.ids, fromBinder[i], frame.Identifiers, fromFrame[i])
  {
    binder := new StorageBinder(hashes);
    frame := new Frame(objects);
    fromBinder, fromFrame := [], [];
    for n := 0 to |requests|
      invariant binder.Valid() && frame.Valid()
      invariant fresh(binder) && fresh(frame)
      invariant Ran(0, Asks(requests, BinderAsk), n, BinderKey, binder.ids, fromBinder)
      invariant Ran(3, Asks(requests, FrameAsk), n, FrameKey, frame.Identifiers, fromFrame)
    {
      ghost var ids, identifiers := binder.ids, frame.Identifiers;
      var a, b := AskBoth(binder, frame, requests[n]);
      RanOneMore(0, requests, n, BinderKey, BinderAsk, ids, fromBinder,
                 StorageOf(requests[n], |ids|, ObjectInBinder(requests[n])), binder.ids, a);
      RanOneMore(3, requests, n, FrameKey, FrameAsk, identifiers, fromFrame,
                 StorageOf(requests[n], |identifiers|, ObjectInFrame(requests[n])), frame.Identifiers, b);
      fromBinder, fromFrame := fromBinder + [a], fromFrame + [b];
    }
    if AllAccepted(requests) && Interned(requests) {
      forall i | 0 <= i < |requests|
        ensures StandsAlike(binder.ids, fromBinder[i], frame.Identifiers, fromFrame[i])
      {
        RanAlike(requests, binder.ids, fromBinder, frame.Identifiers, fromFrame, i);
      }
    }
  }
}
