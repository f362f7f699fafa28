/** Which requests the two binders answer with one identifier, in terms of the storages. */
module BinderAnswers {
  import opened Binders
  import opened FirstUses
  import opened StorageShapes
  import Storages

  ghost predicate BinderSame(a: Request, b: Request) {
    match (a, b)
    case (ForRegister(r), ForRegister(q)) => SameRegister(r, q)
    case (ForFlagGroup(r, m), ForFlagGroup(q, n)) => SameRegister(r, q) && m == n
    case (ForSequence(x), ForSequence(y)) => SameElements(x, y)
    case (ForFpuStackVariable(d), ForFpuStackVariable(e)) => d == e
    case _ => false
  }

  ghost predicate FrameSame(a: Request, b: Request) {
    match (a, b)
    case (ForRegister(r), ForRegister(q)) => r == q
    case (ForFlagGroup(r, m), ForFlagGroup(q, n)) => r == q && m == n
    case (ForSequence(x), ForSequence(y)) => SameElements(x, y)
    case (ForFpuStackVariable(d), ForFpuStackVariable(e)) => d == e
    case _ => false
  }

  lemma AsksAgree(a: Request, b: Request)
    requires Accepted(a) && Accepted(b)
    ensures BinderAsk(a).Shared? && BinderAsk(a) == BinderAsk(b) <==> BinderSame(a, b)
    ensures FrameAsk(a).Shared? && FrameAsk(a) == FrameAsk(b) <==> FrameSame(a, b)
  {
    if a.ForSequence? && b.ForSequence? {
      SameElementsIff(a.elements, b.elements);
    }
  }

  /** In a run of requests that neither binder refuses, two of them are answered by one identifier
      exactly if they are for one storage: the dictionaries go by the bits of registers, the frame
      by their objects, and temporaries are never shared. */
  lemma SameIdentifierIff(requests: seq<Request>, i: nat, j: nat)
    requires AllAccepted(requests) && i < j < |requests|
    ensures Answer(0, Asks(requests, BinderAsk), i) == Answer(0, Asks(requests, BinderAsk), j) <==>
            BinderSame(requests[i], requests[j])
    ensures Answer(3, Asks(requests, FrameAsk), i) == Answer(3, Asks(requests, FrameAsk), j) <==>
            FrameSame(requests[i], requests[j])
  {
    AsksAgree(requests[i], requests[j]);
    AnswersEqualIff(0, Asks(requests, BinderAsk), i, j);
    AnswersEqualIff(3, Asks(requests, FrameAsk), i, j);
  }

  /** Registers within 64 bits count as equal exactly if each covers the other. */
  lemma EqualRegistersIff(a: Register, b: Register)
    requires Storages.InWord(RegisterShapeOf(a)) && Storages.InWord(RegisterShapeOf(b))
    ensures Same(RegisterStorage(a), RegisterStorage(b)) <==>
            Storages.Covers(RegisterShapeOf(a), RegisterShapeOf(b)) &&
            Storages.Covers(RegisterShapeOf(b), RegisterShapeOf(a))
  {
    Storages.CoversIff(RegisterShapeOf(a), RegisterShapeOf(b));
    Storages.CoversIff(RegisterShapeOf(b), RegisterShapeOf(a));
  }
}
