/** What a graph of basic blocks means: a labelled transition system. */
module Runs {
  import opened Options
  import opened ControlFlow

  /** Control stands before a statement of a block, or at the block's end. */
  datatype State<B> = At(block: B, pc: nat)

  datatype Label<S> = Exec(stmt: S) | Choose(index: nat) | Goto

  /** A statement is executed; a block with one successor goes on silently; any other block
      chooses one of its successors by position (0 is "else", 1 is "then", a switch has more).
      A block without successors is where a run halts. */
  function Step<B(==), S(==)>(g: Graph<B, S>, s: State<B>, l: Label<S>): Option<State<B>> {
    if s.block !in g then None
    else
      var n := g[s.block];
      if s.pc < |n.stmts| then
        if l == Exec(n.stmts[s.pc]) then Some(At(s.block, s.pc + 1)) else None
      else if |n.succ| == 1 then
        if l.Goto? then Some(At(n.succ[0], 0)) else None
      else
        if l.Choose? && l.index < |n.succ| then Some(At(n.succ[l.index], 0)) else None
  }

  function Run<B(==), S(==)>(g: Graph<B, S>, s: State<B>, ls: seq<Label<S>>): Option<State<B>>
    decreases ls
  {
    if ls == [] then Some(s)
    else
      match Step(g, s, ls[0])
      case None => None
      case Some(m) => Run(g, m, ls[1..])
  }

  /** The executed statements and the choices of a run; the silent steps are dropped. */
  function Visible<S>(ls: seq<Label<S>>): seq<Label<S>> {
    if ls == [] then []
    else if ls[0].Goto? then Visible(ls[1..])
    else [ls[0]] + Visible(ls[1..])
  }

  predicate Halted<B(==), S>(g: Graph<B, S>, s: State<B>) {
    s.block in g && s.pc >= |g[s.block].stmts| && g[s.block].succ == []
  }

  /** Some run from s shows t. */
  ghost predicate Shows<B, S(!new)>(g: Graph<B, S>, s: State<B>, t: seq<Label<S>>) {
    exists ls: seq<Label<S>> :: Run(g, s, ls).Some? && Visible(ls) == t
  }

  /** Some run from s shows t and halts there. */
  ghost predicate HaltsWith<B, S(!new)>(g: Graph<B, S>, s: State<B>, t: seq<Label<S>>) {
    exists ls: seq<Label<S>> ::
      Run(g, s, ls).Some? && Halted(g, Run(g, s, ls).value) && Visible(ls) == t
  }

  /** Same statements and choices, in the same order, and the same ways to halt. A state and
      a label determine the next state, so agreement on all finite runs is agreement on
      the infinite ones. */
  ghost predicate SameRuns<B, S(!new)>(g: Graph<B, S>, s: State<B>, h: Graph<B, S>, t: State<B>) {
    forall v: seq<Label<S>> ::
      && (Shows(g, s, v) <==> Shows(h, t, v))
      && (HaltsWith(g, s, v) <==> HaltsWith(h, t, v))
  }

  /** What a run shows determines it, up to silent steps at its end: of two runs from one
      state that show the same, one extends the other. */
  lemma {:induction false} VisibleDeterminesRun<B, S>(g: Graph<B, S>, s: State<B>, ls: seq<Label<S>>, ks: seq<Label<S>>)
    requires Run(g, s, ls).Some? && Run(g, s, ks).Some? && Visible(ls) == Visible(ks)
    ensures ls <= ks || ks <= ls
    decreases ls
  {
    if ls != [] && ks != [] {
      assert ls[0].Goto? <==> ks[0].Goto?;
      assert !ls[0].Goto? ==> Visible(ls)[0] == ls[0] && Visible(ks)[0] == ks[0]
                              && Visible(ls)[1..] == Visible(ls[1..]) && Visible(ks)[1..] == Visible(ks[1..]);
      VisibleDeterminesRun(g, Step(g, s, ls[0]).value, ls[1..], ks[1..]);
      assert ls == [ls[0]] + ls[1..] && ks == [ks[0]] + ks[1..];
    }
  }

  // ---------- the two transformations ----------

  /** Merge is Block.Coalesce; Bypass is Block.ReplaceJumpsTo. */
  datatype Surgery<B> = Merge(block: B, next: B) | Bypass(block: B, next: B)

  /** What the callers in ControlFlowGraphCleaner check first: `block` goes only to `next`,
      and either `next` is entered only from `block`, or `block` is empty. */
  ghost predicate Applicable<B, S>(g: Graph<B, S>, k: Surgery<B>) {
    && Closed(g) && Consistent(g)
    && k.block in g && k.next in g && k.block != k.next
    && g[k.block].succ == [k.next]
    && (k.Merge? ==> g[k.next].pred == [k.block])
    && (k.Bypass? ==> g[k.block].stmts == [])
  }

  function After<B(==), S>(g: Graph<B, S>, k: Surgery<B>): Graph<B, S>
    requires k.block in g && k.next in g
  {
    match k
    case Merge(block, next) => Coalesce(g, block, next)
    case Bypass(block, next) => ReplaceJumpsTo(g, block, next)
  }

  /** Where control stands after the surgery. */
  function Image<B(==), S>(g: Graph<B, S>, k: Surgery<B>, s: State<B>): State<B>
    requires k.block in g
  {
    match k
    case Merge(block, next) => if s.block == next then At(block, |g[block].stmts| + s.pc) else s
    case Bypass(block, next) => if s.block == block then At(next, 0) else s
  }

  /** At the end of `block`, the surgery has removed the step to `next`. */
  ghost predicate Skipped<B, S>(g: Graph<B, S>, k: Surgery<B>, s: State<B>)
    requires k.block in g
  {
    s == At(k.block, |g[k.block].stmts|)
  }

  ghost predicate Within<B, S>(g: Graph<B, S>, s: State<B>) {
    s.block in g && s.pc <= |g[s.block].stmts|
  }

  ghost function ImageOf<B, S>(g: Graph<B, S>, k: Surgery<B>, s: Option<State<B>>): Option<State<B>>
    requires k.block in g
  {
    match s case None => None case Some(m) => Some(Image(g, k, m))
  }

  /** Only `block` leads to `next` (Merge), and Bypass retargets every jump to `block`. */
  lemma NodeAfter<B, S>(g: Graph<B, S>, k: Surgery<B>, a: B)
    requires Applicable(g, k) && a in g && (a == k.block ==> k.Merge?)
    ensures a in After(g, k)
    ensures k.Merge? && a == k.block ==>
            && After(g, k)[a].stmts == g[a].stmts + g[k.next].stmts
            && After(g, k)[a].succ == g[k.next].succ
    ensures k.Merge? && a != k.block ==> k.next !in g[a].succ
    ensures k.Merge? && a != k.block && a != k.next ==>
            After(g, k)[a].stmts == g[a].stmts && After(g, k)[a].succ == g[a].succ
    ensures k.Bypass? ==>
            && After(g, k)[a].stmts == g[a].stmts
            && After(g, k)[a].succ == Subst(g[a].succ, k.block, k.next)
  {
    assert EdgeAgrees(g, a, k.next) && EdgeAgrees(g, a, k.block);
    if k.Merge? {
      assert a != k.block ==> Count(g[a].succ, k.next) == 0;
    } else if a !in g[k.block].pred {
      assert Count(g[a].succ, k.block) == 0;
      SubstAbsent(g[a].succ, k.block, k.next);
    }
  }

  lemma MergeStep<B, S>(g: Graph<B, S>, k: Surgery<B>, s: State<B>, l: Label<S>)
    requires k.Merge? && Applicable(g, k) && Within(g, s) && !Skipped(g, k, s)
    ensures Step(After(g, k), Image(g, k, s), l) == ImageOf(g, k, Step(g, s, l))
  {
    NodeAfter(g, k, s.block);
    NodeAfter(g, k, k.block);
  }

  lemma BypassStep<B, S>(g: Graph<B, S>, k: Surgery<B>, s: State<B>, l: Label<S>)
    requires k.Bypass? && Applicable(g, k) && Within(g, s) && !Skipped(g, k, s)
    ensures Step(After(g, k), Image(g, k, s), l) == ImageOf(g, k, Step(g, s, l))
  {
    NodeAfter(g, k, s.block);
  }

  /** Every other step has the same effect before and after. */
  lemma StepImage<B, S>(g: Graph<B, S>, k: Surgery<B>, s: State<B>, l: Label<S>)
    requires Applicable(g, k) && Within(g, s) && !Skipped(g, k, s)
    ensures Step(After(g, k), Image(g, k, s), l) == ImageOf(g, k, Step(g, s, l))
    ensures Step(g, s, l).Some? ==> Within(g, Step(g, s, l).value)
  {
    if k.Merge? {
      MergeStep(g, k, s, l);
    } else {
      BypassStep(g, k, s, l);
    }
  }

  lemma SkippedImage<B, S>(g: Graph<B, S>, k: Surgery<B>, s: State<B>)
    requires Applicable(g, k) && Skipped(g, k, s)
    ensures Step(g, s, Goto) == Some(At(k.next, 0))
    ensures Image(g, k, s) == Image(g, k, At(k.next, 0))
    ensures forall l :: Step(g, s, l).Some? ==> l == Goto
  {
  }

  // ---------- runs correspond ----------

  /** Every run has an image: the same run without the removed steps. */
  lemma {:induction false} Forward<B, S>(g: Graph<B, S>, k: Surgery<B>, s: State<B>, ls: seq<Label<S>>)
    returns (ls': seq<Label<S>>)
    requires Applicable(g, k) && Within(g, s) && Run(g, s, ls).Some?
    ensures Within(g, Run(g, s, ls).value)
    ensures Run(After(g, k), Image(g, k, s), ls') == Some(Image(g, k, Run(g, s, ls).value))
    ensures Visible(ls') == Visible(ls)
    decreases ls
  {
    if ls == [] {
      ls' := [];
    } else {
      var m := Step(g, s, ls[0]).value;
      if Skipped(g, k, s) {
        SkippedImage(g, k, s);
        ls' := Forward(g, k, m, ls[1..]);
      } else {
        StepImage(g, k, s, ls[0]);
        var rest := Forward(g, k, m, ls[1..]);
        ls' := [ls[0]] + rest;
        assert ls'[1..] == rest;
      }
    }
  }

  /** Every run after the surgery comes from one before it, with the removed steps put back;
      it can be chosen so that it does not stop at a removed step. */
  lemma {:induction false} Backward<B, S>(g: Graph<B, S>, k: Surgery<B>, s: State<B>, ls': seq<Label<S>>)
    returns (ls: seq<Label<S>>)
    requires Applicable(g, k) && Within(g, s) && Run(After(g, k), Image(g, k, s), ls').Some?
    ensures Run(g, s, ls).Some?
    ensures var e := Run(g, s, ls).value;
            Within(g, e) && !Skipped(g, k, e) && Run(After(g, k), Image(g, k, s), ls') == Some(Image(g, k, e))
    ensures Visible(ls) == Visible(ls')
    decreases ls', if Skipped(g, k, s) then 1 else 0
  {
    if Skipped(g, k, s) {
      SkippedImage(g, k, s);
      var rest := Backward(g, k, At(k.next, 0), ls');
      ls := [Goto] + rest;
      assert ls[1..] == rest;
    } else if ls' == [] {
      ls := [];
    } else {
      StepImage(g, k, s, ls'[0]);
      var rest := Backward(g, k, Step(g, s, ls'[0]).value, ls'[1..]);
      ls := [ls'[0]] + rest;
      assert ls[1..] == rest;
    }
  }

  lemma ShowsImage<B, S(!new)>(g: Graph<B, S>, k: Surgery<B>, s: State<B>, v: seq<Label<S>>)
    requires Applicable(g, k) && Within(g, s)
    ensures Shows(g, s, v) <==> Shows(After(g, k), Image(g, k, s), v)
  {
    if Shows(g, s, v) {
      var ls: seq<Label<S>> :| Run(g, s, ls).Some? && Visible(ls) == v;
      var ls' := Forward(g, k, s, ls);
    }
    if Shows(After(g, k), Image(g, k, s), v) {
      var ls': seq<Label<S>> :| Run(After(g, k), Image(g, k, s), ls').Some? && Visible(ls') == v;
      var ls := Backward(g, k, s, ls');
    }
  }

  lemma HaltsWithImage<B, S(!new)>(g: Graph<B, S>, k: Surgery<B>, s: State<B>, v: seq<Label<S>>)
    requires Applicable(g, k) && Within(g, s)
    ensures HaltsWith(g, s, v) <==> HaltsWith(After(g, k), Image(g, k, s), v)
  {
    if HaltsWith(g, s, v) {
      var ls: seq<Label<S>> :| Run(g, s, ls).Some? && Halted(g, Run(g, s, ls).value) && Visible(ls) == v;
      var ls' := Forward(g, k, s, ls);
    }
    if HaltsWith(After(g, k), Image(g, k, s), v) {
      var ls': seq<Label<S>> :|
        && Run(After(g, k), Image(g, k, s), ls').Some?
        && Halted(After(g, k), Run(After(g, k), Image(g, k, s), ls').value)
        && Visible(ls') == v;
      var ls := Backward(g, k, s, ls');
    }
  }

  /** Coalescing two blocks keeps the runs from every block but the absorbed one. */
  lemma CoalescePreservesRuns<B, S(!new)>(g: Graph<B, S>, block: B, next: B, start: B)
    requires Closed(g) && Consistent(g)
    requires block in g && next in g && block != next
    requires g[block].succ == [next] && g[next].pred == [block]
    requires start in g && start != next
    ensures SameRuns(g, At(start, 0), Coalesce(g, block, next), At(start, 0))
  {
    var k := Merge(block, next);
    forall v: seq<Label<S>>
      ensures Shows(g, At(start, 0), v) <==> Shows(Coalesce(g, block, next), At(start, 0), v)
      ensures HaltsWith(g, At(start, 0), v) <==> HaltsWith(Coalesce(g, block, next), At(start, 0), v)
    {
      ShowsImage(g, k, At(start, 0), v);
      HaltsWithImage(g, k, At(start, 0), v);
    }
  }

  /** Bypassing an empty block that goes only to `next` keeps the runs from every other
      block; a run that started in the empty block starts in `next` instead. */
  lemma ReplaceJumpsToPreservesRuns<B, S(!new)>(g: Graph<B, S>, block: B, next: B, start: B)
    requires Closed(g) && Consistent(g)
    requires block in g && next in g && block != next
    requires g[block].succ == [next] && g[block].stmts == []
    requires start in g
    ensures SameRuns(g, At(start, 0), ReplaceJumpsTo(g, block, next), At(if start == block then next else start, 0))
  {
    var k := Bypass(block, next);
    var t := At(if start == block then next else start, 0);
    forall v: seq<Label<S>>
      ensures Shows(g, At(start, 0), v) <==> Shows(ReplaceJumpsTo(g, block, next), t, v)
      ensures HaltsWith(g, At(start, 0), v) <==> HaltsWith(ReplaceJumpsTo(g, block, next), t, v)
    {
      ShowsImage(g, k, At(start, 0), v);
      HaltsWithImage(g, k, At(start, 0), v);
    }
  }
}
