/** Basic blocks on the heap: the class of src/Core/Block.cs and its graph surgery, proved
    against the graph functions of module ControlFlow. */
module Blocks {
  import opened ControlFlow

  datatype Statement = Statement(address: nat, instruction: string)

  /** The blocks of a procedure as a graph value. */
  ghost function Snapshot(blocks: set<Block>): (g: Graph<Block, Statement>)
    reads blocks
    ensures g.Keys == blocks
  {
    map b | b in blocks :: Node(b.Pred, b.Succ, b.Statements)
  }

  /** The inner index loops: every `from` in the list becomes `to`. */
  method ReplaceAll<B(==)>(list: seq<B>, from: B, to: B) returns (r: seq<B>, change: bool)
    ensures r == Subst(list, from, to)
    ensures change <==> from in list
  {
    r, change := list, false;
    for i := 0 to |r|
      invariant |r| == |list|
      invariant forall j | 0 <= j < |r| :: r[j] == if j < i && list[j] == from then to else list[j]
      invariant change <==> from in list[..i]
    {
      if r[i] == from {
        r := r[i := to];
        change := true;
      }
    }
  }

  /** The inner loop over next.Pred: only the first `from` becomes `to`. */
  method ReplaceOne<B(==)>(list: seq<B>, from: B, to: B) returns (r: seq<B>, change: bool)
    ensures r == SubstFirst(list, from, to)
    ensures change <==> from in list
  {
    r, change := list, false;
    var i := 0;
    while i < |r|
      invariant 0 <= i <= |list| && r == list
      invariant from !in list[..i]
      invariant !change
      invariant SubstFirst(list, from, to) == list[..i] + SubstFirst(list[i..], from, to)
    {
      if r[i] == from {
        r := r[i := to];
        change := true;
        return;
      }
      i := i + 1;
    }
  }

  /** Some block of the set has `block` as predecessor. */
  ghost predicate Enters<B, S>(g: Graph<B, S>, block: B, from: set<B>) {
    exists s | s in from :: s in g && block in g[s].pred
  }

  /** Some block of the set has `block` as successor. */
  ghost predicate Leads<B, S>(g: Graph<B, S>, block: B, from: set<B>) {
    exists p | p in from :: p in g && block in g[p].succ
  }

  /** Visiting a block a second time finds nothing that the first visit did not. */
  lemma EntersStep<B, S>(g: Graph<B, S>, block: B, next: B, done: set<B>, s: B, found: bool)
    requires s in g
    requires found <==> block in (if s in done then Subst(g[s].pred, block, next) else g[s].pred)
    ensures Enters(g, block, done + {s}) <==> (Enters(g, block, done) || found)
  {
    if s in done && block != next {
      assert block !in Subst(g[s].pred, block, next);
    }
  }

  lemma LeadsStep<B, S>(g: Graph<B, S>, block: B, next: B, done: set<B>, p: B, found: bool)
    requires p in g
    requires found <==> block in (if p in done then Subst(g[p].succ, block, next) else g[p].succ)
    ensures Leads(g, block, done + {p}) <==> (Leads(g, block, done) || found)
  {
    if p in done && block != next {
      assert block !in Subst(g[p].succ, block, next);
    }
  }

  /** The elements of a list. */
  ghost function Elements<B>(list: seq<B>): set<B> {
    set b | b in list
  }

  lemma ElementsSnoc<B>(list: seq<B>, k: nat)
    requires k < |list|
    ensures Elements(list[..k + 1]) == Elements(list[..k]) + {list[k]}
  {
    assert list[..k + 1] == list[..k] + [list[k]];
  }

  lemma RedirectNext<B>(s: seq<B>, from: B, tos: seq<B>, k: nat)
    requires k < |tos|
    ensures Redirect(s, from, tos[..k + 1]) == SubstFirst(Redirect(s, from, tos[..k]), from, tos[k])
  {
    assert tos[..k + 1] == tos[..k] + [tos[k]];
    RedirectSnoc(s, from, tos[..k], tos[k]);
  }

  /** What has changed after the k-th predecessor has been visited. */
  lemma ChangeStep<B, S>(g: Graph<B, S>, block: B, next: B, done: set<B>, preds: seq<B>, k: nat,
                         inSucc: bool, inPred: bool, change: bool)
    requires k < |preds| && preds[k] in g && next in g
    requires inSucc <==> block in (if preds[k] in done then Subst(g[preds[k]].succ, block, next) else g[preds[k]].succ)
    requires inPred <==> block in Redirect(g[next].pred, block, preds[..k])
    requires change <==> Leads(g, block, done) || (k > 0 && block in g[next].pred)
    ensures change || inSucc || inPred <==> Leads(g, block, done + {preds[k]}) || block in g[next].pred
  {
    LeadsStep(g, block, next, done, preds[k], inSucc);
    RedirectedHas(g[next].pred, block, preds[..k]);
  }

  /** The blocks that have been visited have their successors replaced. */
  ghost predicate SuccAfter(blocks: set<Block>, g: Graph<Block, Statement>, done: set<Block>, block: Block, next: Block)
    requires g.Keys == blocks
    reads blocks
  {
    forall b | b in blocks :: b.Succ == if b in done then Subst(g[b].succ, block, next) else g[b].succ
  }

  lemma RedirectedHas<B>(s: seq<B>, from: B, tos: seq<B>)
    ensures from !in s ==> from !in Redirect(s, from, tos)
    ensures tos == [] ==> Redirect(s, from, tos) == s
  {
    if from !in s {
      RedirectAbsent(s, from, tos);
    }
  }

  lemma SnapshotIs(blocks: set<Block>, g: Graph<Block, Statement>)
    requires g.Keys == blocks
    requires forall b | b in blocks :: b.Pred == g[b].pred
    requires forall b | b in blocks :: b.Succ == g[b].succ
    requires forall b | b in blocks :: b.Statements == g[b].stmts
    ensures Snapshot(blocks) == g
  {
    assert forall b | b in blocks :: Snapshot(blocks)[b] == g[b];
  }

  class Block {
    const Id: string
    var Pred: seq<Block>
    var Succ: seq<Block>
    var Statements: seq<Statement>

    constructor (id: string)
      requires id != ""
      ensures Id == id && Pred == [] && Succ == [] && Statements == []
    {
      Id := id;
      Pred, Succ, Statements := [], [], [];
    }

    static method ReplaceJumpsFrom(block: Block, next: Block, ghost blocks: set<Block>) returns (change: bool)
      requires block in blocks && next in blocks && Closed(Snapshot(blocks))
      modifies (set s | s in block.Succ)`Pred
      ensures Snapshot(blocks) == ControlFlow.ReplaceJumpsFrom(old(Snapshot(blocks)), block, next)
      ensures change <==> Enters(old(Snapshot(blocks)), block, Elements(old(block.Succ)))
    {
      change := false;
      var succ := block.Succ;
      ghost var g := Snapshot(blocks);
      ghost var done: set<Block> := {};
      for k := 0 to |succ|
        invariant done == Elements(succ[..k])
        invariant forall b | b in blocks :: b.Pred == if b in done then Subst(g[b].pred, block, next) else g[b].pred
        invariant change <==> Enters(g, block, done)
      {
        var s := succ[k];
        ElementsSnoc(succ, k);
        SubstTwice(g[s].pred, block, next);
        EntersStep(g, block, next, done, s, block in s.Pred);
        var c;
        s.Pred, c := ReplaceAll(s.Pred, block, next);
        change := change || c;
        done := done + {s};
      }
      assert succ[..|succ|] == succ;
    }

    /** Statements.Add, for each statement of the list. */
    method AddAll(stms: seq<Statement>)
      modifies this`Statements
      ensures Statements == old(Statements) + stms
    {
      for i := 0 to |stms|
        invariant Statements == old(Statements) + stms[..i]
      {
        Statements := Statements + [stms[i]];
      }
    }

    static method Coalesce(block: Block, next: Block, ghost blocks: set<Block>)
      requires block in blocks && next in blocks && Closed(Snapshot(blocks))
      modifies block, next, (set s | s in next.Succ)`Pred
      ensures Snapshot(blocks) == ControlFlow.Coalesce(old(Snapshot(blocks)), block, next)
      ensures next.Pred == [] && next.Succ == [] && next.Statements == []
      ensures block != next ==> block.Statements == old(block.Statements) + old(next.Statements)
      ensures forall b | b in blocks && b != block && b != next :: b.Statements == old(b.Statements)
    {
      ghost var g := Snapshot(blocks);
      block.AddAll(next.Statements);
      block.Succ := next.Succ;
      ghost var absorbed := g[block].(stmts := g[block].stmts + g[next].stmts, succ := g[next].succ);
      assert Snapshot(blocks) == g[block := absorbed];
      var _ := ReplaceJumpsFrom(next, block, blocks);
      ghost var h := Snapshot(blocks);
      next.Pred := [];
      next.Statements := [];
      next.Succ := [];
      SnapshotIs(blocks, h[next := Node([], [], [])]);
    }

    /** The body of ReplaceJumpsTo's loop over the predecessors. */
    static method RedirectJumps(p: Block, block: Block, next: Block) returns (change: bool)
      modifies p`Succ, next`Pred
      ensures p.Succ == Subst(old(p.Succ), block, next)
      ensures next.Pred == SubstFirst(old(next.Pred), block, p)
      ensures change <==> block in old(p.Succ) || block in old(next.Pred)
    {
      var inSucc, inPred;
      p.Succ, inSucc := ReplaceAll(p.Succ, block, next);
      next.Pred, inPred := ReplaceOne(next.Pred, block, p);
      change := inSucc || inPred;
    }

    /** One round of the loop over the predecessors; `done` are those of the earlier rounds. */
    static method RedirectNextJumps(p: Block, preds: seq<Block>, k: nat, block: Block, next: Block,
                                    ghost blocks: set<Block>, ghost g: Graph<Block, Statement>,
                                    ghost done: set<Block>, change: bool)
      returns (change': bool)
      requires k < |preds| && p == preds[k] && p in blocks && next in blocks && g.Keys == blocks
      requires SuccAfter(blocks, g, done, block, next)
      requires next.Pred == Redirect(g[next].pred, block, preds[..k])
      requires change <==> Leads(g, block, done) || (k > 0 && block in g[next].pred)
      modifies p`Succ, next`Pred
      ensures SuccAfter(blocks, g, done + {p}, block, next)
      ensures next.Pred == Redirect(g[next].pred, block, preds[..k + 1])
      ensures change' <==> Leads(g, block, done + {p}) || block in g[next].pred
    {
      SubstTwice(g[p].succ, block, next);
      RedirectNext(g[next].pred, block, preds, k);
      ChangeStep(g, block, next, done, preds, k, block in p.Succ, block in next.Pred, change);
      var c := RedirectJumps(p, block, next);
      change' := change || c;
    }

    /** ReplaceJumpsTo's loop over a copy of the predecessors. */
    static method RedirectAllJumps(preds: seq<Block>, block: Block, next: Block, ghost blocks: set<Block>)
      returns (change: bool)
      requires block in blocks && next in blocks && Elements(preds) <= blocks
      modifies (set p | p in preds)`Succ, next`Pred
      ensures forall b | b in blocks ::
                b.Succ == if b in preds then Subst(old(b.Succ), block, next) else old(b.Succ)
      ensures next.Pred == Redirect(old(next.Pred), block, preds)
      ensures change <==>
              || Leads(old(Snapshot(blocks)), block, Elements(preds))
              || (preds != [] && block in old(next.Pred))
    {
      change := false;
      ghost var g := Snapshot(blocks);
      ghost var done: set<Block> := {};
      for k := 0 to |preds|
        invariant done == Elements(preds[..k])
        invariant SuccAfter(blocks, g, done, block, next)
        invariant next.Pred == Redirect(g[next].pred, block, preds[..k])
        invariant change <==> Leads(g, block, done) || (k > 0 && block in g[next].pred)
      {
        ElementsSnoc(preds, k);
        change := RedirectNextJumps(preds[k], preds, k, block, next, blocks, g, done, change);
        done := done + {preds[k]};
      }
      assert preds[..|preds|] == preds;
    }

    static method ReplaceJumpsTo(block: Block, next: Block, ghost blocks: set<Block>) returns (change: bool)
      requires block in blocks && next in blocks && Closed(Snapshot(blocks))
      modifies (set p | p in block.Pred)`Succ, next`Pred, block`Pred
      ensures Snapshot(blocks) == ControlFlow.ReplaceJumpsTo(old(Snapshot(blocks)), block, next)
      ensures change <==>
              || Leads(old(Snapshot(blocks)), block, Elements(old(block.Pred)))
              || (old(block.Pred) != [] && block in old(next.Pred))
    {
      ghost var g := Snapshot(blocks);
      change := RedirectAllJumps(block.Pred, block, next, blocks);
      block.Pred := [];
      SnapshotIs(blocks, ControlFlow.ReplaceJumpsTo(g, block, next));
    }
  }
}
