/** Running pipes (pre-handler filters) and a handler over one request context. */
module Compose {
  import opened Options
  import opened HttpErrors
  import opened Response

  /** The result of running some code on a context: the context afterwards, the response
      calls it made, and what it threw, if anything. */
  datatype Run<C> = Run(ctx: C, ops: seq<Op>, thrown: Option<Thrown>)

  /** A pipe or a handler: `(ctx) => void | Promise<void>`. */
  type Step<!C> = C -> Run<C>

  /** Run `s` after `r` unless `r` already threw; the response calls accumulate. */
  function Then<C>(r: Run<C>, s: Step<C>): (out: Run<C>)
    ensures r.thrown.Some? ==> out == r
    ensures r.thrown.None? ==>
      out == Run(s(r.ctx).ctx, r.ops + s(r.ctx).ops, s(r.ctx).thrown)
  {
    if r.thrown.Some? then r
    else
      var n := s(r.ctx);
      Run(n.ctx, r.ops + n.ops, n.thrown)
  }

  /** `for (const pipe of pipes) await pipe(ctx)`: stops at the first pipe that throws. */
  function RunPipes<C>(pipes: seq<Step<C>>, c: C): Run<C>
    decreases |pipes|
  {
    if |pipes| == 0 then Run(c, [], None)
    else Then(RunPipes(pipes[..|pipes| - 1], c), pipes[|pipes| - 1])
  }

  /** `compose(pipes, handler)`: with no pipes the handler itself, otherwise a handler that runs
      every pipe in order on the same context and then the handler. */
  function Compose<C>(pipes: Option<seq<Step<C>>>, handler: Step<C>): (composed: Step<C>)
    ensures pipes.None? || pipes.value == [] ==> composed == handler
  {
    if pipes.None? || |pipes.value| == 0 then handler
    else c => Then(RunPipes(pipes.value, c), handler)
  }

  /** Running `a + b` is running `a` then, unless it threw, `b` on the resulting context. */
  lemma {:induction false} RunPipesAppend<C>(a: seq<Step<C>>, b: seq<Step<C>>, c: C)
    ensures RunPipes(a + b, c) ==
      (var ra := RunPipes(a, c);
       if ra.thrown.Some? then ra
       else var rb := RunPipes(b, ra.ctx); Run(rb.ctx, ra.ops + rb.ops, rb.thrown))
    decreases |b|
  {
    var ra := RunPipes(a, c);
    if |b| == 0 {
      assert a + b == a;
      if ra.thrown.None? {
        assert ra.ops + [] == ra.ops;
      }
    } else {
      var n := |b|;
      var ab := a + b;
      assert ab[..|ab| - 1] == a + b[..n - 1] && ab[|ab| - 1] == b[n - 1];
      RunPipesAppend(a, b[..n - 1], c);
      assert RunPipes(ab, c) == Then(RunPipes(a + b[..n - 1], c), b[n - 1]);
      if ra.thrown.None? {
        var rb := RunPipes(b[..n - 1], ra.ctx);
        assert RunPipes(b, ra.ctx) == Then(rb, b[n - 1]);
        if rb.thrown.None? {
          var last := b[n - 1](rb.ctx);
          assert ra.ops + rb.ops + last.ops == ra.ops + (rb.ops + last.ops);
        }
      }
    }
  }

  /** Pipes run in order and then the handler, all on the context threaded through them,
      if and only if every pipe succeeded; otherwise the handler is never consulted. */
  lemma HandlerRunsIffPipesSucceed<C>(pipes: seq<Step<C>>, handler: Step<C>, c: C)
    ensures var rp := RunPipes(pipes, c);
      rp.thrown.None? ==>
        Compose(Some(pipes), handler)(c) ==
          Run(handler(rp.ctx).ctx, rp.ops + handler(rp.ctx).ops, handler(rp.ctx).thrown)
    ensures RunPipes(pipes, c).thrown.Some? ==>
      forall other: Step<C> :: Compose(Some(pipes), handler)(c) == Compose(Some(pipes), other)(c)
  {
    var rp := RunPipes(pipes, c);
    if |pipes| == 0 {
      assert rp == Run(c, [], None);
      assert [] + handler(c).ops == handler(c).ops;
    }
    if rp.thrown.Some? {
      assert |pipes| > 0;
    }
  }

  /** The first failing pipe `k` stops execution: the composed handler's run is the run of
      `pipes[..k+1]` alone, whatever the later pipes and the handler are, and its error
      propagates. */
  lemma FirstFailureStops<C>(pipes: seq<Step<C>>, handler: Step<C>, c: C, k: nat)
    requires k < |pipes|
    requires RunPipes(pipes[..k], c).thrown.None?
    requires pipes[k](RunPipes(pipes[..k], c).ctx).thrown.Some?
    ensures var before := RunPipes(pipes[..k], c);
            var failed := pipes[k](before.ctx);
      Compose(Some(pipes), handler)(c) == Run(failed.ctx, before.ops + failed.ops, failed.thrown)
  {
    var before := RunPipes(pipes[..k], c);
    assert pipes == pipes[..k] + ([pipes[k]] + pipes[k + 1..]);
    RunPipesAppend(pipes[..k], [pipes[k]] + pipes[k + 1..], c);
    RunPipesAppend([pipes[k]], pipes[k + 1..], before.ctx);
    assert [pipes[k]][..0] == [];
    var failed := pipes[k](before.ctx);
    assert RunPipes([pipes[k]], before.ctx) == Run(failed.ctx, [] + failed.ops, failed.thrown);
    assert [] + failed.ops == failed.ops;
  }
}
