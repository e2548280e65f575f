/** The server response as the routing core drives it: a trace of calls on Node's
    `ServerResponse`, replayed into the state a client would observe. */
module Response {
  import opened Options
  import opened Strings

  /** What can be sent as body: text, the router's JSON error object `{"error": ...}`,
      or a file (optionally an inclusive byte span of it) piped into the response. */
  datatype Chunk =
    | Data(text: string)
    | ErrorJson(error: string)
    | FileStream(path: string, span: Option<(int, int)>)

  /** One call on the response object. `PatchEnd`/`RestoreEnd` model replacing `res.end`
      by a no-op and putting the original back. */
  datatype Op =
    | SetStatus(code: int)
    | SetHeader(name: string, value: string)
    | Write(chunk: Chunk)
    | End(last: Option<Chunk>)
    | PatchEnd
    | RestoreEnd

  /** Observable response state. Header names are stored lower-cased, as Node does. */
  datatype Res = Res(
    status: int,
    headers: map<string, string>,
    body: seq<Chunk>,
    ended: bool,
    endPatched: bool)

  /** A response before anything was done to it: Node's default status is 200. */
  const Fresh := Res(200, map[], [], false, false)

  function Apply(r: Res, op: Op): Res
  {
    match op
    case SetStatus(code) => r.(status := code)
    case SetHeader(name, value) => r.(headers := r.headers[Lower(name) := value])
    case Write(c) => if r.ended then r else r.(body := r.body + [c])
    case End(last) =>
      if r.endPatched || r.ended then r
      else r.(body := r.body + (if last.Some? then [last.value] else []), ended := true)
    case PatchEnd => r.(endPatched := true)
    case RestoreEnd => r.(endPatched := false)
  }

  /** The state after performing `ops` in order, starting from `r`. */
  function Replay(r: Res, ops: seq<Op>): Res
    decreases |ops|
  {
    if |ops| == 0 then r else Replay(Apply(r, ops[0]), ops[1..])
  }

  /** Replaying a concatenation is replaying the parts one after the other. */
  lemma {:induction false} ReplayAppend(r: Res, a: seq<Op>, b: seq<Op>)
    ensures Replay(r, a + b) == Replay(Replay(r, a), b)
    decreases |a|
  {
    if |a| == 0 {
      assert a + b == b;
    } else {
      assert (a + b)[1..] == a[1..] + b;
      ReplayAppend(Apply(r, a[0]), a[1..], b);
    }
  }
  /** No call in `ops` replaces or restores `res.end`. */
  predicate NoEndControl(ops: seq<Op>)
  {
    forall i :: 0 <= i < |ops| ==> !ops[i].PatchEnd? && !ops[i].RestoreEnd?
  }

  /** The chunks passed to `res.write` in `ops`, in order. */
  function Writes(ops: seq<Op>): (w: seq<Chunk>)
    ensures |w| <= |ops|
    decreases |ops|
  {
    if |ops| == 0 then []
    else (if ops[0].Write? then [ops[0].chunk] else []) + Writes(ops[1..])
  }

  /** Status and headers do not depend on whether the response was finished or `end` replaced:
      two states that agree on them still agree after the same calls. */
  lemma {:induction false} ReplayIgnoresEnd(r1: Res, r2: Res, ops: seq<Op>)
    requires r1.status == r2.status && r1.headers == r2.headers
    ensures Replay(r1, ops).status == Replay(r2, ops).status
    ensures Replay(r1, ops).headers == Replay(r2, ops).headers
    decreases |ops|
  {
    if |ops| > 0 {
      ReplayIgnoresEnd(Apply(r1, ops[0]), Apply(r2, ops[0]), ops[1..]);
    }
  }

  /** One call while `end` is replaced: it cannot finish the response, and appends its chunk
      when it is a write to an unfinished response. */
  lemma PatchedStep(r: Res, op: Op)
    requires r.endPatched && !op.PatchEnd? && !op.RestoreEnd?
    ensures var r1 := Apply(r, op);
      r1.endPatched && r1.ended == r.ended
      && r1.body == r.body + (if r.ended || !op.Write? then [] else [op.chunk])
  {
  }

  /** Dropping the first call keeps the calls free of `end` control. */
  lemma NoEndControlTail(ops: seq<Op>)
    requires |ops| > 0 && NoEndControl(ops)
    ensures !ops[0].PatchEnd? && !ops[0].RestoreEnd? && NoEndControl(ops[1..])
  {
    forall i | 0 <= i < |ops| - 1
      ensures !ops[1..][i].PatchEnd? && !ops[1..][i].RestoreEnd?
    {
      assert ops[1..][i] == ops[i + 1];
    }
  }

  /** While `res.end` is replaced by a no-op, no call finishes the response: the body grows by
      exactly the written chunks (by nothing once finished), and `end` stays replaced. */
  lemma {:induction false} PatchedReplay(r: Res, ops: seq<Op>)
    requires r.endPatched && NoEndControl(ops)
    ensures var out := Replay(r, ops);
      out.endPatched && out.ended == r.ended
      && out.body == r.body + (if r.ended then [] else Writes(ops))
    decreases |ops|
  {
    if |ops| > 0 {
      NoEndControlTail(ops);
      var r1 := Apply(r, ops[0]);
      PatchedStep(r, ops[0]);
      PatchedReplay(r1, ops[1..]);
      var w := if ops[0].Write? then [ops[0].chunk] else [];
      assert Writes(ops) == w + Writes(ops[1..]);
      if !r.ended {
        assert r.body + Writes(ops) == (r.body + w) + Writes(ops[1..]);
      }
    }
  }
}
