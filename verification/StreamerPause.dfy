/** Pausing and resuming: what a paused stream does not do, and how it goes on. */
module StreamerPause {
  import opened Wrappers
  import opened ByteStrings
  import opened RtpSenders
  import opened StreamerRuns
  import opened Streamers

  /** No resume, and no turn that a pause overtook between its test and its work. */
  ghost predicate Quiet(ops: seq<Op>) {
    forall k :: 0 <= k < |ops| ==> ops[k] != Resume && !(ops[k].Tick? && ops[k].late)
  }

  predicate Flushes(ops: seq<Op>) {
    ops != [] && (ops[0].FlushReset? || Flushes(ops[1..]))
  }

  function FlushIf(flushed: bool): seq<Op> {
    if flushed then [FlushReset] else []
  }

  /** What a paused streamer is left as: untouched, but for the flushes. */
  ghost predicate Stands(c: Config, s: Streamer, flushed: bool, t: Streamer)
    requires c.Valid()
  {
    t == if flushed then Step(c, s, FlushReset) else s
  }

  lemma FlushTwice(c: Config, s: Streamer)
    requires c.Valid()
    ensures Step(c, Step(c, s, FlushReset), FlushReset) == Step(c, s, FlushReset)
  {
    assert ResetSenders(ResetSenders(s.senders)) == ResetSenders(s.senders);
  }

  /** While paused nothing is decoded, coded or sent, whatever arrives. */
  lemma {:induction false} NothingWhilePaused(c: Config, s: Streamer, ops: seq<Op>)
    requires c.Valid() && s.status == Paused && Quiet(ops)
    ensures Stands(c, s, Flushes(ops), Run(c, s, ops))
    decreases |ops|
  {
    if ops != [] {
      var op, rest := ops[0], ops[1..];
      assert op != Resume && !(op.Tick? && op.late);
      assert forall k :: 0 <= k < |rest| ==> rest[k] == ops[k + 1];
      NothingWhilePaused(c, Step(c, s, op), rest);
      FlushTwice(c, s);
    }
  }

  lemma ResumeRestores(c: Config, s: Streamer, flushed: bool, t: Streamer)
    requires c.Valid() && s.status == Streaming && Stands(c, Step(c, s, Pause), flushed, t)
    ensures t.sent == s.sent && Stands(c, s, flushed, Step(c, t, Resume))
  {
    assert s.(status := Paused).(status := Streaming) == s;
  }

  lemma RunFlush(c: Config, s: Streamer, flushed: bool, t: Streamer, more: seq<Op>)
    requires c.Valid() && Stands(c, s, flushed, t)
    ensures Run(c, s, FlushIf(flushed) + more) == Run(c, t, more)
  {
    if flushed {
      RunConcat(c, s, [FlushReset], more);
      RunOne(c, s, FlushReset);
    } else {
      assert [] + more == more;
    }
  }

  /**
   * A stream that plays, pauses, stays paused through any calls and turns and resumes has sent nothing in between
   * and goes on as if it had never paused, apart from the flushes that came meanwhile.
   */
  lemma PauseIsTransparent(c: Config, s: Streamer, quiet: seq<Op>, more: seq<Op>)
    requires c.Valid() && s.status == Streaming && Quiet(quiet)
    ensures Run(c, s, [Pause] + quiet).sent == s.sent
    ensures Run(c, s, [Pause] + quiet + [Resume] + more) == Run(c, s, FlushIf(Flushes(quiet)) + more)
  {
    var paused := Step(c, s, Pause);
    var held := Run(c, paused, quiet);
    NothingWhilePaused(c, paused, quiet);
    ResumeRestores(c, s, Flushes(quiet), held);
    RunOne(c, s, Pause);
    RunConcat(c, s, [Pause], quiet);
    RunOne(c, held, Resume);
    RunConcat(c, s, [Pause] + quiet, [Resume]);
    RunConcat(c, s, [Pause] + quiet + [Resume], more);
    RunFlush(c, s, Flushes(quiet), Step(c, held, Resume), more);
  }
}
