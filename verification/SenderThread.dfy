/** The sender thread: bursts of packets released at deadlines, with pause, resume and catch-up. */
module SenderThreads {
  import opened Wrappers
  import opened ByteStrings
  import opened Sequences
  import ModArith

  datatype Packet = Packet(wires: seq<Bytes>, sync: Option<Bytes>)

  datatype Event =
    | Arrived(packet: Packet)
    | Pause
    | Resume
    | Stop
    | Timeout
    | Disconnected

  /** One receive, with the clock when it returns, when sending may begin, and after sending. */
  datatype Input = Input(event: Event, now: nat, woke: nat, done: nat)

  datatype Config = Config(burstSize: nat, frameDuration: nat, targets: nat) {
    function Size(): nat {
      if burstSize < 1 then 1 else burstSize
    }

    function BurstDuration(): nat {
      ModArith.MulNonNegative(frameDuration, Size());
      frameDuration * Size()
    }
  }

  /** When a burst was begun and when it was done, and how many resumes had been handled by then. */
  datatype Burst = Burst(at: nat, done: nat, resumes: nat)

  datatype Mode = Live | Held | Done

  /** The thread's variables, and the record of what it has sent and when. */
  datatype State = State(
    mode: Mode, buffer: seq<Packet>, started: bool, deadline: nat,
    flushed: seq<Packet>, bursts: seq<Burst>, resumes: nat, clock: nat)

  function Initial(t0: nat): State {
    State(Live, [], false, t0, [], [], 0, t0)
  }

  // ----- One step -----

  function NextDeadline(deadline: nat, burst: nat, done: nat): nat {
    if done > deadline + burst + burst then done else deadline + burst
  }

  function Flush(cfg: Config, s: State, buffer: seq<Packet>, input: Input): State {
    var deadline := if s.started then s.deadline else input.now;
    s.(buffer := [], started := true,
       deadline := NextDeadline(deadline, cfg.BurstDuration(), input.done),
       flushed := s.flushed + buffer,
       bursts := s.bursts + [Burst(input.woke, input.done, s.resumes)])
  }

  function Restarted(s: State, input: Input): State {
    s.(mode := Live, deadline := input.now, resumes := s.resumes + 1)
  }

  function React(cfg: Config, s: State, input: Input): State {
    if s.mode == Done then s
    else if s.mode == Held then
      if input.event == Resume then Restarted(s, input)
      else if input.event == Stop then s.(mode := Done)
      else s
    else
      match input.event
      case Timeout => s
      case Disconnected => s.(mode := Done)
      case Stop => s.(mode := Done)
      case Pause => s.(mode := Held)
      case Resume => Restarted(s, input)
      case Arrived(packet) =>
        var buffer := s.buffer + [packet];
        if |buffer| < cfg.Size() && s.started then s.(buffer := buffer)
        else Flush(cfg, s, buffer, input)
  }

  function Step(cfg: Config, s: State, input: Input): State {
    React(cfg, s, input).(clock := input.done)
  }

  function Run(cfg: Config, t0: nat, inputs: seq<Input>): State {
    if inputs == [] then Initial(t0)
    else Step(cfg, Run(cfg, t0, inputs[..|inputs| - 1]), inputs[|inputs| - 1])
  }

  // ----- Conservation -----

  /** Whether the thread is listening, paused or gone, from the inputs alone. */
  function ModeAfter(inputs: seq<Input>): Mode {
    if inputs == [] then Live
    else
      var before := ModeAfter(inputs[..|inputs| - 1]);
      var event := inputs[|inputs| - 1].event;
      if before == Done || event == Stop || (event == Disconnected && before == Live) then Done
      else if event == Pause then Held
      else if event == Resume then Live
      else before
  }

  /** The packets that arrived while the thread was listening. */
  function HeardPackets(inputs: seq<Input>): seq<Packet> {
    if inputs == [] then []
    else
      var before, last := inputs[..|inputs| - 1], inputs[|inputs| - 1].event;
      HeardPackets(before) + if ModeAfter(before) == Live && last.Arrived? then [last.packet] else []
  }

  /** Every packet that arrived, whatever the thread was doing. */
  function Arrivals(inputs: seq<Input>): seq<Packet> {
    if inputs == [] then []
    else
      var before, last := inputs[..|inputs| - 1], inputs[|inputs| - 1].event;
      Arrivals(before) + if last.Arrived? then [last.packet] else []
  }

  /** No packet arrives in a pause, or after the end. */
  ghost predicate AllFindItLive(inputs: seq<Input>) {
    forall i :: 0 <= i < |inputs| && inputs[i].event.Arrived? ==> ModeAfter(inputs[..i]) == Live
  }

  lemma AllFindItLiveSnoc(inputs: seq<Input>)
    requires inputs != []
    ensures
      var before, last := inputs[..|inputs| - 1], inputs[|inputs| - 1].event;
      AllFindItLive(inputs) <==> AllFindItLive(before) && (last.Arrived? ==> ModeAfter(before) == Live)
  {
    var before := inputs[..|inputs| - 1];
    assert forall i :: 0 <= i < |before| ==> before[..i] == inputs[..i] && before[i] == inputs[i];
  }

  /** All that arrives is heard exactly when none of it arrives in a pause or after the end. */
  lemma {:induction false} HeardIffLive(inputs: seq<Input>)
    ensures |HeardPackets(inputs)| <= |Arrivals(inputs)|
    ensures |HeardPackets(inputs)| == |Arrivals(inputs)| <==> AllFindItLive(inputs)
    ensures AllFindItLive(inputs) ==> HeardPackets(inputs) == Arrivals(inputs)
  {
    if inputs != [] {
      HeardIffLive(inputs[..|inputs| - 1]);
      AllFindItLiveSnoc(inputs);
    }
  }

  lemma {:induction false} ModesAgree(cfg: Config, t0: nat, inputs: seq<Input>)
    ensures Run(cfg, t0, inputs).mode == ModeAfter(inputs)
  {
    if inputs != [] { ModesAgree(cfg, t0, inputs[..|inputs| - 1]); }
  }

  /** Packets flushed and then packets pending are exactly the packets heard, in order; less than a
      burst is pending, and nothing at all before the first packet has been sent. */
  lemma {:induction false} Conservation(cfg: Config, t0: nat, inputs: seq<Input>)
    ensures Conserved(cfg, Run(cfg, t0, inputs), HeardPackets(inputs))
  {
    if inputs != [] {
      var before, input := inputs[..|inputs| - 1], inputs[|inputs| - 1];
      Conservation(cfg, t0, before);
      ModesAgree(cfg, t0, before);
      var s := Run(cfg, t0, before);
      if s.mode == Live && input.event.Arrived? {
        ArrivalIsConserved(cfg, s, input, HeardPackets(before));
      } else {
        OthersSendNothing(cfg, s, input);
      }
    }
  }

  lemma OthersSendNothing(cfg: Config, s: State, input: Input)
    requires !(s.mode == Live && input.event.Arrived?)
    ensures
      var s' := Step(cfg, s, input);
      s'.buffer == s.buffer && s'.flushed == s.flushed && s'.started == s.started
  {}

  ghost predicate Conserved(cfg: Config, s: State, heard: seq<Packet>) {
    && s.flushed + s.buffer == heard
    && |s.buffer| <= cfg.Size() - 1
    && (s.started <==> heard != [])
    && (s.started ==> s.flushed != [])
  }

  lemma ArrivalIsConserved(cfg: Config, s: State, input: Input, heard: seq<Packet>)
    requires s.mode == Live && input.event.Arrived? && Conserved(cfg, s, heard)
    ensures Conserved(cfg, Step(cfg, s, input), heard + [input.event.packet])
  {
    var p := input.event.packet;
    assert s.flushed + (s.buffer + [p]) == heard + [p];
    assert (s.flushed + (s.buffer + [p])) + [] == heard + [p];
  }

  // ----- What goes to the sockets -----

  datatype Send = SyncTo(target: nat, data: Bytes) | AudioTo(target: nat, data: Bytes)

  function SyncSends(targets: nat, data: Bytes): seq<Send> {
    if targets == 0 then [] else SyncSends(targets - 1, data) + [SyncTo(targets - 1, data)]
  }

  function AudioSends(n: nat, wires: seq<Bytes>): seq<Send>
    requires n <= |wires|
  {
    if n == 0 then [] else AudioSends(n - 1, wires) + [AudioTo(n - 1, wires[n - 1])]
  }

  function Min(m: nat, n: nat): nat {
    if m < n then m else n
  }

  /** A packet's own sync data to every target, then to each target its wire packet if it has one. */
  function PacketSends(targets: nat, p: Packet): seq<Send> {
    (match p.sync case None => [] case Some(data) => SyncSends(targets, data))
    + AudioSends(Min(targets, |p.wires|), p.wires)
  }

  function SendsOf(targets: nat): Packet -> seq<Send> {
    (p: Packet) => PacketSends(targets, p)
  }

  function AllSends(targets: nat, packets: seq<Packet>): seq<Send> {
    FlatMap(SendsOf(targets), packets)
  }

  /** What one target's data socket gets: its wire packets and, when it is shared for want of a control
      socket, the target's sync packets too. */
  function DataFor(target: nat, shared: bool, sends: seq<Send>): seq<Bytes> {
    if sends == [] then []
    else
      var front, last := sends[..|sends| - 1], sends[|sends| - 1];
      DataFor(target, shared, front)
      + if last.target == target && (last.AudioTo? || shared) then [last.data] else []
  }

  /** A target's share of one packet. */
  function ShareOf(target: nat, shared: bool, p: Packet): seq<Bytes> {
    (if shared && p.sync.Some? then [p.sync.value] else [])
    + if target < |p.wires| then [p.wires[target]] else []
  }

  /** A target's share of each packet, in order. */
  function SharesOf(target: nat, shared: bool, packets: seq<Packet>): seq<Bytes> {
    if packets == [] then []
    else SharesOf(target, shared, packets[..|packets| - 1]) + ShareOf(target, shared, packets[|packets| - 1])
  }

  lemma DataForSnoc(target: nat, shared: bool, sends: seq<Send>, send: Send)
    ensures DataFor(target, shared, sends + [send])
            == DataFor(target, shared, sends)
               + if send.target == target && (send.AudioTo? || shared) then [send.data] else []
  {
    assert (sends + [send])[..|sends|] == sends;
  }

  lemma {:induction false} DataForSyncs(target: nat, shared: bool, sends: seq<Send>, targets: nat, data: Bytes)
    ensures DataFor(target, shared, sends + SyncSends(targets, data))
            == DataFor(target, shared, sends) + if shared && target < targets then [data] else []
  {
    if targets == 0 {
      assert sends + [] == sends;
    } else {
      var syncs := SyncSends(targets - 1, data);
      DataForSyncs(target, shared, sends, targets - 1, data);
      DataForSnoc(target, shared, sends + syncs, SyncTo(targets - 1, data));
      Associative(sends, syncs, [SyncTo(targets - 1, data)]);
    }
  }

  lemma {:induction false} DataForAudio(target: nat, shared: bool, sends: seq<Send>, n: nat, wires: seq<Bytes>)
    requires n <= |wires|
    ensures DataFor(target, shared, sends + AudioSends(n, wires))
            == DataFor(target, shared, sends) + if target < n then [wires[target]] else []
  {
    if n == 0 {
      assert sends + [] == sends;
    } else {
      var audio := AudioSends(n - 1, wires);
      var last := AudioTo(n - 1, wires[n - 1]);
      DataForAudio(target, shared, sends, n - 1, wires);
      DataForSnoc(target, shared, sends + audio, last);
      Associative(sends, audio, [last]);
    }
  }

  lemma PacketShare(target: nat, shared: bool, targets: nat, sends: seq<Send>, p: Packet)
    requires target < targets
    ensures DataFor(target, shared, sends + PacketSends(targets, p))
            == DataFor(target, shared, sends) + ShareOf(target, shared, p)
  {
    var n := Min(targets, |p.wires|);
    var audio := AudioSends(n, p.wires);
    match p.sync
    case None =>
      assert [] + audio == audio;
      DataForAudio(target, shared, sends, n, p.wires);
    case Some(data) =>
      var syncs := SyncSends(targets, data);
      DataForSyncs(target, shared, sends, targets, data);
      DataForAudio(target, shared, sends + syncs, n, p.wires);
      Associative(sends, syncs, audio);
  }

  /** Each receiver's data socket gets exactly its own share of each packet, in order, none twice and none lost. */
  lemma {:induction false} EachTargetGetsItsOwn(target: nat, shared: bool, targets: nat, packets: seq<Packet>)
    requires target < targets
    ensures DataFor(target, shared, AllSends(targets, packets)) == SharesOf(target, shared, packets)
  {
    if packets != [] {
      var front, last := packets[..|packets| - 1], packets[|packets| - 1];
      EachTargetGetsItsOwn(target, shared, targets, front);
      PacketShare(target, shared, targets, AllSends(targets, front), last);
    }
  }

  // ----- The rate bound -----

  /** The clock never runs backwards, and a sleep never ends before its deadline. */
  ghost predicate Timely(cfg: Config, s: State, input: Input) {
    && s.clock <= input.now <= input.woke <= input.done
    && (s.mode == Live && input.event.Arrived? && s.started && |s.buffer| + 1 >= cfg.Size()
        ==> s.deadline <= input.woke)
  }

  ghost predicate WellTimed(cfg: Config, t0: nat, inputs: seq<Input>) {
    inputs == []
    || (&& WellTimed(cfg, t0, inputs[..|inputs| - 1])
        && Timely(cfg, Run(cfg, t0, inputs[..|inputs| - 1]), inputs[|inputs| - 1]))
  }

  /** How far the deadline has moved past burst i: one duration a burst, less one for lateness and
      one for each resume since. */
  ghost predicate Ahead(b: nat, deadline: int, from: Burst, count: int, resumes: int) {
    deadline >= from.at + (count - 2 - (resumes - from.resumes)) * b
  }

  ghost predicate Paced(cfg: Config, s: State) {
    var b := cfg.BurstDuration();
    && s.deadline <= s.clock + b
    && (s.started <==> s.bursts != [])
    && (forall i :: 0 <= i < |s.bursts| ==> Ahead(b, s.deadline, s.bursts[i], |s.bursts| - i, s.resumes))
  }

  /** Burst j comes no earlier than all the durations since burst i, less two and the resumes. */
  ghost predicate Spaced(b: nat, bursts: seq<Burst>) {
    forall i, j :: 0 <= i < j < |bursts| ==>
      bursts[j].at >= bursts[i].at + (j - i - 2 - (bursts[j].resumes - bursts[i].resumes)) * b
  }

  lemma OneMore(k: int, b: nat)
    ensures (k + 1) * b == k * b + b
  {}

  lemma FlushKeepsPace(cfg: Config, s: State, buffer: seq<Packet>, input: Input)
    requires Paced(cfg, s) && Spaced(cfg.BurstDuration(), s.bursts)
    requires s.clock <= input.now <= input.woke <= input.done && (s.started ==> s.deadline <= input.woke)
    ensures
      var s' := Flush(cfg, s, buffer, input).(clock := input.done);
      Paced(cfg, s') && Spaced(cfg.BurstDuration(), s'.bursts)
  {
    var b := cfg.BurstDuration();
    var s' := Flush(cfg, s, buffer, input).(clock := input.done);
    var n := |s.bursts|;
    forall i | 0 <= i < n
      ensures Ahead(b, s'.deadline, s'.bursts[i], n + 1 - i, s'.resumes)
      ensures s'.bursts[n].at >= s'.bursts[i].at + (n - i - 2 - (s.resumes - s.bursts[i].resumes)) * b
    {
      assert Ahead(b, s.deadline, s.bursts[i], n - i, s.resumes);
      OneMore(n - i - 2 - (s.resumes - s.bursts[i].resumes), b);
    }
    OneMore(-1, b);
    assert Ahead(b, s'.deadline, s'.bursts[n], 1, s'.resumes);
  }

  lemma ResumeKeepsPace(cfg: Config, s: State, input: Input)
    requires Paced(cfg, s) && s.clock <= input.now <= input.done
    ensures Paced(cfg, Restarted(s, input).(clock := input.done))
  {
    var b := cfg.BurstDuration();
    forall i | 0 <= i < |s.bursts|
      ensures Ahead(b, input.now, s.bursts[i], |s.bursts| - i, s.resumes + 1)
    {
      assert Ahead(b, s.deadline, s.bursts[i], |s.bursts| - i, s.resumes);
      OneMore(|s.bursts| - i - 2 - (s.resumes + 1 - s.bursts[i].resumes), b);
    }
  }

  /** In every well-timed run, catch-up, resets, pauses and resumes included, bursts keep their spacing. */
  lemma {:induction false} RunIsSpaced(cfg: Config, t0: nat, inputs: seq<Input>)
    requires WellTimed(cfg, t0, inputs)
    ensures Paced(cfg, Run(cfg, t0, inputs))
    ensures Spaced(cfg.BurstDuration(), Run(cfg, t0, inputs).bursts)
  {
    if inputs != [] {
      var before, input := inputs[..|inputs| - 1], inputs[|inputs| - 1];
      RunIsSpaced(cfg, t0, before);
      var s := Run(cfg, t0, before);
      if s.mode == Live && input.event.Arrived? {
        var buffer := s.buffer + [input.event.packet];
        if !(|buffer| < cfg.Size() && s.started) {
          FlushKeepsPace(cfg, s, buffer, input);
        }
      } else if s.mode != Done && input.event == Resume {
        ResumeKeepsPace(cfg, s, input);
      }
    }
  }

  /** In any window of length L without a resume at most L / BurstDuration + 3 bursts are sent. */
  lemma WindowBound(cfg: Config, t0: nat, inputs: seq<Input>, i: nat, j: nat, length: nat)
    requires WellTimed(cfg, t0, inputs) && cfg.BurstDuration() > 0
    requires i <= j < |Run(cfg, t0, inputs).bursts|
    requires
      var bursts := Run(cfg, t0, inputs).bursts;
      bursts[i].resumes == bursts[j].resumes && bursts[j].at <= bursts[i].at + length
    ensures j - i + 1 <= length / cfg.BurstDuration() + 3
  {
    RunIsSpaced(cfg, t0, inputs);
    SpacedWindow(cfg.BurstDuration(), Run(cfg, t0, inputs).bursts, i, j, length);
  }

  /** A packet that arrives, is waited for and is sent all in one moment. */
  function At(p: Packet, at: nat): Input {
    Input(Arrived(p), at, at, at)
  }

  /** A thread that sends every packet by itself, listening, with nothing pending. */
  ghost predicate Ready(cfg: Config, t0: nat, inputs: seq<Input>, deadline: nat, clock: nat) {
    var s := Run(cfg, t0, inputs);
    && WellTimed(cfg, t0, inputs) && s.mode == Live && s.buffer == [] && s.started
    && s.deadline == deadline && s.clock == clock && s.resumes == 0
    && (forall i :: 0 <= i < |s.bursts| ==> s.bursts[i].resumes == 0)
  }

  lemma Feed(cfg: Config, t0: nat, inputs: seq<Input>, deadline: nat, clock: nat, p: Packet, at: nat)
    requires cfg.Size() == 1 && Ready(cfg, t0, inputs, deadline, clock) && clock <= at && deadline <= at
    ensures Ready(cfg, t0, inputs + [At(p, at)], NextDeadline(deadline, cfg.BurstDuration(), at), at)
    ensures Run(cfg, t0, inputs + [At(p, at)]).bursts == Run(cfg, t0, inputs).bursts + [Burst(at, at, 0)]
  {
    var more := inputs + [At(p, at)];
    assert more[..|more| - 1] == inputs && more[|more| - 1] == At(p, at);
  }

  lemma FeedFirst(cfg: Config, t0: nat, p: Packet)
    requires cfg.Size() == 1
    ensures Ready(cfg, t0, [At(p, t0)], t0 + cfg.BurstDuration(), t0)
    ensures Run(cfg, t0, [At(p, t0)]).bursts == [Burst(t0, t0, 0)]
  {
    var one := [At(p, t0)];
    assert one[..0] == [];
  }

  /** One burst three durations after the first, and two more at once behind it. */
  lemma LateThenTwo(cfg: Config, t0: nat, p: Packet) returns (inputs: seq<Input>)
    requires cfg.Size() == 1
    ensures
      var b := cfg.BurstDuration();
      var late := t0 + b + b + b;
      && Ready(cfg, t0, inputs, late + b, late)
      && Run(cfg, t0, inputs).bursts
         == [Burst(t0, t0, 0), Burst(late, late, 0), Burst(late, late, 0), Burst(late, late, 0)]
  {
    var b := cfg.BurstDuration();
    var late := t0 + b + b + b;
    FeedFirst(cfg, t0, p);
    inputs := [At(p, t0)];
    Feed(cfg, t0, inputs, t0 + b, t0, p, late);
    inputs := inputs + [At(p, late)];
    Feed(cfg, t0, inputs, t0 + b + b, late, p, late);
    inputs := inputs + [At(p, late)];
    Feed(cfg, t0, inputs, late, late, p, late);
    inputs := inputs + [At(p, late)];
  }

  /** The bound is reached, in windows of every whole number of durations. */
  lemma {:induction false} BoundIsReached(cfg: Config, t0: nat, p: Packet, k: nat) returns (inputs: seq<Input>)
    requires cfg.Size() == 1
    ensures
      var b := cfg.BurstDuration();
      var late := t0 + b + b + b;
      var bursts := Run(cfg, t0, inputs).bursts;
      && k * b >= 0 && Ready(cfg, t0, inputs, late + k * b + b, late + k * b)
      && |bursts| == k + 4 && bursts[1].at == late && bursts[k + 3].at == bursts[1].at + k * b
  {
    var b := cfg.BurstDuration();
    var late := t0 + b + b + b;
    if k == 0 {
      inputs := LateThenTwo(cfg, t0, p);
    } else {
      var before := BoundIsReached(cfg, t0, p, k - 1);
      OneMore(k - 1, b);
      var at := late + k * b;
      Feed(cfg, t0, before, at, at - b, p, at);
      inputs := before + [At(p, at)];
    }
  }

  lemma SpacedWindow(b: nat, bursts: seq<Burst>, i: nat, j: nat, length: nat)
    requires Spaced(b, bursts) && b > 0 && i <= j < |bursts|
    requires bursts[i].resumes == bursts[j].resumes && bursts[j].at <= bursts[i].at + length
    ensures j - i + 1 <= length / b + 3
  {
    if i < j { QuotientBound(j - i - 2, length, b); }
  }

  lemma QuotientBound(k: int, length: nat, b: nat)
    requires b > 0 && k * b <= length
    ensures k <= length / b
  {
    var q := length / b;
    assert length < (q + 1) * b;
    if k >= q + 1 {
      ModArith.MulMonotone(q + 1, k, b);
    }
  }

  // ----- The schedule since a resume, or since the first burst -----

  /** One frame's duration for each packet of a burst. */
  function PeriodOf(cfg: Config): nat {
    ModArith.MulNonNegative(cfg.frameDuration, cfg.burstSize);
    if cfg.burstSize == 0 then cfg.frameDuration else cfg.frameDuration * cfg.burstSize
  }

  /** Counted from time t, burst n from `first` on comes no sooner than after n periods. */
  ghost predicate NotBefore(b: nat, bursts: seq<Burst>, first: nat, t: nat) {
    forall k :: first <= k < |bursts| ==> bursts[k].at >= t + (k - first) * b
  }

  /** Counted from time t, none of these bursts was done more than two periods after its turn. */
  ghost predicate KeptUp(b: nat, bursts: seq<Burst>, first: nat, end: nat, t: nat)
    requires end <= |bursts|
  {
    forall k :: first <= k < end ==> bursts[k].done <= t + (k - first + 2) * b
  }

  /** Nothing was sent, and nothing will be, ahead of the schedule that began at t. */
  ghost predicate OnOrAfter(b: nat, s: State, first: nat, t: nat) {
    && first <= |s.bursts| && t <= s.clock && (!s.started ==> s.bursts == [])
    && t + (|s.bursts| - first) * b <= s.deadline
    && NotBefore(b, s.bursts, first, t)
  }

  /** The deadline is the one of the schedule, until a burst is done too late; then it is when that was. */
  ghost predicate OnSchedule(b: nat, s: State, first: nat, t: nat) {
    var n := |s.bursts|;
    && first <= n && s.started
    && (KeptUp(b, s.bursts, first, n, t) ==> s.deadline == t + (n - first) * b)
    && (first < n && KeptUp(b, s.bursts, first, n - 1, t) && s.bursts[n - 1].done > t + (n - first + 1) * b
        ==> s.deadline == s.bursts[n - 1].done)
  }

  lemma FlushOnOrAfter(cfg: Config, b: nat, s: State, buffer: seq<Packet>, input: Input, first: nat, t: nat)
    requires b == cfg.BurstDuration() && OnOrAfter(b, s, first, t)
    requires s.clock <= input.now <= input.woke <= input.done && (s.started ==> s.deadline <= input.woke)
    ensures OnOrAfter(b, Flush(cfg, s, buffer, input).(clock := input.done), first, t)
  {
    OneMore(|s.bursts| - first, b);
    assert !s.started ==> (|s.bursts| - first) * b == 0;
  }

  lemma KeptUpSnoc(b: nat, bursts: seq<Burst>, burst: Burst, first: nat, t: nat)
    requires first <= |bursts|
    ensures KeptUp(b, bursts + [burst], first, |bursts|, t) <==> KeptUp(b, bursts, first, |bursts|, t)
    ensures KeptUp(b, bursts + [burst], first, |bursts| + 1, t)
            <==> KeptUp(b, bursts, first, |bursts|, t) && burst.done <= t + (|bursts| - first + 2) * b
  {
    var more := bursts + [burst];
    assert more[|bursts|] == burst;
    assert forall k :: 0 <= k < |bursts| ==> more[k] == bursts[k];
  }

  lemma FlushOnSchedule(cfg: Config, b: nat, s: State, buffer: seq<Packet>, input: Input, first: nat, t: nat)
    requires b == cfg.BurstDuration() && OnSchedule(b, s, first, t)
    ensures OnSchedule(b, Flush(cfg, s, buffer, input), first, t)
  {
    KeptUpSnoc(b, s.bursts, Burst(input.woke, input.done, s.resumes), first, t);
    OneMore(|s.bursts| - first, b);
    OneMore(|s.bursts| - first + 1, b);
  }

  lemma PeriodIs(cfg: Config)
    ensures PeriodOf(cfg) == cfg.BurstDuration()
  {}

  /** A step that is no resume keeps to the schedule. */
  lemma StepKeepsSchedule(cfg: Config, s: State, input: Input, first: nat, t: nat)
    requires OnOrAfter(PeriodOf(cfg), s, first, t) && Timely(cfg, s, input) && input.event != Resume
    ensures OnOrAfter(PeriodOf(cfg), Step(cfg, s, input), first, t)
    ensures OnSchedule(PeriodOf(cfg), s, first, t) ==> OnSchedule(PeriodOf(cfg), Step(cfg, s, input), first, t)
  {
    if s.mode == Live && input.event.Arrived? {
      var buffer := s.buffer + [input.event.packet];
      if !(|buffer| < cfg.Size() && s.started) {
        FlushKeepsSchedule(cfg, s, buffer, input, first, t);
      }
    }
  }

  lemma FlushKeepsSchedule(cfg: Config, s: State, buffer: seq<Packet>, input: Input, first: nat, t: nat)
    requires OnOrAfter(PeriodOf(cfg), s, first, t)
    requires s.clock <= input.now <= input.woke <= input.done && (s.started ==> s.deadline <= input.woke)
    ensures
      var s', b := Flush(cfg, s, buffer, input).(clock := input.done), PeriodOf(cfg);
      OnOrAfter(b, s', first, t) && (OnSchedule(b, s, first, t) ==> OnSchedule(b, s', first, t))
  {
    var b := PeriodOf(cfg);
    PeriodIs(cfg);
    FlushOnOrAfter(cfg, b, s, buffer, input, first, t);
    if OnSchedule(b, s, first, t) {
      FlushOnSchedule(cfg, b, s, buffer, input, first, t);
    }
  }

  ghost predicate NoResumeFrom(inputs: seq<Input>, start: nat) {
    forall k :: start <= k < |inputs| ==> inputs[k].event != Resume
  }

  lemma {:induction false} ScheduleKept(cfg: Config, t0: nat, inputs: seq<Input>, start: nat, first: nat, t: nat)
    requires WellTimed(cfg, t0, inputs) && start <= |inputs| && NoResumeFrom(inputs, start)
    requires OnOrAfter(PeriodOf(cfg), Run(cfg, t0, inputs[..start]), first, t)
    ensures OnOrAfter(PeriodOf(cfg), Run(cfg, t0, inputs), first, t)
    ensures OnSchedule(PeriodOf(cfg), Run(cfg, t0, inputs[..start]), first, t)
            ==> OnSchedule(PeriodOf(cfg), Run(cfg, t0, inputs), first, t)
  {
    if start == |inputs| {
      assert inputs[..start] == inputs;
    } else {
      var n := |inputs| - 1;
      assert inputs[..n][..start] == inputs[..start];
      ScheduleKept(cfg, t0, inputs[..n], start, first, t);
      StepKeepsSchedule(cfg, Run(cfg, t0, inputs[..n]), inputs[n], first, t);
    }
  }

  /** Input r is the last resume of the run, and the thread was still there to hear it. */
  ghost predicate LastResume(inputs: seq<Input>, r: int) {
    && 0 <= r < |inputs| && inputs[r].event == Resume && ModeAfter(inputs[..r]) != Done
    && NoResumeFrom(inputs, r + 1)
  }

  lemma {:induction false} WellTimedBefore(cfg: Config, t0: nat, inputs: seq<Input>, k: nat)
    requires WellTimed(cfg, t0, inputs) && k <= |inputs|
    ensures WellTimed(cfg, t0, inputs[..k])
    ensures k < |inputs| ==> Timely(cfg, Run(cfg, t0, inputs[..k]), inputs[k])
    decreases |inputs|
  {
    if k == |inputs| {
      assert inputs[..k] == inputs;
    } else if k < |inputs| - 1 {
      var front := inputs[..|inputs| - 1];
      WellTimedBefore(cfg, t0, front, k);
      assert front[..k] == inputs[..k];
    }
  }

  lemma StartedIff(cfg: Config, t0: nat, inputs: seq<Input>)
    requires WellTimed(cfg, t0, inputs)
    ensures Run(cfg, t0, inputs).started <==> Run(cfg, t0, inputs).bursts != []
  {
    RunIsSpaced(cfg, t0, inputs);
  }

  lemma ResumeStartsSchedule(cfg: Config, s: State, input: Input)
    requires s.mode != Done && input.event == Resume && input.now <= input.done
    requires s.started <==> s.bursts != []
    ensures
      var s', b := Step(cfg, s, input), PeriodOf(cfg);
      && s'.bursts == s.bursts && OnOrAfter(b, s', |s.bursts|, input.now)
      && (s.started ==> OnSchedule(b, s', |s.bursts|, input.now))
  {
    var b := PeriodOf(cfg);
    assert 0 * b == 0;
  }

  /**
   * In every well-timed run the schedule is counted from the last resume: the burst after it comes no sooner
   * than the resume, and burst n after that one no sooner than n periods later. Once anything had been sent,
   * the deadline is exactly n periods after the resume for as long as no burst is done too late.
   */
  lemma SinceLastResume(cfg: Config, t0: nat, inputs: seq<Input>, r: nat)
    requires WellTimed(cfg, t0, inputs) && LastResume(inputs, r)
    ensures
      var before, s := Run(cfg, t0, inputs[..r]), Run(cfg, t0, inputs);
      var first, t := |before.bursts|, inputs[r].now;
      && first <= |s.bursts| && NotBefore(PeriodOf(cfg), s.bursts, first, t)
      && (before.bursts != [] ==> OnSchedule(PeriodOf(cfg), s, first, t))
  {
    var before := Run(cfg, t0, inputs[..r]);
    WellTimedBefore(cfg, t0, inputs, r);
    ModesAgree(cfg, t0, inputs[..r]);
    StartedIff(cfg, t0, inputs[..r]);
    RunStep(cfg, t0, inputs, r);
    ResumeStartsSchedule(cfg, before, inputs[r]);
    ScheduleKept(cfg, t0, inputs, r + 1, |before.bursts|, inputs[r].now);
  }

  /** Input f is the first packet the thread hears. */
  ghost predicate FirstHeard(inputs: seq<Input>, f: int) {
    0 <= f < |inputs| && inputs[f].event.Arrived? && ModeAfter(inputs[..f]) == Live && HeardPackets(inputs[..f]) == []
  }

  /** Until something is resumed, the schedule is counted from the arrival of the first packet. */
  lemma SinceFirstBurst(cfg: Config, t0: nat, inputs: seq<Input>, f: nat)
    requires WellTimed(cfg, t0, inputs) && FirstHeard(inputs, f) && NoResumeFrom(inputs, f + 1)
    ensures
      var s, t := Run(cfg, t0, inputs), inputs[f].now;
      NotBefore(PeriodOf(cfg), s.bursts, 0, t) && OnSchedule(PeriodOf(cfg), s, 0, t)
  {
    var before, t := Run(cfg, t0, inputs[..f]), inputs[f].now;
    WellTimedBefore(cfg, t0, inputs, f);
    ModesAgree(cfg, t0, inputs[..f]);
    StartedIff(cfg, t0, inputs[..f]);
    Conservation(cfg, t0, inputs[..f]);
    RunStep(cfg, t0, inputs, f);
    FirstFlush(cfg, before, inputs[f]);
    ScheduleKept(cfg, t0, inputs, f + 1, 0, t);
  }

  lemma FirstFlush(cfg: Config, s: State, input: Input)
    requires Timely(cfg, s, input) && s.mode == Live && input.event.Arrived? && !s.started && s.bursts == []
    ensures
      var s', b := Step(cfg, s, input), PeriodOf(cfg);
      OnOrAfter(b, s', 0, input.now) && OnSchedule(b, s', 0, input.now)
  {
    var b := PeriodOf(cfg);
    var s' := Step(cfg, s, input);
    PeriodIs(cfg);
    assert s'.bursts == [Burst(input.woke, input.done, s.resumes)];
    OneMore(0, b);
    OneMore(1, b);
  }

  /** So many packets have been sent, and less than a burst is pending. */
  ghost predicate Full(s: State, size: nat) {
    && (s.started <==> s.bursts != []) && |s.buffer| < size
    && (s.bursts == [] ==> s.flushed == [] && s.buffer == [])
    && (s.bursts != [] ==> |s.flushed| == 1 + (|s.bursts| - 1) * size)
  }

  /** The first burst is one packet, and every other one is as large as it is configured to be. */
  lemma {:induction false} BurstsAreFull(cfg: Config, t0: nat, inputs: seq<Input>)
    ensures Full(Run(cfg, t0, inputs), if cfg.burstSize == 0 then 1 else cfg.burstSize)
  {
    if inputs != [] {
      var n := |inputs| - 1;
      BurstsAreFull(cfg, t0, inputs[..n]);
      FullStep(cfg, Run(cfg, t0, inputs[..n]), inputs[n]);
    }
  }

  lemma FullStep(cfg: Config, s: State, input: Input)
    requires Full(s, if cfg.burstSize == 0 then 1 else cfg.burstSize)
    ensures Full(Step(cfg, s, input), if cfg.burstSize == 0 then 1 else cfg.burstSize)
  {
    var size := if cfg.burstSize == 0 then 1 else cfg.burstSize;
    OneMore(|s.bursts| - 1, size);
  }

  // ----- The loop itself -----

  /** The inner loop of a pause: everything but Resume and Stop is dropped. */
  method Hold(cfg: Config, t0: nat, inputs: seq<Input>, start: nat, deadline: nat)
    returns (i: nat, resumed: bool, exited: bool, nextDeadline: nat)
    requires start <= |inputs|
    requires Run(cfg, t0, inputs[..start]).mode == Held && Run(cfg, t0, inputs[..start]).deadline == deadline
    ensures start <= i <= |inputs| && !(resumed && exited) && (!resumed && !exited ==> i == |inputs|)
    ensures
      var before, s := Run(cfg, t0, inputs[..start]), Run(cfg, t0, inputs[..i]);
      && s.mode == (if exited then Done else if resumed then Live else Held)
      && s.deadline == nextDeadline && s.started == before.started
      && s.buffer == before.buffer && s.flushed == before.flushed
  {
    i, resumed, exited, nextDeadline := start, false, false, deadline;
    ghost var before := Run(cfg, t0, inputs[..start]);
    while i < |inputs| && !resumed && !exited
      invariant start <= i <= |inputs| && !(resumed && exited)
      invariant Run(cfg, t0, inputs[..i]).mode == if exited then Done else if resumed then Live else Held
      invariant Run(cfg, t0, inputs[..i]).deadline == nextDeadline
      invariant Run(cfg, t0, inputs[..i]).started == before.started
      invariant Run(cfg, t0, inputs[..i]).buffer == before.buffer
      invariant Run(cfg, t0, inputs[..i]).flushed == before.flushed
    {
      var input := inputs[i];
      RunStep(cfg, t0, inputs, i);
      i := i + 1;
      if input.event == Resume {
        nextDeadline := input.now;
        resumed := true;
      } else if input.event == Stop {
        exited := true;
      }
    }
  }

  /** The loop variables agree with the state after the first i inputs. */
  ghost predicate Agrees(cfg: Config, s: State, exited: bool, started: bool, deadline: nat,
                         buffer: seq<Packet>, sent: seq<Send>)
  {
    && s.mode == (if exited then Done else Live)
    && s.started == started && s.deadline == deadline && s.buffer == buffer
    && sent == AllSends(cfg.targets, s.flushed)
  }

  lemma ArrivalSends(cfg: Config, s: State, input: Input)
    requires s.mode == Live && input.event.Arrived?
    ensures
      var buffer := s.buffer + [input.event.packet];
      AllSends(cfg.targets, Step(cfg, s, input).flushed)
      == if |buffer| < cfg.Size() && s.started then AllSends(cfg.targets, s.flushed)
         else AllSends(cfg.targets, s.flushed) + AllSends(cfg.targets, buffer)
  {
    FlatMapConcat(SendsOf(cfg.targets), s.flushed, s.buffer + [input.event.packet]);
  }

  /** The thread body over the inputs observed so far; returns what it has put on the sockets. */
  method SenderThreadMain(cfg: Config, t0: nat, inputs: seq<Input>) returns (sent: seq<Send>, exited: bool)
    ensures sent == AllSends(cfg.targets, Run(cfg, t0, inputs).flushed)
    ensures exited <==> ModeAfter(inputs) == Done
  {
    sent, exited := [], false;
    var nextDeadline: nat := t0;
    var started := false;
    var burstBuffer: seq<Packet> := [];
    var i: nat := 0;
    ModesAgree(cfg, t0, inputs);
    while i < |inputs| && !exited
      invariant i <= |inputs|
      invariant Agrees(cfg, Run(cfg, t0, inputs[..i]), exited, started, nextDeadline, burstBuffer, sent)
    {
      var input := inputs[i];
      RunStep(cfg, t0, inputs, i);
      i := i + 1;
      match input.event {
        case Timeout =>
        case Disconnected => exited := true;
        case Stop => exited := true;
        case Resume => nextDeadline := input.now;
        case Pause =>
          var resumed;
          i, resumed, exited, nextDeadline := Hold(cfg, t0, inputs, i, nextDeadline);
          if !resumed && !exited {
            assert inputs[..i] == inputs;
            return;
          }
        case Arrived(packet) =>
          ArrivalSends(cfg, Run(cfg, t0, inputs[..i - 1]), input);
          burstBuffer := burstBuffer + [packet];
          if !(|burstBuffer| < cfg.Size() && started) {
            if !started {
              nextDeadline := input.now;
              started := true;
            }
            var burst := SendBurst(cfg.targets, burstBuffer);
            sent := sent + burst;
            burstBuffer := [];
            nextDeadline := nextDeadline + cfg.BurstDuration();
            if input.done > nextDeadline + cfg.BurstDuration() {
              nextDeadline := input.done;
            }
          }
      }
    }
    if exited {
      StaysDone(cfg, t0, inputs, i);
    } else {
      assert inputs[..i] == inputs;
    }
  }

  /** Sends one packet: its sync data to all targets, then its wire packets. */
  method SendPacket(targets: nat, p: Packet) returns (sent: seq<Send>)
    ensures sent == PacketSends(targets, p)
  {
    sent := [];
    if p.sync.Some? {
      for t := 0 to targets
        invariant sent == SyncSends(t, p.sync.value)
      {
        sent := sent + [SyncTo(t, p.sync.value)];
      }
    }
    ghost var syncs := sent;
    for t := 0 to targets
      invariant sent == syncs + AudioSends(Min(t, |p.wires|), p.wires)
    {
      if t < |p.wires| {
        sent := sent + [AudioTo(t, p.wires[t])];
      }
    }
  }

  method SendBurst(targets: nat, packets: seq<Packet>) returns (sent: seq<Send>)
    ensures sent == AllSends(targets, packets)
  {
    sent := [];
    for k := 0 to |packets|
      invariant sent == AllSends(targets, packets[..k])
    {
      var out := SendPacket(targets, packets[k]);
      FlatMapSnoc(SendsOf(targets), packets[..k], packets[k]);
      assert packets[..k] + [packets[k]] == packets[..k + 1];
      sent := sent + out;
    }
    assert packets[..|packets|] == packets;
  }

  lemma RunStep(cfg: Config, t0: nat, inputs: seq<Input>, i: nat)
    requires i < |inputs|
    ensures Run(cfg, t0, inputs[..i + 1]) == Step(cfg, Run(cfg, t0, inputs[..i]), inputs[i])
  {
    assert inputs[..i + 1][..i] == inputs[..i];
  }

  lemma {:induction false} StaysDone(cfg: Config, t0: nat, inputs: seq<Input>, i: nat)
    requires i <= |inputs| && Run(cfg, t0, inputs[..i]).mode == Done
    ensures Run(cfg, t0, inputs).mode == Done
    ensures Run(cfg, t0, inputs).flushed == Run(cfg, t0, inputs[..i]).flushed
    decreases |inputs| - i
  {
    if i == |inputs| {
      assert inputs[..i] == inputs;
    } else {
      RunStep(cfg, t0, inputs, i);
      StaysDone(cfg, t0, inputs, i + 1);
    }
  }
}
