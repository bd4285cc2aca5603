/** The live decoder: received frames of any size, converted to the target rate and re-cut into packets. */
module LiveDecoders {
  import opened Wrappers
  import opened AudioBuffers
  import opened Sequences

  /** What one receive with a timeout yields; an exhausted script yields nothing more. */
  datatype Recv = Frame(samples: Pcm) | Quiet | Closed

  /** What the latest of all frames received adds at the target rate; nothing when the resampler fails. */
  type Converter = seq<Pcm> -> Option<Pcm>

  /** Samples not yet handed out, whether the channel is known closed, all frames ever received, and whether
      a frame could not be converted. */
  datatype Decoder = Decoder(convert: Converter, residual: Pcm, eof: bool, frames: seq<Pcm>, failed: bool) {
    /** Everything received, at the target rate. */
    function Received(): Pcm {
      Converted(convert, frames)
    }
  }

  function Converted(convert: Converter, frames: seq<Pcm>): Pcm {
    if frames == [] then [] else Converted(convert, frames[..|frames| - 1]) + OrEmpty(convert(frames))
  }

  datatype Decoded = Decoded(decoder: Decoder, rx: seq<Recv>, frame: Option<Pcm>)

  function NewDecoder(convert: Converter): Decoder {
    Decoder(convert, [], false, [], false)
  }

  /** Equal source and target rates: every frame is passed on as it is. */
  ghost predicate PassesThrough(convert: Converter) {
    forall frames: seq<Pcm>, samples: Pcm :: convert(frames + [samples]) == Some(samples)
  }

  /** One frame from the channel, if there is one. */
  function DecodeFrame(d: Decoder, rx: seq<Recv>): Decoded {
    if d.eof then Decoded(d, rx, None)
    else if rx == [] then Decoded(d, rx, None)
    else
      match rx[0]
      case Frame(samples) => Decoded(d.(frames := d.frames + [samples]), rx[1..], Some(samples))
      case Quiet => Decoded(d, rx[1..], None)
      case Closed => Decoded(d.(eof := true), rx[1..], None)
  }

  /** Receives until there is enough for a packet; the residual holds what has been collected, and is lost
      with a frame that cannot be converted. */
  function Collect(d: Decoder, rx: seq<Recv>, target: nat): Decoded
    decreases |rx|
  {
    if |d.residual| >= target then Decoded(d, rx, None)
    else
      var next := DecodeFrame(d, rx);
      if next.frame.None? then next
      else if |next.rx| >= |rx| then next
      else
        match d.convert(next.decoder.frames)
        case None => Decoded(next.decoder.(residual := [], failed := true), next.rx, None)
        case Some(samples) => Collect(next.decoder.(residual := d.residual + samples), next.rx, target)
  }

  /** A full packet and what is left over, or nothing and everything kept. */
  function DecodePacket(d: Decoder, rx: seq<Recv>, target: nat): Decoded {
    var c := Collect(d, rx, target);
    var samples := c.decoder.residual;
    if |samples| < target || samples == [] then Decoded(c.decoder, c.rx, None)
    else Decoded(c.decoder.(residual := samples[target..]), c.rx, Some(samples[..target]))
  }

  /** What was handed out, then the residual, is the old residual, then what was newly received. */
  ghost predicate Conserves(before: Decoder, after: Decoder, out: Pcm) {
    && before.Received() <= after.Received()
    && out + after.residual == before.residual + after.Received()[|before.Received()|..]
  }

  lemma ReceiveMore(convert: Converter, frames: seq<Pcm>, samples: Pcm)
    ensures Converted(convert, frames + [samples]) == Converted(convert, frames) + OrEmpty(convert(frames + [samples]))
  {
    assert (frames + [samples])[..|frames|] == frames;
  }

  /** At equal rates what is received is the frames, one after the other. */
  lemma {:induction false} PassedThrough(convert: Converter, frames: seq<Pcm>)
    requires PassesThrough(convert)
    ensures Converted(convert, frames) == Flatten(frames)
  {
    if frames != [] {
      var front, last := frames[..|frames| - 1], frames[|frames| - 1];
      assert frames == front + [last];
      PassedThrough(convert, front);
      FlatMapSnoc(Identity<int>(), front, last);
    }
  }

  lemma Extends(a: Pcm, samples: Pcm, b: Pcm, c: Pcm)
    requires b == a + samples && b <= c
    ensures a <= c && c[|a|..] == samples + c[|b|..]
  {
    assert c == b + c[|b|..];
  }

  lemma ConservesOn(d: Decoder, next: Decoder, last: Decoder, samples: Pcm)
    requires next.Received() == d.Received() + samples && next.residual == d.residual + samples
    requires Conserves(next, last, [])
    ensures Conserves(d, last, [])
  {
    Extends(d.Received(), samples, next.Received(), last.Received());
    Associative(d.residual, samples, last.Received()[|next.Received()|..]);
  }

  lemma {:induction false} CollectConserves(d: Decoder, rx: seq<Recv>, target: nat)
    requires !Collect(d, rx, target).decoder.failed
    ensures Conserves(d, Collect(d, rx, target).decoder, [])
    decreases |rx|
  {
    if |d.residual| < target && !d.eof && rx != [] && rx[0].Frame? {
      var frames := d.frames + [rx[0].samples];
      ReceiveMore(d.convert, d.frames, rx[0].samples);
      if d.convert(frames).Some? {
        var samples := d.convert(frames).value;
        var next := d.(frames := frames, residual := d.residual + samples);
        CollectConserves(next, rx[1..], target);
        ConservesOn(d, next, Collect(next, rx[1..], target).decoder, samples);
      }
    }
  }

  /** The end of the stream is never forgotten, the converter never changed, and a failure never undone. */
  lemma {:induction false} CollectKeeps(d: Decoder, rx: seq<Recv>, target: nat)
    ensures
      var after := Collect(d, rx, target).decoder;
      after.convert == d.convert && (d.eof ==> after.eof) && (d.failed ==> after.failed)
    decreases |rx|
  {
    if |d.residual| < target && !d.eof && rx != [] && rx[0].Frame? {
      var frames := d.frames + [rx[0].samples];
      if d.convert(frames).Some? {
        CollectKeeps(d.(frames := frames, residual := d.residual + d.convert(frames).value), rx[1..], target);
      }
    }
  }

  /** Every packet is full-size, and unless a conversion fails no sample is lost, repeated or reordered. */
  lemma PacketConserves(d: Decoder, rx: seq<Recv>, target: nat)
    ensures
      var r := DecodePacket(d, rx, target);
      && r.decoder.convert == d.convert && (d.eof ==> r.decoder.eof) && (d.failed ==> r.decoder.failed)
      && (r.frame.Some? ==> |r.frame.value| == target)
      && (!r.decoder.failed ==> Conserves(d, r.decoder, OrEmpty(r.frame)))
  {
    CollectKeeps(d, rx, target);
    if !Collect(d, rx, target).decoder.failed { CollectConserves(d, rx, target); }
    var samples := Collect(d, rx, target).decoder.residual;
    if |samples| >= target && samples != [] {
      assert samples[..target] + samples[target..] == samples;
    }
  }

  function FramesIn(rx: seq<Recv>): seq<Pcm> {
    if rx == [] then []
    else (if rx[0].Frame? then [rx[0].samples] else []) + FramesIn(rx[1..])
  }

  /** Between two states k receives were made: their frames are on record, and so is a closed channel. */
  ghost predicate Consumed(d: Decoder, rx: seq<Recv>, after: Decoder, rest: seq<Recv>, k: nat) {
    && k <= |rx| && rest == rx[k..]
    && after.frames == d.frames + FramesIn(rx[..k])
    && (after.eof <==> d.eof || Closed in rx[..k])
  }

  lemma ConsumedNone(d: Decoder, rx: seq<Recv>)
    ensures Consumed(d, rx, d, rx, 0)
  {}

  lemma ConsumedOneMore(d: Decoder, rx: seq<Recv>, next: Decoder, after: Decoder, rest: seq<Recv>, k: nat)
    requires rx != [] && Consumed(next, rx[1..], after, rest, k)
    requires next.frames == d.frames + if rx[0].Frame? then [rx[0].samples] else []
    requires next.eof <==> d.eof || rx[0] == Closed
    ensures Consumed(d, rx, after, rest, k + 1)
  {
    assert rx[..k + 1] == [rx[0]] + rx[1..][..k];
    assert rx[..k + 1][1..] == rx[1..][..k];
  }

  /** Collecting takes receives from the front, one after the other, and forgets none of them. */
  lemma {:induction false} CollectConsumes(d: Decoder, rx: seq<Recv>, target: nat) returns (k: nat)
    ensures Consumed(d, rx, Collect(d, rx, target).decoder, Collect(d, rx, target).rx, k)
    ensures |d.residual| >= target || d.eof ==> k == 0
    decreases |rx|
  {
    k := 0;
    ConsumedNone(d, rx);
    if |d.residual| < target && !d.eof && rx != [] {
      var next := DecodeFrame(d, rx).decoder;
      ConsumedNone(next, rx[1..]);
      if rx[0].Frame? && d.convert(next.frames).Some? {
        var more := next.(residual := d.residual + d.convert(next.frames).value);
        k := CollectConsumes(more, rx[1..], target);
        ConsumedOneMore(d, rx, more, Collect(d, rx, target).decoder, Collect(d, rx, target).rx, k);
      } else {
        ConsumedOneMore(d, rx, next, Collect(d, rx, target).decoder, rx[1..], 0);
      }
      k := k + 1;
    }
  }

  /** A packet takes nothing from the channel that the residual has already, and records all that it takes. */
  lemma PacketConsumes(d: Decoder, rx: seq<Recv>, target: nat) returns (k: nat)
    ensures Consumed(d, rx, DecodePacket(d, rx, target).decoder, DecodePacket(d, rx, target).rx, k)
    ensures |d.residual| >= target || d.eof ==> k == 0
  {
    k := CollectConsumes(d, rx, target);
  }

  /** At the end of the stream packets come out of the residual alone. */
  lemma PacketAtEof(d: Decoder, rx: seq<Recv>, target: nat)
    requires d.eof && target > 0
    ensures DecodePacket(d, rx, target)
            == if |d.residual| < target then Decoded(d, rx, None)
               else Decoded(d.(residual := d.residual[target..]), rx, Some(d.residual[..target]))
  {}

  class LiveAudioDecoder {
    const convert: Converter
    var residualSamples: Pcm
    var eof: bool
    var frames: seq<Pcm>
    var failed: bool

    constructor (convert: Converter)
      ensures View() == NewDecoder(convert)
    {
      this.convert := convert;
      residualSamples, eof, frames, failed := [], false, [], false;
    }

    ghost function View(): Decoder
      reads this
    {
      Decoder(convert, residualSamples, eof, frames, failed)
    }

    method ReceiveFrame(rx: seq<Recv>) returns (rest: seq<Recv>, frame: Option<Pcm>)
      modifies this`eof, this`frames
      ensures Decoded(View(), rest, frame) == DecodeFrame(old(View()), rx)
    {
      rest, frame := rx, None;
      if eof || rx == [] {
        return;
      }
      rest := rx[1..];
      match rx[0]
      case Quiet =>
      case Closed => eof := true;
      case Frame(samples) =>
        frames := frames + [samples];
        frame := Some(samples);
    }

    /** Nothing and `failed` set when a frame could not be converted. */
    method DecodeResampled(rx: seq<Recv>, target: nat) returns (rest: seq<Recv>, frame: Option<Pcm>)
      modifies this
      ensures Decoded(View(), rest, frame) == DecodePacket(old(View()), rx, target)
    {
      var collected := residualSamples;
      residualSamples := [];
      rest, frame := rx, None;
      while |collected| < target
        invariant residualSamples == []
        invariant Collect(old(View()), rx, target)
                  == Collect(Decoder(convert, collected, eof, frames, failed), rest, target)
        decreases |rest|, |collected| < target
      {
        var chunk;
        rest, chunk := ReceiveFrame(rest);
        if chunk.None? {
          residualSamples := collected;
          return;
        }
        var samples := convert(frames);
        if samples.None? {
          failed := true;
          return;
        }
        collected := collected + samples.value;
      }
      if collected == [] {
        return;
      }
      ghost var all := collected;
      if |collected| > target {
        residualSamples := collected[target..];
        collected := collected[..target];
      }
      frame := Some(collected);
      assert residualSamples == all[target..];
      assert collected == all[..target];
    }
  }
}
