/** The live drift node `TimeDiffCalculator`: it subscribes to a reference
    topic and a target topic and keeps one piece of state, the offset of the
    last reference message (`reference_delay_time`). Times are integer
    nanoseconds; published values are exact reals (seconds or
    milliseconds). The node's clock is passed in as `nowNs`. */
module TimeDiff {
  import opened Messages

  /** One value published on one of the node's four output topics. */
  datatype Publication =
    | ReferenceDiff(seconds: real)       // /timediff/reference_diff
    | ReferenceDiffDiffMs(ms: real)      // /timediff/reference_diff_diff_ms
    | TargetDiff(seconds: real)          // /timediff/target_diff
    | TargetDelayMs(ms: real)            // /timediff/target_delay_ms

  /** Reception time minus header stamp, in seconds. */
  function OffsetSeconds(nowNs: int, stamp: Stamp): (r: real)
    ensures r * 1_000_000_000.0 == (nowNs - StampNanos(stamp)) as real
    ensures r >= 0.0 <==> nowNs >= StampNanos(stamp)
  {
    (nowNs - StampNanos(stamp)) as real / 1_000_000_000.0
  }

  /** What one reference callback publishes, and the stored offset after it.
      A message without `header.stamp` raises inside the callback before
      anything is published; the exception is only logged. */
  function ReferenceStep(stored: Option<real>, nowNs: int, msg: Msg): (Option<real>, seq<Publication>)
  {
    match HeaderStamp(msg)
    case None => (stored, [])
    case Some(stamp) =>
      var diff := OffsetSeconds(nowNs, stamp);
      var jitter := if stored.Some? then [ReferenceDiffDiffMs((stored.value - diff) * 1000.0)] else [];
      (Some(diff), [ReferenceDiff(diff)] + jitter)
  }

  /** What one target callback publishes; it never changes the stored offset. */
  function TargetStep(stored: Option<real>, nowNs: int, msg: Msg): seq<Publication>
  {
    match HeaderStamp(msg)
    case None => []
    case Some(stamp) =>
      var diff := OffsetSeconds(nowNs, stamp);
      [TargetDiff(diff)] + if stored.Some? then [TargetDelayMs((diff - stored.value) * 1000.0)] else []
  }

  class TimeDiffCalculator {
    /** Offset in seconds of the last reference message, if any. */
    var referenceDelayTime: Option<real>

    constructor ()
      ensures referenceDelayTime == None
    {
      referenceDelayTime := None;
    }

    method ReferenceCallback(nowNs: int, msg: Msg) returns (published: seq<Publication>)
      modifies this
      ensures HeaderStamp(msg).None? ==> published == [] && referenceDelayTime == old(referenceDelayTime)
      ensures HeaderStamp(msg).Some? ==>
        var diff := OffsetSeconds(nowNs, HeaderStamp(msg).value);
        && |published| == (if old(referenceDelayTime).Some? then 2 else 1)
        && published[0] == ReferenceDiff(diff)
        && (old(referenceDelayTime).Some? ==>
              published[1] == ReferenceDiffDiffMs((old(referenceDelayTime).value - diff) * 1000.0))
        && referenceDelayTime == Some(diff)
      ensures (referenceDelayTime, published) == ReferenceStep(old(referenceDelayTime), nowNs, msg)
    {
      var stamp := HeaderStamp(msg);
      if stamp.None? {
        // AttributeError on msg.header.stamp: logged, nothing published
        published := [];
        return;
      }
      var diffSeconds := OffsetSeconds(nowNs, stamp.value);
      published := [ReferenceDiff(diffSeconds)];
      if referenceDelayTime.Some? {
        published := published + [ReferenceDiffDiffMs((referenceDelayTime.value - diffSeconds) * 1000.0)];
      }
      assert published == ReferenceStep(referenceDelayTime, nowNs, msg).1 by {
        if referenceDelayTime.None? { assert [ReferenceDiff(diffSeconds)] + [] == published; }
      }
      referenceDelayTime := Some(diffSeconds);
    }

    /** Reads the stored reference offset; it has no `modifies` clause,
        so it cannot change the node's state. */
    method TargetCallback(nowNs: int, msg: Msg) returns (published: seq<Publication>)
      ensures HeaderStamp(msg).None? ==> published == []
      ensures HeaderStamp(msg).Some? ==>
        var diff := OffsetSeconds(nowNs, HeaderStamp(msg).value);
        && |published| == (if referenceDelayTime.Some? then 2 else 1)
        && published[0] == TargetDiff(diff)
        && (referenceDelayTime.Some? ==>
              published[1] == TargetDelayMs((diff - referenceDelayTime.value) * 1000.0))
      ensures published == TargetStep(referenceDelayTime, nowNs, msg)
    {
      var stamp := HeaderStamp(msg);
      if stamp.None? {
        published := [];
        return;
      }
      var diffSeconds := OffsetSeconds(nowNs, stamp.value);
      published := [TargetDiff(diffSeconds)];
      if referenceDelayTime.Some? {
        published := published + [TargetDelayMs((diffSeconds - referenceDelayTime.value) * 1000.0)];
      } else {
        assert published == [TargetDiff(diffSeconds)] + [];
      }
    }
  }

  // ---------------------------------------------------------------------
  // Sequences of callbacks, as the executor delivers them one at a time.

  datatype Callback = OnReference(nowNs: int, msg: Msg) | OnTarget(nowNs: int, msg: Msg)

  function Step(stored: Option<real>, c: Callback): (Option<real>, seq<Publication>)
  {
    match c
    case OnReference(nowNs, msg) => ReferenceStep(stored, nowNs, msg)
    case OnTarget(nowNs, msg) => (stored, TargetStep(stored, nowNs, msg))
  }

  /** The stored offset and everything published, in order, after running
      the callbacks `cs` on a node whose stored offset was `stored`. */
  function Run(stored: Option<real>, cs: seq<Callback>): (Option<real>, seq<Publication>)
    decreases |cs|
  {
    if cs == [] then (stored, [])
    else
      var before := Run(stored, cs[..|cs| - 1]);
      var after := Step(before.0, cs[|cs| - 1]);
      (after.0, before.1 + after.1)
  }

  predicate IsStampedReference(c: Callback)
  {
    c.OnReference? && HeaderStamp(c.msg).Some?
  }

  /** The offset of the last reference message that carried a stamp. */
  function LastReferenceOffset(cs: seq<Callback>): (r: Option<real>)
    ensures r.None? <==> forall j :: 0 <= j < |cs| ==> !IsStampedReference(cs[j])
    decreases |cs|
  {
    if cs == [] then None
    else
      var c := cs[|cs| - 1];
      if IsStampedReference(c) then Some(OffsetSeconds(c.nowNs, HeaderStamp(c.msg).value))
      else LastReferenceOffset(cs[..|cs| - 1])
  }

  /** The offsets of the reference messages that carried a stamp, in arrival order. */
  function ReferenceOffsetsOf(cs: seq<Callback>): seq<real>
    decreases |cs|
  {
    if cs == [] then []
    else
      var c := cs[|cs| - 1];
      ReferenceOffsetsOf(cs[..|cs| - 1])
        + if IsStampedReference(c) then [OffsetSeconds(c.nowNs, HeaderStamp(c.msg).value)] else []
  }

  /** The values published on `reference_diff`, in order. */
  function PublishedOffsets(pubs: seq<Publication>): seq<real>
    decreases |pubs|
  {
    if pubs == [] then []
    else
      PublishedOffsets(pubs[..|pubs| - 1])
        + if pubs[|pubs| - 1].ReferenceDiff? then [pubs[|pubs| - 1].seconds] else []
  }

  /** The values published on `reference_diff_diff_ms`, in order. */
  function PublishedJitters(pubs: seq<Publication>): seq<real>
    decreases |pubs|
  {
    if pubs == [] then []
    else
      PublishedJitters(pubs[..|pubs| - 1])
        + if pubs[|pubs| - 1].ReferenceDiffDiffMs? then [pubs[|pubs| - 1].ms] else []
  }

  /** Successive differences of a series of offsets, in milliseconds:
      one fewer than there are offsets. */
  function SuccessiveDrops(offsets: seq<real>): (r: seq<real>)
    ensures |r| == if |offsets| < 2 then 0 else |offsets| - 1
  {
    if |offsets| < 2 then []
    else seq(|offsets| - 1, i requires 0 <= i < |offsets| - 1 => (offsets[i] - offsets[i + 1]) * 1000.0)
  }

  function Seed(stored: Option<real>): seq<real>
  {
    if stored.Some? then [stored.value] else []
  }

  lemma {:induction false} PublishedOffsetsAppend(a: seq<Publication>, b: seq<Publication>)
    ensures PublishedOffsets(a + b) == PublishedOffsets(a) + PublishedOffsets(b)
    decreases |b|
  {
    if b == [] {
      assert a + b == a;
    } else {
      var n := |b| - 1;
      assert (a + b)[..|a + b| - 1] == a + b[..n];
      PublishedOffsetsAppend(a, b[..n]);
    }
  }

  lemma {:induction false} PublishedJittersAppend(a: seq<Publication>, b: seq<Publication>)
    ensures PublishedJitters(a + b) == PublishedJitters(a) + PublishedJitters(b)
    decreases |b|
  {
    if b == [] {
      assert a + b == a;
    } else {
      var n := |b| - 1;
      assert (a + b)[..|a + b| - 1] == a + b[..n];
      PublishedJittersAppend(a, b[..n]);
    }
  }

  lemma SuccessiveDropsSnoc(offsets: seq<real>, x: real)
    requires offsets != []
    ensures SuccessiveDrops(offsets + [x]) == SuccessiveDrops(offsets) + [(offsets[|offsets| - 1] - x) * 1000.0]
  {
    var s := offsets + [x];
    var lhs := SuccessiveDrops(s);
    var rhs := SuccessiveDrops(offsets) + [(offsets[|offsets| - 1] - x) * 1000.0];
    assert |lhs| == |rhs|;
    forall i | 0 <= i < |lhs| ensures lhs[i] == rhs[i] {
      if i < |offsets| - 1 {
        assert s[i] == offsets[i] && s[i + 1] == offsets[i + 1];
      }
    }
  }

  lemma PublishedOfOne(p: Publication)
    ensures PublishedOffsets([p]) == if p.ReferenceDiff? then [p.seconds] else []
    ensures PublishedJitters([p]) == if p.ReferenceDiffDiffMs? then [p.ms] else []
  {
    assert [p][..0] == [];
  }

  /** What one callback contributes to the `reference_diff` and
      `reference_diff_diff_ms` series, and the stored offset after it. */
  lemma StepSeries(stored: Option<real>, c: Callback)
    ensures IsStampedReference(c) ==>
      var d := OffsetSeconds(c.nowNs, HeaderStamp(c.msg).value);
      && PublishedOffsets(Step(stored, c).1) == [d]
      && PublishedJitters(Step(stored, c).1)
         == (if stored.Some? then [(stored.value - d) * 1000.0] else [])
      && Step(stored, c).0 == Some(d)
    ensures !IsStampedReference(c) ==>
      && PublishedOffsets(Step(stored, c).1) == []
      && PublishedJitters(Step(stored, c).1) == []
      && Step(stored, c).0 == stored
  {
    var out := Step(stored, c).1;
    if out != [] {
      PublishedOfOne(out[0]);
      if |out| == 2 {
        PublishedOfOne(out[1]);
        assert out == [out[0]] + [out[1]];
        PublishedOffsetsAppend([out[0]], [out[1]]);
        PublishedJittersAppend([out[0]], [out[1]]);
      } else {
        assert out == [out[0]];
      }
    }
  }

  /** The same step, seen only through the two published series and the
      stored offset: at most one new offset, which becomes the stored one,
      and a jitter exactly when an offset was stored before. */
  lemma StepShape(stored: Option<real>, c: Callback)
    ensures var offs := PublishedOffsets(Step(stored, c).1);
            var jits := PublishedJitters(Step(stored, c).1);
      || (offs == [] && jits == [] && Step(stored, c).0 == stored)
      || (&& |offs| == 1
          && jits == (if stored.Some? then [(stored.value - offs[0]) * 1000.0] else [])
          && Step(stored, c).0 == Some(offs[0]))
  {
    StepSeries(stored, c);
  }

  /** Over any run, the published `reference_diff` values are exactly the
      offsets of the stamped reference messages, in arrival order. */
  lemma {:induction false} RunPublishesReferenceOffsets(stored: Option<real>, cs: seq<Callback>)
    ensures PublishedOffsets(Run(stored, cs).1) == ReferenceOffsetsOf(cs)
    decreases |cs|
  {
    if cs != [] {
      var n := |cs| - 1;
      RunPublishesReferenceOffsets(stored, cs[..n]);
      var before := Run(stored, cs[..n]);
      var after := Step(before.0, cs[n]);
      assert Run(stored, cs).1 == before.1 + after.1;
      PublishedOffsetsAppend(before.1, after.1);
      StepSeries(before.0, cs[n]);
    }
  }

  function LastOf(s: seq<real>): Option<real>
  {
    if s == [] then None else Some(s[|s| - 1])
  }

  /** The stored offset is always the last value published on
      `reference_diff`, or the initial one while there is none. */
  lemma {:induction false} StoredIsLastPublishedOffset(stored: Option<real>, cs: seq<Callback>)
    ensures Run(stored, cs).0 == LastOf(Seed(stored) + PublishedOffsets(Run(stored, cs).1))
    decreases |cs|
  {
    if cs == [] {
      assert Seed(stored) + [] == Seed(stored);
    } else {
      var n := |cs| - 1;
      StoredIsLastPublishedOffset(stored, cs[..n]);
      var before := Run(stored, cs[..n]);
      var after := Step(before.0, cs[n]);
      assert Run(stored, cs) == (after.0, before.1 + after.1);
      PublishedOffsetsAppend(before.1, after.1);
      StepShape(before.0, cs[n]);
      LastOfStep(Seed(stored), PublishedOffsets(before.1), before.0, PublishedOffsets(after.1), after.0);
    }
  }

  /** The induction step of the stored-offset lemma, on the series alone. */
  lemma LastOfStep(seed: seq<real>, offsets: seq<real>, stored: Option<real>,
                   newOffsets: seq<real>, newStored: Option<real>)
    requires stored == LastOf(seed + offsets)
    requires (newOffsets == [] && newStored == stored) || (|newOffsets| == 1 && newStored == Some(newOffsets[0]))
    ensures newStored == LastOf(seed + (offsets + newOffsets))
  {
    assert seed + (offsets + newOffsets) == (seed + offsets) + newOffsets;
    if newOffsets == [] {
      assert (seed + offsets) + newOffsets == seed + offsets;
    }
  }

  /** Jitter over any run: the `reference_diff_diff_ms` values are the
      successive differences of the stored offset followed by the published
      `reference_diff` values, target callbacks in between notwithstanding. */
  lemma {:induction false} RunJitterIsSuccessiveDrops(stored: Option<real>, cs: seq<Callback>)
    ensures PublishedJitters(Run(stored, cs).1)
         == SuccessiveDrops(Seed(stored) + PublishedOffsets(Run(stored, cs).1))
    decreases |cs|
  {
    if cs == [] {
      assert Seed(stored) + [] == Seed(stored);
    } else {
      var n := |cs| - 1;
      var before := Run(stored, cs[..n]);
      var after := Step(before.0, cs[n]);
      assert Run(stored, cs).1 == before.1 + after.1;
      RunJitterIsSuccessiveDrops(stored, cs[..n]);
      StoredIsLastPublishedOffset(stored, cs[..n]);
      PublishedOffsetsAppend(before.1, after.1);
      PublishedJittersAppend(before.1, after.1);
      StepShape(before.0, cs[n]);
      JitterStep(Seed(stored), PublishedOffsets(before.1), PublishedJitters(before.1), before.0,
                 PublishedOffsets(after.1), PublishedJitters(after.1));
    }
  }

  /** The induction step of the jitter lemma, on the series alone. */
  lemma JitterStep(seed: seq<real>, offsets: seq<real>, jitters: seq<real>, stored: Option<real>,
                   newOffsets: seq<real>, newJitters: seq<real>)
    requires jitters == SuccessiveDrops(seed + offsets)
    requires stored == LastOf(seed + offsets)
    requires (newOffsets == [] && newJitters == [])
          || (|newOffsets| == 1 && newJitters == (if stored.Some? then [(stored.value - newOffsets[0]) * 1000.0] else []))
    ensures jitters + newJitters == SuccessiveDrops(seed + (offsets + newOffsets))
  {
    var seen := seed + offsets;
    assert seed + (offsets + newOffsets) == seen + newOffsets;
    if newOffsets == [] {
      assert seen + newOffsets == seen;
      assert jitters + newJitters == jitters;
    } else if stored.Some? {
      SuccessiveDropsSnoc(seen, newOffsets[0]);
      assert newOffsets == [newOffsets[0]];
    } else {
      assert seen + newOffsets == newOffsets;
    }
  }

  /** From a fresh node: the n-th jitter (n >= 2) is `(o(n-1) - o(n)) * 1000`
      over the offsets of the stamped reference messages, and there is none
      for the first one. */
  lemma JitterFromFreshNode(cs: seq<Callback>)
    ensures var offsets := ReferenceOffsetsOf(cs);
      && PublishedJitters(Run(None, cs).1) == SuccessiveDrops(offsets)
      && |PublishedJitters(Run(None, cs).1)| == if |offsets| < 2 then 0 else |offsets| - 1
  {
    RunJitterIsSuccessiveDrops(None, cs);
    RunPublishesReferenceOffsets(None, cs);
    assert Seed(None) + ReferenceOffsetsOf(cs) == ReferenceOffsetsOf(cs);
  }

  /** From a fresh node, the stored offset is that of the last stamped
      reference message, or none before any. */
  lemma {:induction false} StoredIsLastReferenceOffset(cs: seq<Callback>)
    ensures Run(None, cs).0 == LastReferenceOffset(cs)
    decreases |cs|
  {
    if cs != [] {
      StoredIsLastReferenceOffset(cs[..|cs| - 1]);
    }
  }

  /** Skew is causal: a stamped target message publishes its own offset and,
      exactly when some stamped reference message came before it, the
      difference to the MOST RECENT reference offset. In particular a target
      message before any reference message publishes no `target_delay_ms`. */
  lemma SkewUsesMostRecentReference(cs: seq<Callback>, i: nat)
    requires i < |cs| && cs[i].OnTarget? && HeaderStamp(cs[i].msg).Some?
    ensures var t := OffsetSeconds(cs[i].nowNs, HeaderStamp(cs[i].msg).value);
      Step(Run(None, cs[..i]).0, cs[i]).1
        == [TargetDiff(t)] + match LastReferenceOffset(cs[..i])
                             case None => []
                             case Some(o) => [TargetDelayMs((t - o) * 1000.0)]
    ensures (exists p :: p in Step(Run(None, cs[..i]).0, cs[i]).1 && p.TargetDelayMs?)
        <==> (exists j :: 0 <= j < i && IsStampedReference(cs[j]))
  {
    StoredIsLastReferenceOffset(cs[..i]);
    var out := Step(Run(None, cs[..i]).0, cs[i]).1;
    if LastReferenceOffset(cs[..i]).Some? {
      var j :| 0 <= j < i && IsStampedReference(cs[..i][j]);
      assert cs[..i][j] == cs[j];
      assert out[1].TargetDelayMs?;
    } else {
      forall j | 0 <= j < i ensures !IsStampedReference(cs[j]) {
        assert cs[..i][j] == cs[j];
      }
    }
  }

  /** Reference offsets 0.010, 0.012, 0.009 s give jitters -2.0 ms and 3.0 ms. */
  lemma LiveJitterExample(h1: Msg, h2: Msg, h3: Msg)
    requires HeaderStamp(h1) == Some(Stamp(100, 0))
    requires HeaderStamp(h2) == Some(Stamp(200, 0))
    requires HeaderStamp(h3) == Some(Stamp(300, 0))
    ensures var cs := [OnReference(100_010_000_000, h1), OnReference(200_012_000_000, h2),
                       OnReference(300_009_000_000, h3)];
      PublishedJitters(Run(None, cs).1) == [-2.0, 3.0]
  {
    var cs := [OnReference(100_010_000_000, h1), OnReference(200_012_000_000, h2),
               OnReference(300_009_000_000, h3)];
    JitterFromFreshNode(cs);
    assert cs[..2][..1] == cs[..1] && cs[..1][..0] == [] && cs[..3] == cs;
    assert ReferenceOffsetsOf(cs[..1]) == [0.01];
    assert ReferenceOffsetsOf(cs[..2]) == [0.01, 0.012];
    assert ReferenceOffsetsOf(cs) == [0.01, 0.012, 0.009];
  }
}
