/**
 * What the notification callback promises, stated about Decode (and so,
 * through BtCallback's postcondition, about the loop that runs it).
 */
module NotificationProperties {
  import opened Wrappers
  import opened Bytes
  import opened Decimal
  import opened Notification

  // ---------------------------------------------------------------------
  // The slots that produce a publish

  /** From slot `i` on: the slots the loop reads before any IndexError whose value is not the sentinel. */
  ghost function LiveSlots(frame: seq<byte>, i: nat): seq<nat>
    requires i <= ProbeSlots
    decreases ProbeSlots - i
  {
    if i == ProbeSlots || !SlotReadable(frame, i) then []
    else if SlotValue(frame, i) == AbsentProbe then LiveSlots(frame, i + 1)
    else [i] + LiveSlots(frame, i + 1)
  }

  /** The slots of a frame that carry a probe reading. */
  ghost function LiveProbes(frame: seq<byte>): set<nat>
  {
    set j: nat | j < ProbeSlots && SlotReadable(frame, j) && SlotValue(frame, j) != AbsentProbe
  }

  /** Publish `k` of the loop from slot `i` on is the publish for the `k`-th live slot. */
  lemma {:induction false} SlotsFromFollowLiveSlots(frame: seq<byte>, i: nat)
    requires i <= ProbeSlots
    ensures |SlotsFrom(frame, i).published| == |LiveSlots(frame, i)|
    ensures forall k :: 0 <= k < |LiveSlots(frame, i)| ==>
      var j := LiveSlots(frame, i)[k];
      i <= j < ProbeSlots && SlotReadable(frame, j) && SlotValue(frame, j) != AbsentProbe &&
      SlotsFrom(frame, i).published[k] == ProbePublish(j, SlotValue(frame, j))
    decreases ProbeSlots - i
  {
    if i < ProbeSlots && SlotReadable(frame, i) {
      SlotsFromFollowLiveSlots(frame, i + 1);
    }
  }

  /** The live slots come in increasing order. */
  lemma {:induction false} LiveSlotsIncreasing(frame: seq<byte>, i: nat)
    requires i <= ProbeSlots
    ensures forall k :: 0 <= k < |LiveSlots(frame, i)| ==> i <= LiveSlots(frame, i)[k]
    ensures forall a, b :: 0 <= a < b < |LiveSlots(frame, i)| ==> LiveSlots(frame, i)[a] < LiveSlots(frame, i)[b]
    decreases ProbeSlots - i
  {
    if i < ProbeSlots && SlotReadable(frame, i) {
      LiveSlotsIncreasing(frame, i + 1);
    }
  }

  /** A slot at or after `i` is live exactly when it is readable and not the sentinel. */
  lemma {:induction false} LiveSlotsMembership(frame: seq<byte>, i: nat, j: nat)
    requires i <= ProbeSlots
    ensures j in LiveSlots(frame, i) <==>
      i <= j < ProbeSlots && SlotReadable(frame, j) && SlotValue(frame, j) != AbsentProbe
    decreases ProbeSlots - i
  {
    if i < ProbeSlots && SlotReadable(frame, i) {
      LiveSlotsMembership(frame, i + 1, j);
    } else if i < ProbeSlots {
      // an unreadable slot leaves every later slot unreadable too
      assert j >= i ==> !SlotReadable(frame, j);
    }
  }

  ghost function Elements(s: seq<nat>): set<nat>
  {
    set x | x in s
  }

  /** A sequence of distinct naturals has as many elements as its set. */
  lemma {:induction false} IncreasingCard(s: seq<nat>)
    requires forall a, b :: 0 <= a < b < |s| ==> s[a] < s[b]
    ensures |Elements(s)| == |s|
  {
    if s != [] {
      IncreasingCard(s[1..]);
      var rest := Elements(s[1..]);
      assert Elements(s) == {s[0]} + rest;
      forall x | x in rest
        ensures s[0] < x
      {
        var k :| 0 <= k < |s[1..]| && s[1..][k] == x;
        assert s[k + 1] == x;
      }
      assert |{s[0]} + rest| == |rest| + 1;
    }
  }

  // ---------------------------------------------------------------------
  // Frame check and faults

  /** A frame without the leading 0x55 0x00 produces no publish and no error, except a lone 0x55. */
  lemma UnmarkedFrameIgnored(frame: seq<byte>)
    requires !MarkerValid(frame)
    requires frame != [MarkerFirst]
    ensures Decode(frame) == Outcome([], Completed)
  {
  }

  /** The loop from slot `i` faults exactly when the frame ends before byte 13. */
  lemma {:induction false} SlotsFromFaultIff(frame: seq<byte>, i: nat)
    requires i <= ProbeSlots
    ensures SlotsFrom(frame, i).status == IndexError <==> i < ProbeSlots && |frame| < 14
    decreases ProbeSlots - i
  {
    if i < ProbeSlots && SlotReadable(frame, i) {
      SlotsFromFaultIff(frame, i + 1);
    }
  }

  /**
   * The callback raises IndexError exactly for a lone 0x55 byte and for a
   * marker-valid frame shorter than 14 bytes.
   */
  lemma DecodeFaultIff(frame: seq<byte>)
    ensures Decode(frame).status == IndexError <==>
      frame == [MarkerFirst] || (MarkerValid(frame) && |frame| < 14)
  {
    if MarkerValid(frame) {
      SlotsFromFaultIff(frame, 0);
    }
  }

  /** The loop from slot `i` on reads nothing past byte 13. */
  lemma {:induction false} SlotsFromReadsFirst14(f: seq<byte>, g: seq<byte>, i: nat)
    requires i <= ProbeSlots
    requires |f| >= 14 && |g| >= 14 && forall k :: 0 <= k < 14 ==> f[k] == g[k]
    ensures SlotsFrom(f, i) == SlotsFrom(g, i)
    decreases ProbeSlots - i
  {
    if i < ProbeSlots {
      SlotsFromReadsFirst14(f, g, i + 1);
      assert SlotValue(f, i) == SlotValue(g, i);
      SlotsFromStep(f, i);
      SlotsFromStep(g, i);
    }
  }

  /** Only bytes 0..13 of a frame matter: bytes after them change nothing. */
  lemma OnlyFirst14BytesRead(f: seq<byte>, g: seq<byte>)
    requires |f| >= 14 && |g| >= 14 && f[..14] == g[..14]
    ensures Decode(f) == Decode(g)
  {
    forall k | 0 <= k < 14
      ensures f[k] == g[k]
    {
      assert f[k] == f[..14][k] && g[k] == g[..14][k];
    }
    SlotsFromReadsFirst14(f, g, 0);
  }

  // ---------------------------------------------------------------------
  // What is published

  /** The publishes are those of the live slots, one each, in slot order. */
  lemma PublishesFollowLiveSlots(frame: seq<byte>)
    requires MarkerValid(frame)
    ensures |Decode(frame).published| == |LiveSlots(frame, 0)|
    ensures forall k :: 0 <= k < |LiveSlots(frame, 0)| ==>
      var j := LiveSlots(frame, 0)[k];
      j < ProbeSlots && SlotReadable(frame, j) && SlotValue(frame, j) != AbsentProbe &&
      Decode(frame).published[k] == ProbePublish(j, SlotValue(frame, j))
  {
    SlotsFromFollowLiveSlots(frame, 0);
  }

  /** One publish per slot holding a probe reading, so never more than six. */
  lemma PublishCount(frame: seq<byte>)
    ensures |Decode(frame).published| == if MarkerValid(frame) then |LiveProbes(frame)| else 0
    ensures |Decode(frame).published| <= ProbeSlots
  {
    if MarkerValid(frame) {
      PublishesFollowLiveSlots(frame);
      LiveSlotsIncreasing(frame, 0);
      IncreasingCard(LiveSlots(frame, 0));
      forall j: nat
        ensures j in Elements(LiveSlots(frame, 0)) <==> j in LiveProbes(frame)
      {
        LiveSlotsMembership(frame, 0, j);
      }
      assert Elements(LiveSlots(frame, 0)) == LiveProbes(frame);
    }
  }

  /** A slot holding 0xFFFF produces no publish on its probe's topic. */
  lemma AbsentProbeNotPublished(frame: seq<byte>, j: nat)
    requires j < ProbeSlots && SlotReadable(frame, j) && SlotValue(frame, j) == AbsentProbe
    ensures forall p :: p in Decode(frame).published ==> p.topic != ProbeTopic(j + 1)
  {
    if MarkerValid(frame) {
      PublishesFollowLiveSlots(frame);
      var pub := Decode(frame).published;
      var ls := LiveSlots(frame, 0);
      forall k | 0 <= k < |pub|
        ensures pub[k].topic != ProbeTopic(j + 1)
      {
        // equal topics would name the same probe, and slot j is not live
        ProbePublishReadsBack(ls[k], SlotValue(frame, ls[k]));
        TopicRoundTrip(j + 1);
      }
    }
  }

  /** A readable slot holding a reading is published, with its converted temperature. */
  lemma LiveProbePublished(frame: seq<byte>, j: nat)
    requires MarkerValid(frame)
    requires j < ProbeSlots && SlotReadable(frame, j) && SlotValue(frame, j) != AbsentProbe
    ensures ProbePublish(j, SlotValue(frame, j)) in Decode(frame).published
  {
    PublishesFollowLiveSlots(frame);
    LiveSlotsMembership(frame, 0, j);
    var k :| 0 <= k < |LiveSlots(frame, 0)| && LiveSlots(frame, 0)[k] == j;
    assert Decode(frame).published[k] == ProbePublish(j, SlotValue(frame, j));
  }

  /**
   * `p` names a probe 1..6 on its topic, carries that probe's reading in
   * Fahrenheit tenths with one decimal, as exactly the text `{x:.1f}`
   * prints, and is not retained.
   */
  ghost predicate DescribesLiveProbe(frame: seq<byte>, p: Publish)
  {
    match ProbeOfTopic(p.topic)
    case None => false
    case Some(n) =>
      1 <= n <= ProbeSlots && SlotReadable(frame, n - 1) && SlotValue(frame, n - 1) != AbsentProbe &&
      p.payload == FormatTenths(FahrenheitTenths(SlotValue(frame, n - 1))) &&
      ParseTenths(p.payload) == Some(FahrenheitTenths(SlotValue(frame, n - 1))) &&
      !p.retain
  }

  lemma LiveSlotPublishDescribesIt(frame: seq<byte>, j: nat)
    requires j < ProbeSlots && SlotReadable(frame, j) && SlotValue(frame, j) != AbsentProbe
    ensures DescribesLiveProbe(frame, ProbePublish(j, SlotValue(frame, j)))
  {
    ProbePublishReadsBack(j, SlotValue(frame, j));
  }

  /** Every publish describes a live probe of the frame. */
  lemma EveryPublishDescribesItsProbe(frame: seq<byte>)
    ensures forall k :: 0 <= k < |Decode(frame).published| ==> DescribesLiveProbe(frame, Decode(frame).published[k])
  {
    if MarkerValid(frame) {
      PublishesFollowLiveSlots(frame);
      var pub := Decode(frame).published;
      var ls := LiveSlots(frame, 0);
      forall k | 0 <= k < |pub|
        ensures DescribesLiveProbe(frame, pub[k])
      {
        LiveSlotPublishDescribesIt(frame, ls[k]);
      }
    }
  }

  /** Publishes come out in strictly increasing probe order, so no topic repeats. */
  lemma PublishesInProbeOrder(frame: seq<byte>)
    ensures forall a, b :: 0 <= a < b < |Decode(frame).published| ==>
      var ta := Decode(frame).published[a].topic;
      var tb := Decode(frame).published[b].topic;
      ProbeOfTopic(ta).Some? && ProbeOfTopic(tb).Some? &&
      ProbeOfTopic(ta).value < ProbeOfTopic(tb).value && ta != tb
  {
    if MarkerValid(frame) {
      PublishesFollowLiveSlots(frame);
      LiveSlotsIncreasing(frame, 0);
      var pub := Decode(frame).published;
      var ls := LiveSlots(frame, 0);
      forall a, b | 0 <= a < b < |pub|
        ensures ProbeOfTopic(pub[a].topic).Some? && ProbeOfTopic(pub[b].topic).Some? &&
          ProbeOfTopic(pub[a].topic).value < ProbeOfTopic(pub[b].topic).value &&
          pub[a].topic != pub[b].topic
      {
        ProbePublishReadsBack(ls[a], SlotValue(frame, ls[a]));
        ProbePublishReadsBack(ls[b], SlotValue(frame, ls[b]));
      }
    }
  }

  // ---------------------------------------------------------------------
  // A worked frame

  /** 1000 tenths of a degree Celsius (100.0 °C) is published as "212.0". */
  lemma BoilingPointText()
    ensures FormatTenths(FahrenheitTenths(1000)) == "212.0"
  {
    assert FahrenheitTenths(1000) == 2120;
    assert NatToDecimal(212) == "212";
  }

  /** The value of a readable slot, from its two bytes. */
  lemma SlotValueOfBytes(frame: seq<byte>, i: nat, hi: byte, lo: byte)
    requires SlotReadable(frame, i) && frame[SlotOffset(i)] == hi && frame[SlotOffset(i) + 1] == lo
    ensures SlotValue(frame, i) == hi as int * 256 + lo as int
  {
  }

  /**
   * A 14-byte frame whose probe 1 reads 0x03E8 = 1000 (100.0 °C) and whose
   * other five slots hold the sentinel produces exactly one publish:
   * "212.0" on probe 1's topic.
   */
  lemma OneProbeAt100Celsius(frame: seq<byte>)
    requires |frame| == 14 && frame[0] == 0x55 && frame[1] == 0x00
    requires frame[2] == 0x03 && frame[3] == 0xE8
    requires forall k :: 4 <= k < 14 ==> frame[k] == 0xFF
    ensures Decode(frame) == Outcome([Publish("smoker/probes/1", "212.0", false)], Completed)
  {
    SlotValueOfBytes(frame, 0, 0x03, 0xE8);
    SlotsFromStep(frame, 0);
    forall j | 1 <= j < ProbeSlots
      ensures SlotValue(frame, j) == AbsentProbe
    {
      SlotValueOfBytes(frame, j, 0xFF, 0xFF);
    }
    SlotsFromStep(frame, 1);
    SlotsFromStep(frame, 2);
    SlotsFromStep(frame, 3);
    SlotsFromStep(frame, 4);
    SlotsFromStep(frame, 5);
    BoilingPointText();
    assert ProbeTopic(1) == "smoker/probes/1";
  }
}
