/**
 * The notification callback of the smoker bridge: a BLE notification frame
 * goes in, the MQTT publishes the callback issues come out.
 *
 * A frame that starts with the marker 0x55 0x00 carries six probe slots,
 * each a big-endian 16-bit value at offset 2 + 2i. 0xFFFF means the probe is
 * absent and the slot is skipped. Any other value is tenths of a degree
 * Celsius and is published, in Fahrenheit with one decimal, to
 * `smoker/probes/{i+1}`. The broker call becomes an entry in the returned
 * sequence. An index past the end of the frame raises IndexError in the
 * callback; the outcome records that, together with the publishes issued
 * before it.
 */
module Notification {
  import opened Wrappers
  import opened Bytes
  import opened Decimal

  /** The two bytes every recognised frame starts with. */
  const MarkerFirst: byte := 0x55
  const MarkerSecond: byte := 0x00

  /** Number of probe slots in a frame. */
  const ProbeSlots: nat := 6

  /** Slot value meaning "no probe plugged in". */
  const AbsentProbe: nat := 0xFFFF

  const TopicPrefix: string := "smoker/probes/"

  /** One `publish(topic, payload, retain=...)` call. */
  datatype Publish = Publish(topic: string, payload: string, retain: bool)

  /** How the callback ended: normally, or with an IndexError on a short frame. */
  datatype Status = Completed | IndexError

  /** The publishes issued, in order, and how the callback ended. */
  datatype Outcome = Outcome(published: seq<Publish>, status: Status)

  predicate MarkerValid(frame: seq<byte>)
  {
    |frame| >= 2 && frame[0] == MarkerFirst && frame[1] == MarkerSecond
  }

  // ---------------------------------------------------------------------
  // Topics

  /** `f"smoker/probes/{n}"`. */
  function ProbeTopic(n: nat): string
  {
    TopicPrefix + NatToDecimal(n)
  }

  /** The probe number a topic names, if it has the probe-topic shape. */
  function ProbeOfTopic(t: string): Option<nat>
  {
    var rest := if |t| >= |TopicPrefix| then t[|TopicPrefix|..] else [];
    if |t| > |TopicPrefix| && t[..|TopicPrefix|] == TopicPrefix && AllDigits(rest)
    then Some(DecimalValue(rest))
    else None
  }

  /** A probe topic names the probe it was built from. */
  lemma TopicRoundTrip(n: nat)
    ensures ProbeOfTopic(ProbeTopic(n)) == Some(n)
  {
    var t := ProbeTopic(n);
    NatToDecimalWellFormed(n);
    assert t[..|TopicPrefix|] == TopicPrefix;
    assert t[|TopicPrefix|..] == NatToDecimal(n);
    DecimalRoundTrip(n);
  }

  // ---------------------------------------------------------------------
  // Temperature conversion

  /**
   * The callback computes `v / 10 * 9 / 5 + 32` degrees Fahrenheit. Exactly,
   * that is `18 * v + 3200` hundredths of a degree. The formatter rounds it
   * to tenths. The result is the nearest whole number of tenths, strictly
   * less than half a tenth away, so no tie arises.
   */
  function FahrenheitTenths(v: nat): (r: nat)
    ensures -5 < 10 * r - (18 * v + 3200) < 5
  {
    NoRoundingTie(v);
    (18 * v + 3200 + 5) / 10
  }

  /**
   * The exact value in hundredths is even, so its last digit is never 5 and
   * it lies at least one hundredth from a rounding boundary.
   */
  lemma NoRoundingTie(v: nat)
    ensures (18 * v + 3200) % 10 % 2 == 0
    ensures (18 * v + 3200) % 10 != 5
  {
    var x := 18 * v + 3200;
    assert x == 2 * (9 * v + 1600);
  }

  /** Only one number of tenths lies that close to the exact value. */
  lemma FahrenheitTenthsUnique(v: nat, r: nat)
    requires -5 < 10 * r - (18 * v + 3200) < 5
    ensures r == FahrenheitTenths(v)
  {
  }

  // ---------------------------------------------------------------------
  // Slots

  function SlotOffset(i: nat): nat
  {
    i * 2 + 2
  }

  /** Both bytes of slot `i` lie inside the frame. */
  predicate SlotReadable(frame: seq<byte>, i: nat)
  {
    SlotOffset(i) + 1 < |frame|
  }

  function SlotValue(frame: seq<byte>, i: nat): nat
    requires SlotReadable(frame, i)
  {
    ByteArrToShort(frame, SlotOffset(i))
  }

  /** The publish issued for slot `i` holding the non-sentinel value `v`. */
  function ProbePublish(i: nat, v: nat): Publish
  {
    Publish(ProbeTopic(i + 1), FormatTenths(FahrenheitTenths(v)), false)
  }

  /** A probe publish can be read back: its topic names probe `i + 1`, its payload the converted reading. */
  lemma ProbePublishReadsBack(i: nat, v: nat)
    ensures ProbeOfTopic(ProbePublish(i, v).topic) == Some(i + 1)
    ensures ParseTenths(ProbePublish(i, v).payload) == Some(FahrenheitTenths(v))
    ensures !ProbePublish(i, v).retain
  {
    TopicRoundTrip(i + 1);
    TenthsRoundTrip(FahrenheitTenths(v));
  }

  /**
   * What the slot loop does from slot `i` on: slot by slot, a publish for
   * each value other than the sentinel, until slot 6 or until a slot whose
   * low byte lies past the end of the frame (IndexError).
   */
  function SlotsFrom(frame: seq<byte>, i: nat): (o: Outcome)
    requires i <= ProbeSlots
    ensures |o.published| <= ProbeSlots - i
    decreases ProbeSlots - i
  {
    if i == ProbeSlots then Outcome([], Completed)
    else if !SlotReadable(frame, i) then Outcome([], IndexError)
    else
      var rest := SlotsFrom(frame, i + 1);
      var v := SlotValue(frame, i);
      if v == AbsentProbe then rest
      else Outcome([ProbePublish(i, v)] + rest.published, rest.status)
  }

  /** One step of the slot loop, for a slot whose bytes are inside the frame. */
  lemma SlotsFromStep(frame: seq<byte>, i: nat)
    requires i < ProbeSlots && SlotReadable(frame, i)
    ensures var v := SlotValue(frame, i);
      var rest := SlotsFrom(frame, i + 1);
      SlotsFrom(frame, i) == if v == AbsentProbe then rest else Outcome([ProbePublish(i, v)] + rest.published, rest.status)
  {
  }

  /**
   * The whole callback. The marker test checks non-emptiness, then the
   * first byte, then the second, stopping at the first that fails; so a
   * one-byte frame holding 0x55 raises IndexError before any slot is read,
   * and every other frame that fails the test is dropped without a publish.
   */
  function Decode(frame: seq<byte>): (o: Outcome)
    ensures |o.published| <= ProbeSlots
    ensures !MarkerValid(frame) ==> o.published == []
  {
    if |frame| == 0 || frame[0] != MarkerFirst then Outcome([], Completed)
    else if |frame| == 1 then Outcome([], IndexError)
    else if frame[1] != MarkerSecond then Outcome([], Completed)
    else SlotsFrom(frame, 0)
  }

  /**
   * The callback run step by step: the marker test, then the slot loop.
   */
  method BtCallback(frame: seq<byte>) returns (published: seq<Publish>, status: Status)
    ensures Outcome(published, status) == Decode(frame)
  {
    published, status := [], Completed;
    if |frame| > 0 && frame[0] == MarkerFirst {
      if |frame| < 2 {
        status := IndexError;
      } else if frame[1] == MarkerSecond {
        published, status := PublishSlots(frame);
      }
    }
  }

  /**
   * The `for i in range(6)` loop of the callback, appending one entry per
   * publish it issues and stopping at the first IndexError.
   */
  method PublishSlots(frame: seq<byte>) returns (published: seq<Publish>, status: Status)
    ensures Outcome(published, status) == SlotsFrom(frame, 0)
  {
    published, status := [], Completed;
    var i: nat := 0;
    ghost var goal := SlotsFrom(frame, 0);
    while i < ProbeSlots
      invariant i <= ProbeSlots
      invariant goal == Outcome(published + SlotsFrom(frame, i).published, SlotsFrom(frame, i).status)
    {
      var offset := i * 2 + 2;
      if offset + 1 >= |frame| {
        status := IndexError;
        return;
      }
      var tempCShort := ByteArrToShort(frame, offset);
      SlotsFromStep(frame, i);
      if tempCShort != AbsentProbe {
        var tempFString := FormatTenths(FahrenheitTenths(tempCShort));
        var entry := Publish(ProbeTopic(i + 1), tempFString, false);
        assert published + ([entry] + SlotsFrom(frame, i + 1).published)
            == (published + [entry]) + SlotsFrom(frame, i + 1).published;
        published := published + [entry];
      }
      i := i + 1;
    }
  }
}
