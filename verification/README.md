# Smoker probe bridge: the notification decoder

This project models the notification callback of a small gateway that
bridges a Bluetooth LE meat-smoker thermometer to an MQTT broker. The BLE
device pushes notification frames. The callback `bt_callback` checks the
frame for the marker `0x55 0x00`. It then reads six 16-bit big-endian probe
slots at offsets 2, 4, …, 12, skips the slots holding `0xFFFF` (no probe
plugged in), and publishes each remaining reading to `smoker/probes/{n}`.
Each reading is in tenths of a degree Celsius and is published converted
to Fahrenheit with one decimal.

The model separates the broker from the decoding. Instead of calling
`mqtt_client.publish`, the decoder returns the publishes it would issue, as
`(topic, payload, retain)` entries, in order.

- `Bytes`: a `byte` newtype for Python `bytes` elements. `ByteArrToShort` is
  modelled with Python's `<<` and `|` on non-negative ints (`ShiftLeft`,
  `BitOr`) and proved equal to the big-endian value.
- `Decimal`: the digits of a non-negative int and the `{x:.1f}` rendering of
  a whole number of tenths, each with a parser and a round-trip lemma.
- `Notification`: the frame check, the slot reading, the conversion and the
  topic. `SlotsFrom` and `Decode` are the specification functions.
  `BtCallback` and `PublishSlots` run the callback step by step, with the
  `for i in range(6)` loop appending to the output sequence, and are proved
  equal to `Decode`.
- `NotificationProperties`: what a frame produces. This covers the marker
  check, the exact fault condition, that only bytes 0..13 are read, one
  publish per live slot, the skipped sentinel, the payload value, probe
  order, distinct topics and `retain=False`, plus one worked frame.

Short frames follow the code, not the intent. Python raises `IndexError`
when the callback indexes past the end of the frame. This happens for a
one-byte frame `[0x55]`, because `bytes[1]` is evaluated. It also happens
for a marker-valid frame shorter than 14 bytes, at the first slot whose low
byte is missing, and the publishes for the earlier slots have already been
issued. `Decode` returns `Outcome(published, status)`: the publishes issued
and `Completed` or `IndexError`. `DecodeFaultIff` states exactly when the
fault happens.

Other variants of this bridge publish `/connected` topics, a `0` for an
absent probe and a heartbeat. The code modelled here does not:
- it publishes only the temperature, to `smoker/probes/{n}`;
- it publishes nothing for an absent probe;
- it has no `/connected` topics, no `bt-connected` flag and no heartbeat;
- it does not treat a short marker-valid frame as a recoverable error: the
  callback raises part-way through the loop.

## Model

| member | source | states |
|---|---|---|
| Bytes.ShiftLeft | read-and-publish-temps.py:15 | Python's `<<` on a non-negative int. No ensures of its own; `BitOrDisjoint` and `ByteArrToShort` state what it contributes to the read |
| Bytes.BitOr | read-and-publish-temps.py:15 | Python's bitwise OR on non-negative ints, bit by bit. No ensures of its own; `BitOrDisjoint` states that on disjoint bits it is addition, and `ByteArrToShort` that the read is big-endian |
| Bytes.ByteArrToShort | read-and-publish-temps.py:14-15 | the OR of `bArr[i+1]` and `bArr[i] << 8` equals `bArr[i]*256 + bArr[i+1]` (big-endian) and is at most 0xFFFF |
| Bytes.BitOrDisjoint | read-and-publish-temps.py:15 | OR of a value below 2^k with a multiple of 2^k is their sum, which is why the OR in `byteArrToShort` acts as addition |
| Bytes.ShortRoundTrip | read-and-publish-temps.py:14-15 | reading the two big-endian bytes of any 16-bit value gives the value back |
| Bytes.BytesRoundTrip | read-and-publish-temps.py:14-15 | the value read from two bytes re-encodes to exactly those two bytes, so the read loses nothing |
| Decimal.NatToDecimal | read-and-publish-temps.py:24-25 | Python's `str(n)`, used for `{i+1}` and the whole part of `.1f`. No ensures of its own; `NatToDecimalWellFormed` and `DecimalRoundTrip` pin the text down |
| Decimal.NatToDecimalWellFormed | read-and-publish-temps.py:24-25 | the decimal text of an int is non-empty, all digits, with no leading zero |
| Decimal.DecimalRoundTrip | read-and-publish-temps.py:24-25 | parsing the decimal text of `n` gives `n` |
| Decimal.DecimalInjective | read-and-publish-temps.py:25 | distinct numbers print as distinct texts |
| Decimal.FormatTenths | read-and-publish-temps.py:24 | `f"{tempF:.1f}"` for a whole number of tenths. No ensures of its own; `TenthsRoundTrip` and `NatToDecimalWellFormed` pin the text down |
| Decimal.TenthsRoundTrip | read-and-publish-temps.py:24 | the one-decimal rendering `{x:.1f}` of a number of tenths parses back to the same tenths: exactly one digit after the point, nothing lost |
| Notification.ProbeTopic | read-and-publish-temps.py:25 | `f"smoker/probes/{i+1}"`. No ensures of its own; `TopicRoundTrip` states that it names the probe it was built from |
| Notification.TopicRoundTrip | read-and-publish-temps.py:25 | the topic `smoker/probes/{n}` names probe `n` |
| Notification.FahrenheitTenths | read-and-publish-temps.py:22-24 | the published tenths of °F are within less than half a tenth of the exact `v/10*9/5+32` (that is, `18v+3200` hundredths) |
| Notification.NoRoundingTie | read-and-publish-temps.py:22-24 | `18v+3200` hundredths has an even last digit, so it never ends in 5 (no rounding tie) and lies at least one hundredth from a rounding boundary |
| Notification.FahrenheitTenthsUnique | read-and-publish-temps.py:22-24 | exactly one number of tenths is that close to the exact value, so the rounding is unambiguous |
| Notification.SlotValue | read-and-publish-temps.py:20 | `byteArrToShort(bytes, (i * 2) + 2)`. No ensures of its own; `SlotValueOfBytes` states it is the big-endian value of bytes `2+2i` and `3+2i` |
| Notification.ProbePublish | read-and-publish-temps.py:25 | the `publish(topic, payload, retain=False)` call for one slot. No ensures of its own; `ProbePublishReadsBack` states its topic, payload and retain flag |
| Notification.ProbePublishReadsBack | read-and-publish-temps.py:22-25 | a slot's publish names probe `i+1`, carries the converted reading, and is not retained |
| Notification.SlotsFrom | read-and-publish-temps.py:19-25 | the slot loop from slot `i` issues at most `6 - i` publishes |
| Notification.Decode | read-and-publish-temps.py:17-25 | the callback issues at most six publishes, and none for a frame without the `0x55 0x00` marker |
| Notification.BtCallback | read-and-publish-temps.py:17-25 | the step-by-step callback, marker test included, issues exactly `Decode`'s publishes and ends with its status |
| Notification.PublishSlots | read-and-publish-temps.py:19-25 | the `for i in range(6)` loop appends exactly the publishes of `SlotsFrom(frame, 0)` and stops at the first IndexError |
| NotificationProperties.SlotsFromFollowLiveSlots | read-and-publish-temps.py:19-25 | publish `k` of the loop is the publish of the `k`-th readable, non-sentinel slot |
| NotificationProperties.LiveSlotsIncreasing | read-and-publish-temps.py:19 | slots are visited in increasing order |
| NotificationProperties.LiveSlotsMembership | read-and-publish-temps.py:19-21 | a slot is published exactly when it is read before any fault and is not 0xFFFF |
| NotificationProperties.UnmarkedFrameIgnored | read-and-publish-temps.py:18 | a frame lacking the `0x55 0x00` marker (other than a lone `0x55`) produces no publish and no error |
| NotificationProperties.SlotsFromFaultIff | read-and-publish-temps.py:19-20 | the slot loop raises IndexError exactly when the frame is shorter than 14 bytes |
| NotificationProperties.DecodeFaultIff | read-and-publish-temps.py:15-20 | the callback raises IndexError exactly for `[0x55]` and for a marker-valid frame shorter than 14 bytes |
| NotificationProperties.SlotsFromReadsFirst14 | read-and-publish-temps.py:19-20 | frames agreeing on bytes 0..13 give the same slot-loop outcome |
| NotificationProperties.OnlyFirst14BytesRead | read-and-publish-temps.py:18-20 | only bytes 0..13 of a frame are ever read: two frames of at least 14 bytes with the same first 14 bytes decode identically |
| NotificationProperties.PublishesFollowLiveSlots | read-and-publish-temps.py:19-25 | for a marker-valid frame, the publishes are those of the live slots, one each, in slot order |
| NotificationProperties.PublishCount | read-and-publish-temps.py:19-25 | the number of publishes equals the number of readable non-sentinel slots (0 for an unmarked frame), hence at most 6 |
| NotificationProperties.AbsentProbeNotPublished | read-and-publish-temps.py:21 | a slot holding 0xFFFF produces no publish on its probe's topic |
| NotificationProperties.LiveProbePublished | read-and-publish-temps.py:21-25 | a readable slot of a marker-valid frame holding any other value is published with its converted reading |
| NotificationProperties.LiveSlotPublishDescribesIt | read-and-publish-temps.py:22-25 | the publish of a live slot names a probe 1..6 whose reading it carries, non-retained |
| NotificationProperties.EveryPublishDescribesItsProbe | read-and-publish-temps.py:19-25 | every publish names a probe 1..6 that holds a reading, carries exactly the `{x:.1f}` text of that reading in °F, and has `retain=False` |
| NotificationProperties.PublishesInProbeOrder | read-and-publish-temps.py:19-25 | publishes come out in strictly increasing probe number, so no topic repeats within a frame |
| NotificationProperties.BoilingPointText | read-and-publish-temps.py:22-24 | a raw 1000 (100.0 °C) is published as `"212.0"` |
| NotificationProperties.SlotValueOfBytes | read-and-publish-temps.py:20 | slot `i` holds the big-endian value of bytes `2+2i` and `3+2i` |
| NotificationProperties.OneProbeAt100Celsius | read-and-publish-temps.py:17-25 | a frame with probe 1 at 0x03E8 and five absent probes yields exactly one publish: `smoker/probes/1`, `"212.0"`, not retained |

## Left out

- FahrenheitTenths: computes the conversion exactly on integers instead of with IEEE doubles. The exact value `18v+3200` hundredths is even, so its hundredths digit is 0, 2, 4, 6 or 8 and the exact value is never within 0.01 °F of a rounding boundary (for example v = 3, 32.54 °F against the boundary 32.55; every v that leaves 2 or 3 on division by 5 is as close). The four double operations err by about 1e-11 at most for 16-bit readings, far less than that margin, so the printed digits agree. That last step is an argument, not a proof.
- The `print` of each reading (line 26): console output only.
- The broker call itself (line 25): each `mqtt_client.publish` is an entry in the returned sequence. Delivery, QoS and a publish while disconnected belong to the MQTT client library and are not part of this model.
- What happens to the IndexError once it leaves the callback: the BLE library dispatching the notification is not part of this model. The model records the fault and the publishes issued before it.
- `bt_connect` (lines 28-40): the BLE connection, notification subscription and waiting for a disconnect are asynchronous I/O driven by callbacks.
- `mqtt_on_connect`, `mqtt_on_disconnect`, `main` and the client setup (lines 5-12, 43-58): network-client plumbing and an endless reconnect loop with no functional result.
- The `sender` argument of the callback is never used and is not modelled.
