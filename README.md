# Wi-Fi test-tool core in Dafny

This project models the logic core of `wifi.py`, the helper library of a
Wi-Fi testing tool built on the scapy packet library. The model covers:

- the frame-field accessors: sequence and fragment number, the
  protected-frame test, the IV rebuilt from a CCMP/TKIP/WEP header, the QoS
  priority and information-element lookup (module `Frames`, `frame.dfy`);
- the IV-reuse engine: `IvInfo` and the `IvCollection` table that maps each
  observed IV to the latest frame seen with it (module `IvReuse`,
  `ivreuse.dfy`);
- the fragment builder `create_fragments` (module `Fragments`,
  `fragments.dfy`);
- `MonitorSocket`: marking injected frames on `send`, and on `recv`
  filtering captures and stripping a trailing Frame Check Sequence (module
  `Monitor`, `monitor.dfy`);
- the verdict rules of the injection self-tests, computed from the captured
  frames, their TIDs or their number (module `InjectionTests`,
  `injection.dfy`).

`common.dfy` (module `Common`) holds the shared vocabulary:
- `Option` and a `Result` type whose error side names the Python exception
  that escapes (`IndexError`, `struct.error`, `AttributeError`, `IOError`,
  `ZeroDivisionError`);
- a bit-by-bit model of Python's `|` on non-negative integers, with the
  lemmas that `SC | i` keeps the high bits.

Conventions:
- A frame is a value (`Frames.Frame`) holding the fields the library has
  already dissected: the flags octet of Frame Control, Sequence Control, an
  optional TID, the encryption header, the trailing raw payload, the
  element chain and the capture time. Sequence Control is an unbounded
  natural number. The 12-bit/4-bit split of section 9.2.4.4 of
  IEEE 802.11-2016 is stated by lemmas, and `Fragments.FragmentScFits`
  shows that 16 bits suffice.
- Octets are `bv8`. `payload_to_iv` and `dot11_get_iv` are modelled as
  reading the raw octets of the encryption header, which is what their
  `ord` and `struct.unpack` calls are meant to do. What these lines do on
  Python 3 is under "Left out".
- The state the source updates in place is a class:
  - `IvCollection.ivs` is a `map`;
  - `MonitorSocket.send` changes the caller's `Packet`.
- Loops stay loops: `create_fragments` and the `it_present` walk of
  `_strip_fcs`. `test_injection_fields` and `test_injection_ack` stay
  imperative methods, because they build their verdict by straight-line
  flag updates. Each loop or method is proved against a specification
  function or spelled-out postconditions.

Behaviour of the code worth knowing:
- `_strip_fcs` and `get_element` are modelled twice, as written and
  corrected (see "Findings"). `MonitorSocket.Recv` and the rest of the
  model use the corrected `StripFcsResult` and `GetElement`.
- `dot11_get_iv` on a plaintext frame logs and returns 0; it does not
  raise.
- The IV is up to 48 bits wide, not a 32-bit value.
- In `test_injection_fields`, a capture of the QoS probe that has lost its
  QoS Control field makes `cap.TID` raise `AttributeError`. The test does
  not report it as overwritten.
- In `test_injection_ack`:
  - Only a single capture of the first probe, or more than two captures of
    the real-sender probe, make the run suspicious.
  - More than two captures of the spoofed-sender probe are only reported.
- `test_injection_order` checks only that some TID 2 and some TID 6 frame
  were captured, not that all four arrived.

## Model

| member | source | states |
|---|---|---|
| Common.BitOr | wifi.py:524 | Python's `a \| b` on non-negative integers is at least each operand and at most their sum |
| Frames.SeqNum | wifi.py:416-417 | the sequence number and fragment number recombine to SC (`16 * seq + frag == SC`), and a 16-bit SC has a 12-bit sequence number |
| Frames.FragNum | wifi.py:169 | the fragment number `SC & 0xf` is below 16 |
| Frames.SeqFragDetermined | wifi.py:416-417 | any split of SC into sixteens and a remainder below 16 is exactly (sequence number, fragment number) |
| Frames.SeqFragExample | wifi.py:416-417 | SC 0x021F has sequence number 0x21 and fragment number 0xF |
| Frames.BE32 | wifi.py:429 | `struct.unpack(">I", b)` of four octets is below 2^32 |
| Frames.PayloadToIv | wifi.py:423-429 | reading the payload as octets, it fails exactly when the payload is shorter than 8 octets: IndexError below 2, struct.error from 2 to 7; otherwise the IV is below 2^48, its low octet is octet 0, its next octet is octet 1, and its bits from 16 up are BE32 of octets 4..7 |
| Frames.PayloadToIvReadsSixOctets | wifi.py:423-429 | two payloads that agree on octets 0, 1 and 4..7 give the same IV, whatever octets 2, 3 and 8 on hold |
| Frames.IsEncryptedData | wifi.py:418-420 | a frame with the Protected Frame bit, or with a dissected CCMP, TKIP, WEP or generic encryption header, is encrypted data; a frame is not encrypted data only when it has neither |
| Frames.GetIv | wifi.py:431-455 | reading the header octets, every IV that is returned is below 2^48 |
| Frames.OnlyEncryptedDataRaises | wifi.py:419-421 | reading the IV can raise only for a frame that `dot11_is_encrypted_data` accepts |
| Frames.PlaintextIvIsZero | wifi.py:453-455 | a frame that is not encrypted data has IV 0, not an exception |
| Frames.TkipReadAsCcmp | wifi.py:436-440 | a TKIP-tagged layer gets exactly the IV of a CCMP-tagged layer with the same octets, that is, `payload_to_iv` of them |
| Frames.WepExtIvIsCcmpLayout | wifi.py:442-446 | with ExtIV set, the WEP branch equals `payload_to_iv` applied to the header octets in wire order (IV, key ID, extended IV) |
| Frames.WepLegacyIvIs24Bit | wifi.py:447-448 | without ExtIV the IV is a 24-bit value whose octets, from the low end, are IV octets 0, 1 and 2 |
| Frames.Priority | wifi.py:466-468 | the TID of the QoS Control field, or 0 when there is none; always below 16 |
| Frames.FirstWithId | wifi.py:459-463 | None exactly when no element from position k on has the ID; otherwise the position of the first such element |
| Frames.GetTlvValue | wifi.py:457-464 | None exactly when no element has the ID (so also without any element); otherwise the info of an element with that ID before which no element has it |
| Frames.GetElement | wifi.py:534-540 | corrected lookup: None exactly when no element has the ID; otherwise an element of the chain with that ID, whose info is what `get_tlv_value` returns |
| Frames.GetElementAsWritten | wifi.py:534-540 | the code as written: IndexError on a frame without elements; AttributeError when there are elements but none has the ID; a result exactly when the corrected lookup finds one, and then the same element |
| Frames.GetElementMissingIdRaises | wifi.py:534-540 | on a chain without the ID, the corrected lookup answers None while the code as written raises AttributeError |
| IvReuse.MakeIvInfo | wifi.py:484-488 | the record holds the frame's IV, sequence number and time, and fails exactly when reading the IV fails, with the same exception |
| IvReuse.IsReused | wifi.py:490-494 | true exactly when the frame has the recorded IV, a different sequence number and a time at least one unit later |
| IvReuse.RetransmissionNotReused | wifi.py:490-494 | a frame with the same IV and sequence number is never flagged |
| IvReuse.DistinctLaterFrameReused | wifi.py:490-494 | a frame with the same IV, another sequence number and at least one time unit later is flagged |
| IvReuse.WithinOneTimeUnitNotReused | wifi.py:490-494 | nothing seen less than one time unit after the record is flagged |
| IvReuse.MaxKey | wifi.py:516 | `max(ivs.keys())` is a key and no key exceeds it |
| IvReuse.IvCollection.constructor | wifi.py:497-498 | a new table is empty |
| IvReuse.IvCollection.Reset | wifi.py:500-501 | the table is empty afterwards |
| IvReuse.IvCollection.TrackUsedIv | wifi.py:503-505 | succeeds exactly when the IV can be read; then the record of that IV is replaced by the frame's record and every other record is kept; on an exception the table is unchanged; every record stays filed under its own IV |
| IvReuse.IvCollection.IsIvReused | wifi.py:507-510 | an untracked IV is never a reuse; a tracked one is judged by `is_reused` against its latest record |
| IvReuse.IvCollection.IsNewIv | wifi.py:512-516 | true exactly when the IV exceeds every tracked IV, which includes the empty table |
| IvReuse.NoveltyAfterFiveNineThree | wifi.py:512-516 | after IVs 5, 9 and 3 were tracked, IV 10 is new and IV 7 is not |
| IvReuse.TrackThenJudge | wifi.py:503-510 | after tracking a frame, the frame itself is not a reuse, and a later frame with its IV and another sequence number is |
| Fragments.Slice | wifi.py:528 | Python slicing `d[lo:hi]`: clamped to the data, empty when it starts past the end |
| Fragments.FragSize | wifi.py:521 | `(len + n - 1) // n` is the ceiling of len / n: n fragments of that size cover the data, and n fragments one octet smaller do not; it is 0 for empty data |
| Fragments.FragmentHeader | wifi.py:522-526 | a fragment header differs from the header only in SC and in the flags octet; SC is `header.SC \| i`; the flags differ at most in More Fragments, which is set on every fragment but the last, and the last keeps the header's flags |
| Fragments.FragmentPayload | wifi.py:521-528 | the slice `data[fragsize * i : fragsize * (i + 1)]` is never longer than `ceil(len(data) / n)`; it is empty once it starts past the data, and full-sized while it ends inside it |
| Fragments.FragmentAt | wifi.py:522-528 | fragment i carries SC `header.SC \| i` and a payload no longer than `ceil(len(data) / n)` |
| Fragments.FragmentsUpTo | wifi.py:520-530 | the first k fragments, one per index below k, each the fragment of its index |
| Fragments.MakeFragment | wifi.py:522-530 | one round of the loop builds exactly fragment i, whose payload is the i-th slice |
| Fragments.CreateFragments | wifi.py:518-532 | no fragments for num_frags 0 (ZeroDivisionError); none for a negative count; otherwise exactly num_frags fragments whose payloads concatenate back to the data, fragment i built from the header with i OR-ed into SC, More Fragments set unless last, and the i-th slice as payload |
| Fragments.FragmentStep | wifi.py:528-530 | appending the slice that follows the covered prefix extends the concatenated payloads by that slice |
| Fragments.FragmentNumbering | wifi.py:524 | with the header's fragment bits clear and i below 16, fragment i keeps the sequence number and has fragment number i |
| Fragments.FragmentKeepsSeqNum | wifi.py:524 | for i below 16 the sequence number is kept whatever the header's fragment bits are |
| Fragments.FragmentScFits | wifi.py:524 | a 16-bit SC OR-ed with an index below 2^16 stays a 16-bit value |
| Monitor.Packet.constructor | wifi.py:366-370 | a packet object holds the frame that `send` may mark in place |
| Monitor.MarkInjected | wifi.py:368-369 | More Data is set and no other bit or field changes |
| Monitor.MonitorSocket.constructor | wifi.py:362-364 | the socket remembers `detect_injected` |
| Monitor.MonitorSocket.Send | wifi.py:366-370 | with `detect_injected`, the caller's packet itself is marked and that is what goes out; otherwise it is left as it is |
| Monitor.DropFcs | wifi.py:386 | `s[:-4]` removes exactly the last four octets, and gives the empty string for a shorter one |
| Monitor.PresentEnd | wifi.py:376-377 | the walk stops at the first `it_present` word whose last octet lacks the Ext bit, after having passed only words that have it; when it runs past the captured octets it raises IndexError |
| Monitor.SkipPresentWords | wifi.py:376-377 | the `while` loop computes exactly that offset, or raises |
| Monitor.FlagsOffsetAsWritten | wifi.py:379-382 | the code as written: without TSFT the offset is unchanged; with TSFT it is a multiple of 8 strictly more than 8 and at most 16 beyond the present words |
| Monitor.FlagsOffset | wifi.py:379-382 | corrected: with TSFT, the Flags field follows the 8-octet TSFT field placed at the next 8-aligned offset at or after the present words |
| Monitor.FlagsOffsetAsWrittenVsFlagsOffset | wifi.py:379-382 | the two offsets agree unless the present words end on an 8-octet boundary with TSFT present, and then the written one is 8 octets too far |
| Monitor.FcsByFlags | wifi.py:384-388 | IndexError when the Flags offset is past the captured octets; otherwise the last four octets are dropped exactly when the FCS flag is set |
| Monitor.StripFcsResult | wifi.py:372-388 | corrected `_strip_fcs`: the frame as it is without a Flags field or once the library parsed the FCS; otherwise IndexError on a cut-short Radiotap header, or the frame with or without its last four octets |
| Monitor.StripFcsAsWritten | wifi.py:372-388 | `_strip_fcs` with the TSFT step as written: the same three kinds of result as the corrected one |
| Monitor.StripFcsAsWrittenAgrees | wifi.py:379-388 | the written and the corrected `_strip_fcs` agree on every capture without TSFT, or whose present words do not end on an 8-octet boundary |
| Monitor.StripFcs | wifi.py:372-388 | without a Flags field, or when the library already parsed the FCS, the frame is returned as it is; otherwise it is the frame or the frame without its last four octets, as the Flags octet at the corrected offset says |
| Monitor.TsftAlignmentKeepsFcs | wifi.py:379-386 | on a capture with one present word and TSFT, the written offset is 24 and the written `_strip_fcs` keeps the FCS, while the Flags octet at 16 asks for it to be removed and the corrected one removes it |
| Monitor.MonitorSocket.Keeps | wifi.py:392-401 | a kept capture is 802.11; an own marked frame (More Data with `detect_injected`) and, unless `reflected`, a Radiotap header of at most 13 octets are dropped; an unmarked 802.11 capture with a longer header is kept |
| Monitor.MonitorSocket.Recv | wifi.py:390-407 | None on timeout, for a non-802.11 capture, for an own frame (More Data with `detect_injected`) and for a short Radiotap header unless `reflected`; else the library-parsed FCS is dropped, or `_strip_fcs` with the corrected Flags offset decides |
| Monitor.OwnEchoDropped | wifi.py:394-397 | with `detect_injected`, a capture carrying the flags `send` gave a frame is always dropped by `recv` |
| InjectionTests.AllCaptures | wifi.py:153 | raises exactly when some capture's test raises, and then with an exception one of them raises; true exactly when every capture passes |
| InjectionTests.TestPacketInjection | wifi.py:148-153 | IOError with no capture; otherwise true exactly when the property holds of every capture |
| InjectionTests.InjectionFields | wifi.py:155-181 | IOError exactly when some probe got no capture; AttributeError exactly when, all probes being captured, some QoS-probe capture lacks QoS; otherwise each overwrite flag holds exactly when some capture shows that overwrite, and `bad_inject` is their disjunction |
| InjectionTests.EapolKept | wifi.py:158-159 | a capture passes exactly when it carries EAPOL; the check never raises |
| InjectionTests.SeqNumKept | wifi.py:163-164 | a capture passes exactly when it has sequence number 30 and fragment number 0, as the probe was sent |
| InjectionTests.FragNumKept | wifi.py:168-169 | a capture passes exactly when its fragment number is 1, whatever its sequence number |
| InjectionTests.TidKept | wifi.py:173-174 | raises AttributeError exactly when the capture has no QoS Control field; passes exactly when its TID is 2 |
| InjectionTests.FaithfulEcho | wifi.py:155-181 | a transport that returns every probe unchanged is judged to overwrite nothing |
| InjectionTests.QosStrippedEcho | wifi.py:176-177 | a transport that strips QoS Control makes the test raise AttributeError |
| InjectionTests.Insert | wifi.py:199 | inserting into a sorted list gives a sorted permutation of the list and the new element |
| InjectionTests.Sorted | wifi.py:199 | `sorted(tids)` is non-decreasing and a permutation of `tids` |
| InjectionTests.SortedFixpoint | wifi.py:199 | a list equals its sorted copy exactly when it is non-decreasing |
| InjectionTests.InjectionOrder | wifi.py:196-202 | incomplete exactly when no TID 2 or no TID 6 frame was captured; otherwise reordered exactly when the TIDs are not non-decreasing, and in order exactly when they are |
| InjectionTests.OvertakenIsReordered | wifi.py:196-202 | TIDs [2, 2, 6, 2] are reordered |
| InjectionTests.InjectedOrderIsInOrder | wifi.py:196-202 | TIDs [2, 2, 2, 6], the injection order, are in order |
| InjectionTests.MissingTidSixIsIncomplete | wifi.py:196-202 | TIDs [2, 2, 2] make the test incomplete |
| InjectionTests.InjectionAck | wifi.py:214-253 | test_fail exactly when some probe got no capture; suspicious exactly when the first probe was captured once or the real-sender probe more than twice; the spoofed-sender probe captured more than twice is only reported; "not ideal" exactly when suspicious; "good" exactly when every probe was captured and neither suspicious condition holds |

## Left out

- Logging, the global log level and colours (wifi.py:20-37): console output. The log line of `dot11_get_iv` on a plaintext frame is dropped.
- Interface configuration through `subprocess`, sysfs and the MAC-address helpers (wifi.py:54-111): calls into the operating system.
- Injecting and sniffing (`inject_and_capture`, `get_nearby_ap_addr`, the sockets of `test_injection`, wifi.py:115-146, 255-304): I/O with timeouts and random labels. The verdict functions take the captures as input.
- `test_injection_fragment` (wifi.py:204-212): its only decision is whether the capture list is empty, and its only effect is a log line.
- The DHCP and ARP responders (wifi.py:308-356): their state lives in library base classes that are not part of this model.
- The scapy version shims (wifi.py:39-50), `get_ccmp_payload` (wifi.py:473-482) and `get_ssid` (wifi.py:542-548): layer navigation that depends on the library's class hierarchy.
- `MonitorSocket.close` and `MitmSocket`: they add no behaviour.
- Frame dissection and building: the library's codec is not modelled. A `Frame` or `Capture` holds the fields and raw octets the library produced, and `send` returns the frame it would serialise behind a default Radiotap header.
- `Frames.PayloadToIv`, `Frames.GetIv`: the model reads octets. The code (Python 3 only, given its f-strings at wifi.py:179-181) does not. `str(p[Dot11Encrypted])` at wifi.py:439 is a text string, so `struct.unpack` at wifi.py:429 raises TypeError. `payload[0]` at wifi.py:423 (via wifi.py:451) and `wep.iv[0]` at wifi.py:446-448 are ints, so `ord` raises TypeError. As written, every encrypted frame makes these functions raise TypeError (IndexError first when the octets run out).
- `MonitorSocket.Recv`: a capture is assumed to carry a Radiotap header, as every capture on a monitor interface does. The library's own receive call appears as an optional `Capture` argument.
- `IvReuse.IvInfo`: `p.time` is modelled as an integer instead of a float, so `time >= stored + 1` is compared on integers.
- `Fragments.CreateFragments`: the header is a value, so "each fragment is built from a copy and the header is not modified" holds by construction and is not stated as aliasing.
- The unused AES import.

## Findings

| source | as written | input that shows it | evidently intended | confidence | as-written member | corrected member |
|---|---|---|---|---|---|---|
| wifi.py:380-382 | `pos += 8 - pos % 8` adds 8 when `pos` is already a multiple of 8, so the Flags octet is read 8 octets past the TSFT field | Radiotap header with one `it_present` word `0x00000007` (TSFT, Flags, Rate), it_len 18, Flags octet 0x10 at offset 16: the code reads offset 24 (inside the 802.11 frame) and keeps the FCS | round `pos` up to the next multiple of 8 (no change when already aligned), then skip the 8 TSFT octets | not executed; high | Monitor.FlagsOffsetAsWritten, Monitor.StripFcsAsWritten, Monitor.TsftAlignmentKeepsFcs | Monitor.FlagsOffset, Monitor.StripFcsResult, Monitor.StripFcs, Monitor.MonitorSocket.Recv |
| wifi.py:534-540 | the loop ends only on `el is None`, but the payload after the last element is the library's empty-payload object, so `el.ID` raises AttributeError; with no element at all `el[Dot11Elt]` raises IndexError | a frame whose only element has ID 1, asked for ID 0 | return None when no element has the ID, as `get_tlv_value` does | not executed; medium | Frames.GetElementAsWritten, Frames.GetElementMissingIdRaises | Frames.GetElement |
