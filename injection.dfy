/** The verdicts of the injection tests, computed from what was captured.
    Injecting and sniffing are not modelled: each test takes the captured
    frames (or their number, or their TIDs) as input. */
module InjectionTests {
  import opened Common
  import opened Frames

  /** `all([test_func(cap) for cap in packets])`: every test is evaluated,
      left to right, an exception from any of them escapes, and the result
      is true when every capture passes. */
  function AllCaptures<C>(caps: seq<C>, test: C -> Result<bool>): (r: Result<bool>)
    ensures r.Raises? <==> exists i :: 0 <= i < |caps| && test(caps[i]).Raises?
    ensures r.Raises? ==> exists i :: 0 <= i < |caps| && test(caps[i]) == r
    ensures r == Ok(true) <==> forall i :: 0 <= i < |caps| ==> test(caps[i]) == Ok(true)
  {
    if caps == [] then Ok(true)
    else match test(caps[0])
      case Raises(e) => Raises(e)
      case Ok(b) =>
        match AllCaptures(caps[1..], test)
        case Raises(e) =>
          assert forall i :: 0 <= i < |caps| - 1 ==> caps[1..][i] == caps[i + 1];
          assert exists i :: 0 <= i < |caps| && test(caps[i]) == Raises(e) by {
            var j :| 0 <= j < |caps| - 1 && test(caps[1..][j]) == Raises(e);
            assert test(caps[j + 1]) == Raises(e);
          }
          Raises(e)
        case Ok(rest) =>
          assert forall i :: 0 <= i < |caps| - 1 ==> caps[1..][i] == caps[i + 1];
          assert forall i :: 0 <= i < |caps| ==> i == 0 || caps[i] == caps[1..][i - 1];
          Ok(b && rest)
  }

  /** test_packet_injection: no capture at all raises IOError; otherwise the
      property must hold of every capture. */
  function TestPacketInjection<C>(caps: seq<C>, test: C -> Result<bool>): (r: Result<bool>)
    ensures |caps| == 0 ==> r == Raises(IOError)
    ensures |caps| > 0 ==> r == AllCaptures(caps, test)
    ensures r == Ok(true) <==> |caps| > 0 && forall i :: 0 <= i < |caps| ==> test(caps[i]) == Ok(true)
  {
    if |caps| < 1 then Raises(IOError) else AllCaptures(caps, test)
  }

  /** The Sequence Control values of the probes of test_injection_fields. */
  const ProbeSc: nat := 30 * 16
  const ProbeFragSc: nat := 30 * 16 + 1
  const ProbeTid: Tid := 2

  /** The four properties test_injection_fields asks of a capture. Reading
      the TID of a capture without a QoS Control field raises. */
  function EapolKept(cap: Frame): (r: Result<bool>)
    ensures r.Ok? && (r.value <==> cap.eapol)
  {
    Ok(cap.eapol)
  }

  /** Sequence number 30 and fragment number 0, as sent. */
  function SeqNumKept(cap: Frame): (r: Result<bool>)
    ensures r.Ok? && (r.value <==> SeqNum(cap) == 30 && FragNum(cap) == 0)
  {
    if cap.sc == ProbeSc then SeqFragDetermined(cap, 30, 0); Ok(true)
    else Ok(false)
  }

  /** Fragment number 1, whatever the sequence number. */
  function FragNumKept(cap: Frame): (r: Result<bool>)
    ensures r.Ok? && (r.value <==> cap.sc == SeqNum(cap) * 16 + 1)
  {
    Ok(FragNum(cap) == 1)
  }

  /** TID 2, as sent; a capture without a QoS Control field raises. */
  function TidKept(cap: Frame): (r: Result<bool>)
    ensures r.Raises? <==> cap.tid.None?
    ensures r.Raises? ==> r.exc == AttributeError
    ensures r == Ok(true) <==> cap.tid.Some? && Priority(cap) == ProbeTid
  {
    match cap.tid
    case None => Raises(AttributeError)
    case Some(t) => Ok(t == ProbeTid)
  }

  /** Which fields were overwritten, and `bad_inject`. */
  datatype FieldsReport = FieldsReport(
    eapolLost: bool, seqOverwritten: bool, fragOverwritten: bool, tidOverwritten: bool, badInject: bool)

  /** test_injection_fields over the captures of its four probes, in order:
      an EAPOL frame, SC = 30 << 4, SC = (30 << 4) | 1 and a QoS frame with
      TID 2. The first exception of a probe ends the test. */
  method InjectionFields(eapolCaps: seq<Frame>, seqCaps: seq<Frame>, fragCaps: seq<Frame>, tidCaps: seq<Frame>)
    returns (r: Result<FieldsReport>)
    ensures eapolCaps == [] ==> r == Raises(IOError)
    ensures r.Ok? <==> (eapolCaps != [] && seqCaps != [] && fragCaps != [] && tidCaps != []
                        && forall i :: 0 <= i < |tidCaps| ==> tidCaps[i].tid.Some?)
    ensures r == Raises(IOError) <==> (eapolCaps == [] || seqCaps == [] || fragCaps == [] || tidCaps == [])
    ensures r == Raises(AttributeError) <==> (eapolCaps != [] && seqCaps != [] && fragCaps != [] && tidCaps != []
                                             && exists i :: 0 <= i < |tidCaps| && tidCaps[i].tid.None?)
    ensures r.Ok? ==> (r.value.eapolLost <==> exists i :: 0 <= i < |eapolCaps| && !eapolCaps[i].eapol)
    ensures r.Ok? ==> (r.value.seqOverwritten <==> exists i :: 0 <= i < |seqCaps| && seqCaps[i].sc != ProbeSc)
    ensures r.Ok? ==> (r.value.fragOverwritten <==> exists i :: 0 <= i < |fragCaps| && FragNum(fragCaps[i]) != 1)
    ensures r.Ok? ==> (r.value.tidOverwritten <==> exists i :: 0 <= i < |tidCaps| && tidCaps[i].tid != Some(ProbeTid))
    ensures r.Ok? ==> (r.value.badInject <==>
                       r.value.eapolLost || r.value.seqOverwritten || r.value.fragOverwritten || r.value.tidOverwritten)
  {
    var badInject := false;

    var eapol := TestPacketInjection(eapolCaps, EapolKept);
    if eapol.Raises? { return Raises(eapol.exc); }
    var eapolLost := !eapol.value;
    if eapolLost { badInject := true; }

    var sq := TestPacketInjection(seqCaps, SeqNumKept);
    if sq.Raises? { return Raises(sq.exc); }
    var seqOverwritten := !sq.value;
    if seqOverwritten { badInject := true; }

    var fr := TestPacketInjection(fragCaps, FragNumKept);
    if fr.Raises? { return Raises(fr.exc); }
    var fragOverwritten := !fr.value;
    if fragOverwritten { badInject := true; }

    var td := TestPacketInjection(tidCaps, TidKept);
    if td.Raises? {
      if tidCaps != [] {
        var i :| 0 <= i < |tidCaps| && TidKept(tidCaps[i]) == td;
      }
      return Raises(td.exc);
    }
    var tidOverwritten := !td.value;
    if tidOverwritten { badInject := true; }

    r := Ok(FieldsReport(eapolLost, seqOverwritten, fragOverwritten, tidOverwritten, badInject));
  }

  /** A transport that echoes every probe unchanged: nothing is overwritten. */
  method FaithfulEcho(eapolProbe: Frame, seqProbe: Frame, fragProbe: Frame, tidProbe: Frame)
    returns (r: Result<FieldsReport>)
    requires eapolProbe.eapol && seqProbe.sc == ProbeSc && fragProbe.sc == ProbeFragSc
    requires tidProbe.tid == Some(ProbeTid)
    ensures r.Ok? && !r.value.badInject
  {
    r := InjectionFields([eapolProbe], [seqProbe], [fragProbe], [tidProbe]);
  }

  /** A transport that strips the QoS Control field on echo: reading the TID
      raises, so the test ends with an exception instead of a verdict. */
  method QosStrippedEcho(eapolProbe: Frame, seqProbe: Frame, fragProbe: Frame, tidProbe: Frame)
    returns (r: Result<FieldsReport>)
    requires eapolProbe.eapol && seqProbe.sc == ProbeSc && fragProbe.sc == ProbeFragSc
    requires tidProbe.tid.None?
    ensures r == Raises(AttributeError)
  {
    assert [tidProbe][0].tid.None?;
    r := InjectionFields([eapolProbe], [seqProbe], [fragProbe], [tidProbe]);
  }

  /** `tids == sorted(tids)` holds exactly of non-decreasing lists. */
  predicate NonDecreasing(s: seq<int>)
  {
    forall i, j :: 0 <= i < j < |s| ==> s[i] <= s[j]
  }

  lemma ConsNonDecreasing(h: int, t: seq<int>)
    requires NonDecreasing(t) && (t == [] || h <= t[0])
    ensures NonDecreasing([h] + t)
  {
    forall i, j | 0 <= i < j < |[h] + t| ensures ([h] + t)[i] <= ([h] + t)[j] {
      if i > 0 {
        assert ([h] + t)[i] == t[i - 1] && ([h] + t)[j] == t[j - 1];
      } else {
        assert h <= t[0] <= t[j - 1];
      }
    }
  }

  /** Inserting into a sorted list; the head of the result is `x` or the
      old head. */
  function Insert(x: int, s: seq<int>): (r: seq<int>)
    requires NonDecreasing(s)
    ensures NonDecreasing(r) && multiset(r) == multiset(s) + multiset{x}
    ensures |r| == |s| + 1 && (r[0] == x || (s != [] && r[0] == s[0]))
    decreases |s|
  {
    if s == [] then [x]
    else if x <= s[0] then
      ConsNonDecreasing(x, s);
      [x] + s
    else
      var t := Insert(x, s[1..]);
      ConsNonDecreasing(s[0], t);
      InsertMultiset(s, t, x);
      [s[0]] + t
  }

  /** Inserting x behind the head keeps every element and adds x. */
  lemma InsertMultiset(s: seq<int>, t: seq<int>, x: int)
    requires s != [] && multiset(t) == multiset(s[1..]) + multiset{x}
    ensures multiset([s[0]] + t) == multiset(s) + multiset{x}
  {
    assert s == [s[0]] + s[1..];
  }

  /** Python's `sorted` on a list of integers. */
  function Sorted(s: seq<int>): (r: seq<int>)
    ensures NonDecreasing(r) && multiset(r) == multiset(s)
  {
    if s == [] then []
    else
      assert s == [s[0]] + s[1..];
      Insert(s[0], Sorted(s[1..]))
  }

  lemma {:induction false} SortedKeepsNonDecreasing(s: seq<int>)
    requires NonDecreasing(s)
    ensures Sorted(s) == s
  {
    if s != [] {
      assert NonDecreasing(s[1..]);
      SortedKeepsNonDecreasing(s[1..]);
    }
  }

  /** A list equals its sorted copy exactly when it is non-decreasing. */
  lemma SortedFixpoint(s: seq<int>)
    ensures Sorted(s) == s <==> NonDecreasing(s)
  {
    if NonDecreasing(s) {
      SortedKeepsNonDecreasing(s);
    }
  }

  datatype OrderVerdict = Incomplete | Reordered | InOrder

  /** The verdict of test_injection_order on the TIDs captured for its four
      frames (TIDs 2, 2, 2, 6): incomplete when a TID 2 or a TID 6 frame is
      missing; otherwise reordered exactly when a later TID is below an
      earlier one. */
  function InjectionOrder(tids: seq<int>): (v: OrderVerdict)
    ensures v == Incomplete <==> !(2 in tids && 6 in tids)
    ensures v == Reordered <==> (2 in tids && 6 in tids && !NonDecreasing(tids))
    ensures v == InOrder <==> (2 in tids && 6 in tids && NonDecreasing(tids))
  {
    SortedFixpoint(tids);
    if !(2 in tids && 6 in tids) then Incomplete
    else if tids != Sorted(tids) then Reordered
    else InOrder
  }

  /** The TID 6 frame overtook the last TID 2 frame. */
  lemma OvertakenIsReordered()
    ensures InjectionOrder([2, 2, 6, 2]) == Reordered
  {
    var tids := [2, 2, 6, 2];
    assert tids[0] == 2 && tids[2] == 6;
    assert tids[2] > tids[3];
  }

  lemma InjectedOrderIsInOrder()
    ensures InjectionOrder([2, 2, 2, 6]) == InOrder
  {
    var tids := [2, 2, 2, 6];
    assert tids[0] == 2 && tids[3] == 6;
    assert NonDecreasing(tids) by {
      forall i, j | 0 <= i < j < |tids| ensures tids[i] <= tids[j] {
        assert tids[i] == 2 || i == 3;
      }
    }
  }

  lemma MissingTidSixIsIncomplete()
    ensures InjectionOrder([2, 2, 2]) == Incomplete
  {
  }

  /** The closing line test_injection_ack prints. */
  datatype AckSummary = NotIdeal | Good | NoSummary

  datatype AckReport = AckReport(suspicious: bool, testFail: bool, spoofedRetransmitted: bool, summary: AckSummary)

  /** test_injection_ack over the number of captured (re)transmissions of
      its three probes: to an address nobody acknowledges, to the AP from a
      spoofed sender, and to the AP from the real sender. Only the first
      and the third can make the run suspicious; too many retransmissions
      of the second are only reported. */
  method InjectionAck(numRetries: nat, numSpoofed: nat, numReal: nat) returns (r: AckReport)
    ensures r.testFail <==> (numRetries == 0 || numSpoofed == 0 || numReal == 0)
    ensures r.suspicious <==> (numRetries == 1 || numReal > 2)
    ensures r.spoofedRetransmitted <==> numSpoofed > 2
    ensures r.summary == NotIdeal <==> r.suspicious
    ensures r.summary == Good <==> (numRetries >= 2 && numSpoofed >= 1 && 1 <= numReal <= 2)
  {
    var suspicious := false;
    var testFail := false;

    if numRetries == 0 {
      testFail := true;
    } else if numRetries == 1 {
      suspicious := true;
    }

    if numSpoofed == 0 {
      testFail := true;
    }
    var spoofedRetransmitted := numSpoofed > 2;

    if numReal == 0 {
      testFail := true;
    } else if numReal > 2 {
      suspicious := true;
    }

    var summary := NoSummary;
    if suspicious {
      summary := NotIdeal;
    } else if !testFail {
      summary := Good;
    }
    r := AckReport(suspicious, testFail, spoofedRetransmitted, summary);
  }
}
